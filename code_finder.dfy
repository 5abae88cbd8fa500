/**
 * `CodeFinder.create_qr_code`: classify the text read from a QR code as a single code, a row
 * code or a group code, or reject it.
 */
module CodeFinder {
  import opened Wrappers
  import opened Geometry
  import opened Text
  import opened FieldItems

  /** The one misprinted label the finder rewrites before classifying. */
  function Rewritten(qrData: string): (r: string)
    ensures qrData == "K000736" ==> r == "736"
    ensures qrData != "K000736" ==> r == qrData
  {
    if qrData == "K000736" then "736" else qrData
  }

  /** `data[-3:-1].lower() in ['st', 'en']`: the two characters before the last spell a row-code role. */
  predicate RowSuffix(data: string) {
    var s := Lower(Slice(data, -3, -1));
    s == "st" || s == "en"
  }

  /** A code item with the constructor's defaults and the given name. */
  function Code(kind: Kind, name: string): Item {
    NewItem(kind, name, Point(0.0, 0.0, 0.0), "N/A", "", None)
  }

  /**
   * `create_qr_code`. `data[0]` raises IndexError on empty data, and `int(data[:3])` raises
   * ValueError when a row code does not start with a number.
   */
  function CreateQrCode(qrData: string, boundingRect: Option<Rect>): (r: Result<Option<Item>>)
    ensures var data := Rewritten(qrData);
            r.Err? <==> data == [] || (LowerChar(data[0]) != 'k' && RowSuffix(data) && ParseInt(Slice(data, 0, 3)).None?)
    ensures r.Ok? && r.value.Some? ==> r.value.value.name == Rewritten(qrData)
    ensures r.Ok? && r.value.Some? ==> r.value.value.boundingRect == boundingRect
    ensures r.Ok? && r.value.Some? ==> r.value.value.others == [] && r.value.value.group.None?
  {
    var data := Rewritten(qrData);
    if data == [] then Err(IndexError("string index out of range"))
    else if LowerChar(data[0]) == 'k' then
      Ok(Some(Code(SingleCode, data).(boundingRect := boundingRect)))
    else if RowSuffix(data) then
      match ParseInt(Slice(data, 0, 3))
      case None => Err(ValueError("invalid literal for int() with base 10"))
      case Some(row) => Ok(Some(Code(RowCode, data).(row := row, boundingRect := boundingRect)))
    else if IsDigitString(data) then
      Ok(Some(Code(GroupCode, data).(boundingRect := boundingRect)))
    else Ok(None)
  }

  /** The misprinted 'K000736' becomes the group code '736' rather than a single code. */
  lemma MisprintIsGroupCode(boundingRect: Option<Rect>)
    ensures CreateQrCode("K000736", boundingRect).Ok?
    ensures CreateQrCode("K000736", boundingRect).value.Some?
    ensures CreateQrCode("K000736", boundingRect).value.value.kind == GroupCode
    ensures CreateQrCode("K000736", boundingRect).value.value.name == "736"
  {
    assert Slice("736", -3, -1) == "73";
    assert Lower("73") == "73";
    assert IsDigitString("736");
  }

  /** A leading k or K makes a single code, whatever the rest says (a St/En suffix included). */
  lemma LeadingKIsSingleCode(qrData: string, boundingRect: Option<Rect>)
    requires qrData != "K000736" && qrData != [] && LowerChar(qrData[0]) == 'k'
    ensures CreateQrCode(qrData, boundingRect) == Ok(Some(Code(SingleCode, qrData).(boundingRect := boundingRect)))
  { }

  /** Otherwise a St/En role before the last character makes a row code numbered by the first three characters. */
  lemma RowSuffixIsRowCode(qrData: string, boundingRect: Option<Rect>, row: int)
    requires qrData != "K000736" && qrData != [] && LowerChar(qrData[0]) != 'k'
    requires RowSuffix(qrData) && ParseInt(Slice(qrData, 0, 3)) == Some(row)
    ensures CreateQrCode(qrData, boundingRect).Ok? && CreateQrCode(qrData, boundingRect).value.Some?
    ensures CreateQrCode(qrData, boundingRect).value.value.kind == RowCode
    ensures RowOf(CreateQrCode(qrData, boundingRect).value.value) == row
  { }

  /** Otherwise digits alone make a group code and anything else is rejected with None. */
  lemma DigitsIsGroupCode(qrData: string, boundingRect: Option<Rect>)
    requires qrData != "K000736" && qrData != [] && LowerChar(qrData[0]) != 'k' && !RowSuffix(qrData)
    ensures IsDigitString(qrData) ==> CreateQrCode(qrData, boundingRect) == Ok(Some(Code(GroupCode, qrData).(boundingRect := boundingRect)))
    ensures !IsDigitString(qrData) ==> CreateQrCode(qrData, boundingRect) == Ok(None)
  { }

  /** A group code made from a QR code reads back its text as `id` and `alternate_id`. */
  lemma GroupCodeIds(qrData: string, boundingRect: Option<Rect>)
    requires CreateQrCode(qrData, boundingRect).Ok? && CreateQrCode(qrData, boundingRect).value.Some?
    requires CreateQrCode(qrData, boundingRect).value.value.kind == GroupCode
    ensures Id(CreateQrCode(qrData, boundingRect).value.value) == Ok(Rewritten(qrData))
    ensures AlternateId(CreateQrCode(qrData, boundingRect).value.value) == Ok(Rewritten(qrData))
  { }
}
