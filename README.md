# HTMI field mapping: the post-detection core in Dafny

HTMI turns the codes and plant parts that cameras detect in overlapping, geo-referenced images
of a planted field into one ordered field map. Detections of the same object in several
images are merged into one item with references. Row codes are paired into rows, and every
row is given an up or back direction. Group and single codes are projected onto their nearest
row. Rows are cut into segments between consecutive codes, and an end segment is stitched to
the start segment of the next pass to form a plant group. Inside every segment a recursive
localizer picks the most likely plant candidate for each expected plant position, or creates
a plant where none fits. Finally the whole field is numbered in a serpentine walk.

This project models that core in Dafny 4.11 and proves what it promises:

- The items of the field (`FieldItems`) live in an arena: a sequence of item records whose
  index is the item's identity. A reference between items (`other_items`, a segment's codes,
  a group's segments) is an index into that arena.
- `FieldGrouping.Registry` is a class that holds the arenas of items, segments, groups and
  rows. Every operation that changes things in place is a method on a registry, with a
  `modifies` clause. Its `ensures` ties the new state to a specification function of the old
  state, and lemmas state what that function means.
- Python's `sys.exit`, exceptions and NaN are modelled as values: an `Err` of a `Result`, or
  `None` of an `Option`. Dictionary iteration order, `sqrt` and the `atan2` bearing are
  modelled as parameters.

Modules follow the source files: `ItemProcessing`, `ReferenceLists` and `ReferenceClusters`
(src/processing/item_processing.py); `Geometry` (its position, angle and projection helpers);
`FieldItems` (src/data/field_item.py); `FieldGrouping` (src/data/field_grouping.py);
`RowGrouping`, `GroupingSegments` and `GroupingGroups` (src/util/grouping.py);
`PlantLocalization`; `Clustering`; `Numbering`; `Overlap`; `CodeFinder`; `ItemExtraction`;
`ImageUtils`; `DbConverter`; `Stage2Analysis`; and `GeoImages`. `Lists`, `Sorting`, `Text`
and `Wrappers` hold the Python built-ins the core relies on (`list.index`, stable `sorted`,
`str.lower`, `int(str(i))`, `Result`/`Option`).

## Model

| member | source | states |
|---|---|---|
| FieldItems.TypeName | src/data/field_item.py:98-101 | `type` is the class name: one name per kind of item, the code kinds spelt prefix + "Code" |
| FieldItems.TypeNameInjective | src/data/field_item.py:98-101 | two items have the same `type` exactly when they are of the same kind |
| FieldItems.IsCodeKinds | src/util/plant_localization.py:180-187 | the test `'code' in item.type.lower()` holds exactly for group, single and row codes |
| FieldItems.NameTestKinds | src/util/grouping.py:288-289 | `type.lower() == 'rowcode'` picks out exactly row codes and `== 'plant'` exactly plants |
| FieldItems.NewItem | src/data/field_item.py:8-24 | a new item stores the given name, kind and position, has no references, row and range 0, numbers 0, no group, and (for a row code) `assigned_row` -1 |
| FieldItems.AllRefs | src/data/field_item.py:30-32 | `all_refs` is the item followed by its references: one longer, and the item comes first |
| FieldItems.Position | src/data/field_item.py:42-44 | the `position` property, the mean of the stored position and the references' positions; its meaning is stated by `PositionSamePlaces`, `PositionWithoutRefs` and `PositionOfCoincidentRefs` |
| FieldItems.PositionSamePlaces | src/data/field_item.py:42-44 | the averaged `position` depends only on the stored positions and the reference lists |
| FieldItems.PositionWithoutRefs | src/data/field_item.py:42-44 | an item without references is at its stored position |
| FieldItems.PositionOfCoincidentRefs | src/data/field_item.py:42-44 | an item whose references all sit at its stored position stays at that position |
| FieldItems.RowOf | src/data/field_item.py:180-184 | a row code reads `assigned_row` when it is >= 0 and its stored row otherwise; other kinds read the stored row |
| FieldItems.Id | src/data/field_item.py:150-172 | `id` is the name for group and single codes, and an AttributeError for every other kind |
| FieldItems.AlternateId | src/data/field_item.py:146-162 | `alternate_id` reads the stored value, and is an AttributeError where it was never created |
| FieldItems.NewGroupCodeIds | src/data/field_item.py:140-162 | a new group code reads its name back as both `id` and `alternate_id` |
| FieldItems.NumberWithinSegment | src/data/field_item.py:120-126 | `number_within_segment` is always -1: `group` is a `PlantGroup` or None, and neither has `items` |
| FieldItems.Assigned | src/data/field_item.py:58-162 | the arena after assigning one attribute of one item keeps its length and every reference list |
| FieldItems.AssignedReadBack | src/data/field_item.py:62-96 | after the assignment the item, and each reference when the setter propagates, reads the new value back |
| FieldItems.AssignedFrame | src/data/field_item.py:62-118 | nothing changes but the assigned attribute, and only on the item and (for a propagating setter) its references |
| FieldItems.AssignedLocal | src/data/field_item.py:110-118 | `group` on a code that is not a `GroupItem`, and every plain attribute, reaches the item alone |
| FieldItems.AssignedPlain | src/data/field_item.py:58-162 | an assignment that does not propagate is a plain update of that one item |
| FieldGrouping.NewSegment | src/data/field_grouping.py:30-39 | a new segment has the two codes, no items, no group, `expected_num_plants` -1 and nothing measured |
| FieldGrouping.NewGroup | src/data/field_grouping.py:77-80 | a new group has no segments and `expected_num_plants` -1 |
| FieldGrouping.NewRow | src/data/field_grouping.py:7-14 | a new row has the two codes and direction, and a fresh empty segment list unless one is given |
| FieldGrouping.Successor | src/data/field_grouping.py:53-60 | `next_segment` is the entry after the segment's first occurrence, None for the last one, and an error when it is absent |
| FieldGrouping.SuccessorChain | src/data/field_grouping.py:53-60 | in a list without repeats every segment's successor is the next entry and the last has none |
| FieldGrouping.PartlyAssignedStep | src/data/field_item.py:62-66 | the setter's loop over `other_items`, one reference at a time, extends the assigned set by that reference |
| FieldGrouping.PartlyAssignedAll | src/data/field_item.py:62-66 | once the loop has visited every reference the arena is the setter's result `Assigned` |
| FieldGrouping.Registry.AddFieldItem | src/data/field_item.py:8-24 | creating an item appends exactly that record to the arena and changes nothing else |
| FieldGrouping.Registry.Set | src/data/field_item.py:58-162 | assigning an attribute makes the arena `Assigned(old, i, a)`; segments, groups and rows are unchanged |
| FieldGrouping.Registry.AddOtherItem | src/data/field_item.py:34-40 | the setter refuses the item itself and an item of another type with ValueError, and otherwise appends to the reference list |
| FieldGrouping.Registry.AddSegmentRecord | src/data/field_grouping.py:30-39 | creating a segment appends a fresh segment record between the two codes |
| FieldGrouping.Registry.AddGroupRecord | src/data/field_grouping.py:77-80 | creating a group appends an empty group record |
| FieldGrouping.Registry.AddRowRecord | src/data/field_grouping.py:7-14 | creating a row appends a row record with its codes and direction |
| FieldGrouping.Registry.SetDirection | src/util/grouping.py:173-176 | `row.direction = d` changes that field of that row only |
| FieldGrouping.Registry.AppendRowSegment | src/data/field_grouping.py:12-14 | appending to `group_segments` adds the segment at the end of that row's list only |
| FieldGrouping.Registry.SetExpectedNumPlants | src/data/field_grouping.py:80 | `expected_num_plants = n` changes that field of that group only |
| FieldGrouping.Registry.UpdateGroup | src/data/field_grouping.py:41-44 | the segment records the group and its start code's propagating `group` setter runs |
| FieldGrouping.Registry.AddItem | src/data/field_grouping.py:46-51 | None raises ValueError; otherwise the item is appended to the segment and given the segment's group |
| FieldGrouping.Registry.AddSegment | src/data/field_grouping.py:82-84 | after `add_segment(s)` the segment and its start code belong to the group and `s` is the group's last segment |
| FieldGrouping.Registry.NextSegment | src/data/field_grouping.py:53-60 | the successor of the segment in its group's list, None when it has no group |
| FieldGrouping.Registry.SegmentRowNumber | src/data/field_grouping.py:62-64 | a segment's row number is its start code's `row` property |
| FieldGrouping.Registry.SegmentLengthProperties | src/data/field_grouping.py:66-73 | a segment's length is non-negative and the same with its two codes swapped |
| FieldGrouping.Registry.GroupStartCode | src/data/field_grouping.py:86-88 | a group's start code is its first segment's start code; an empty group raises IndexError |
| FieldGrouping.Registry.GroupId | src/data/field_grouping.py:89-91 | a group's `id` is its start code's `id` |
| FieldGrouping.Registry.GroupAlternateId | src/data/field_grouping.py:92-94 | a group's `alternate_id` is its start code's `alternate_id` |
| FieldGrouping.Registry.GroupLength | src/data/field_grouping.py:95-101 | the loop's running total is the sum of the segment lengths |
| FieldGrouping.Registry.SumLengthsNonNegative | src/data/field_grouping.py:95-101 | a group's length is non-negative, and a one-segment group is as long as its segment |
| FieldGrouping.Registry.SumLengthsAppend | src/data/field_grouping.py:82-101 | adding a segment to a group adds its length to the group's |
| FieldGrouping.Registry.RowNumber | src/data/field_grouping.py:16-19 | a row's number is its start code's `row` property |
| GeoImages.NewGeoImage | src/data/geo_image.py:5-27 | a new geo image keeps the given fields, has `size` equal to the given (width, height) and all four corners at the origin |
| Geometry.PositionDifference | src/processing/item_processing.py:188-192 | `position_difference`, the XY distance; `PositionDifferenceSymmetric`, `PositionDifferenceIgnoresZ` and `PositionDifferenceZero` state its meaning |
| Geometry.PositionDifferenceSymmetric | src/processing/item_processing.py:188-192 | the XY distance does not depend on the order of the two positions |
| Geometry.PositionDifferenceIgnoresZ | src/processing/item_processing.py:188-192 | the XY distance ignores the heights |
| Geometry.PositionDifferenceZero | src/processing/item_processing.py:188-192 | the distance is non-negative, and zero exactly when the two positions agree in x and y |
| Geometry.LateralAndProjection | src/processing/item_processing.py:260-288 | the result is None (the source's single NaN) exactly when a and b coincide in x and y |
| Geometry.LateralAndProjectionProperties | src/processing/item_processing.py:260-288 | projection times \|ab\| is dot(ap, ab); the lateral offset is positive or zero exactly when cross(ab, ap) >= 0; lateral^2 + projection^2 = \|ap\|^2 |
| Geometry.ProjectionToPosition | src/util/plant_localization.py:116-120 | the generated point keeps the height of `a` |
| Geometry.ProjectionToPositionRoundTrip | src/util/plant_localization.py:116-122 | projecting the point generated at distance d back onto a->b gives projection d and lateral offset 0 |
| Geometry.CapAngleSpec | src/processing/item_processing.py:228-234 | the capped angle lies in (-180, 180]; `CapAngleSpecIsUnique` states that it is the one such value a whole number of turns from the input |
| Geometry.CapAngleSpecIsUnique | src/processing/item_processing.py:228-234 | the capped angle is the one value in (-180, 180] that differs from the input by a multiple of 360 |
| Geometry.CapAngleSpecIdempotent | src/processing/item_processing.py:228-234 | capping a capped angle changes nothing |
| Geometry.CapAngleSpecPeriodic | src/processing/item_processing.py:228-234 | adding whole turns does not change the capped angle |
| Geometry.CapAngle | src/processing/item_processing.py:228-234 | the two correcting `while` loops return the capped angle |
| Geometry.CapAngleSpecNegate | src/processing/item_processing.py:228-240 | negating an angle keeps the magnitude of its capped value |
| Geometry.CompareAngles | src/processing/item_processing.py:236-240 | `compare_angles`: the capped difference is strictly within the threshold; `CompareAnglesSymmetric` and `CapAngleSpecNegate` state that the order of the angles does not matter |
| Geometry.CompareAnglesSymmetric | src/processing/item_processing.py:236-240 | `compare_angles(a, b, t)` is `compare_angles(b, a, t)` |
| Geometry.OrientItems | src/processing/item_processing.py:242-258 | (item1, item2) when the bearing is within the threshold of `direction`, else (item2, item1) when within it of `-direction`, else (None, None) |
| Geometry.OrientItemsPermutation | src/processing/item_processing.py:242-258 | the oriented pair is the two inputs in some order, or neither |
| Geometry.OrientItemsNegation | src/processing/item_processing.py:250-255 | the second test is against the negated direction, not direction + 180 |
| ItemProcessing.FlattenMembers | src/processing/item_processing.py:53-58 | an item is in `all_items` exactly when it is in one image's items |
| ItemProcessing.FlattenLength | src/processing/item_processing.py:53-58 | `all_items` is as long as all the images' item lists together |
| ItemProcessing.AllItems | src/processing/item_processing.py:53-58 | the loop of `extend` calls returns every image's items, image by image |
| ItemProcessing.ItemCenter | src/processing/item_processing.py:62-69 | a missing rectangle is a TypeError, an upright 4-tuple a ValueError, and a rotated rectangle gives its stored centre |
| ItemProcessing.OrderItems | src/processing/item_processing.py:60-71 | rotation 180, 0, 90 or 270 gives a permutation of the items sorted by centre y or x, ascending or descending; any other rotation gives None |
| ItemProcessing.RotationOrder | src/processing/item_processing.py:62-69 | ascending order for 90 and 180, descending for 0 and 270 |
| ItemProcessing.OrderItemsStable | src/processing/item_processing.py:60-71 | items with equal sort coordinate come out in input order in either direction |
| ItemProcessing.IsSameItem | src/processing/item_processing.py:194-217 | items of different types, items from one image (unless row codes) and codes with different names are never the same item |
| ItemProcessing.IsSameItemMeans | src/processing/item_processing.py:194-217 | the full decision: same kind, different images unless row codes, same name for codes, and XY distance at most the threshold (at least 30 for same-name codes) divided by 100 |
| ItemProcessing.IsSameItemSymmetric | src/processing/item_processing.py:194-217 | the decision does not depend on which item is asked first |
| ItemProcessing.SamePositionPlantsMerge | src/processing/item_processing.py:194-217 | two plants from different images at the same XY position are the same item for any non-negative threshold |
| ItemProcessing.IsSamePositionItem | src/processing/item_processing.py:219-226 | the test holds exactly for equal names with an XY distance strictly below threshold / 100 |
| ItemProcessing.SamePositionStricterThanSameItem | src/processing/item_processing.py:214-226 | at exactly the threshold distance only `is_same_item` holds |
| ItemProcessing.FirstMatch | src/processing/item_processing.py:77-81 | the index is -1 or a unique item that is the same item |
| ItemProcessing.FirstMatchNoneBefore | src/processing/item_processing.py:77-81 | no unique item before the first match (or at all, when there is none) is the same item |
| ItemProcessing.FirstMatchIs | src/processing/item_processing.py:77-81 | the first match is the only index that matches with no match before it |
| ItemProcessing.FindMatch | src/processing/item_processing.py:77-81 | the inner loop with `break` returns the first match |
| ItemProcessing.Attach | src/processing/item_processing.py:87 | appending a reference changes that one item's reference list only |
| ItemProcessing.AttachValid | src/processing/item_processing.py:87 | the registry's item gains the reference at the end of its list and the registry stays valid |
| ItemProcessing.Merge | src/processing/item_processing.py:73-89 | the specification of the merge loop keeps the arena's length and the unique items inside it |
| ItemProcessing.MergeTurn | src/processing/item_processing.py:76-87 | one turn of the outer loop is one step of `Merge` |
| ItemProcessing.MergeItems | src/processing/item_processing.py:73-89 | `merge_items` leaves the arena and unique list that `Merge` describes |
| ItemProcessing.MergeItemsOrder | src/processing/item_processing.py:73-89 | the unique items keep input order, are no more than the inputs, and always include the first input |
| ItemProcessing.MergeOnlyOthers | src/processing/item_processing.py:73-89 | the merge changes no field of any item but its reference list |
| ItemProcessing.MergeItemsPlacement | src/processing/item_processing.py:73-89 | every input item ends up exactly once: as a unique item or in the reference list of exactly one unique item |
| ReferenceClusters.AddRef | src/processing/item_processing.py:104-114 | one reference joins every cluster with a close member, or starts a new cluster when it joins none |
| ReferenceClusters.BuildClusters | src/processing/item_processing.py:101-114 | every cluster built holds only indices into the arena; `BuildClustersCover` and `BuildClustersFirst` state what the clusters are |
| ReferenceClusters.BuildClustersCover | src/processing/item_processing.py:101-114 | every reference lands in at least one cluster, every cluster is non-empty and holds only references, and there are no more clusters than references |
| ReferenceClusters.BuildClustersFirst | src/processing/item_processing.py:101-114 | with any references, the first cluster opens with the first reference, the item itself |
| ReferenceClusters.AddRefJoins | src/processing/item_processing.py:106-111 | a reference within `cluster_size` of a member of an existing cluster joins that cluster (the `break` leaves only the inner loop) |
| ReferenceClusters.ImageNamed | src/processing/item_processing.py:130-133 | the image found carries the reference's file name, and None means no image has it |
| ReferenceClusters.NonBad | src/processing/item_processing.py:128-141 | the kept members are those with a parent image whose time lies outside both hard-coded windows, in order |
| ReferenceClusters.ValidClusters | src/processing/item_processing.py:125-150 | the filtered clusters that keep at least one reference, in order |
| ReferenceClusters.KeptCluster | src/processing/item_processing.py:164-176 | the only cluster; else the largest when strictly larger than the second; else all clusters concatenated |
| ReferenceClusters.ChosenClusters | src/processing/item_processing.py:116-150 | clusters largest first, replaced by the filtered ones only when some remain |
| ReferenceClusters.KeptReferences | src/processing/item_processing.py:101-176 | the references kept for one item are a non-empty selection of its references |
| ReferenceClusters.Rereference | src/processing/item_processing.py:178-182 | the main member's list is cleared and each further member is cleared and appended to it |
| ReferenceClusters.RereferenceStep | src/processing/item_processing.py:180-182 | one more member: its list is cleared and it is appended to the main member's |
| ReferenceClusters.RereferenceDistinct | src/processing/item_processing.py:178-182 | with no repeated member, the main item references exactly the other members, which reference nothing |
| ReferenceClusters.RepeatedMainReferencesItself | src/processing/item_processing.py:178-182 | a member listed twice makes the main item reference itself |
| ReferenceClusters.ClusterAll | src/processing/item_processing.py:98-186 | the output holds at most one item per merged item |
| ReferenceClusters.ClusterAllStep | src/processing/item_processing.py:100-184 | one more merged item: its kept cluster is reassigned and its head appended to the output |
| ReferenceClusters.IsNear | src/processing/item_processing.py:107-111 | the inner loop reports whether some member of the cluster is within `cluster_size` |
| ReferenceClusters.AddToClusters | src/processing/item_processing.py:104-114 | the loop over the clusters for one reference computes `AddRef` |
| ReferenceClusters.NonBadItems | src/processing/item_processing.py:128-141 | the loop over a cluster computes `NonBad` |
| ReferenceClusters.FilterClusters | src/processing/item_processing.py:126-144 | the loop over the clusters computes `ValidClusters` |
| ReferenceClusters.KeepReferences | src/processing/item_processing.py:101-176 | one item's loops compute `KeptReferences` |
| ReferenceClusters.SetOthers | src/processing/item_processing.py:179 | replacing a reference list changes that list only |
| ReferenceClusters.AttachMember | src/processing/item_processing.py:181-182 | one member is cleared and appended to the main member's list |
| ReferenceClusters.Reassign | src/processing/item_processing.py:178-182 | the reassignment loop leaves the reference lists `Rereference` describes |
| ReferenceClusters.ClusterMergedItems | src/processing/item_processing.py:98-186 | with the reference lists replaced as intended, the arena and output are `ClusterAll` of the merged items |
| ReferenceClusters.ClusterMergedItemsAsWritten | src/processing/item_processing.py:98-186 | as written the call fails exactly when there is a merged item, and the failure is an AttributeError |
| RowGrouping.FirstInfo | src/util/grouping.py:15-18 | the line found has the code's name as its id and none before it has; None means no line has |
| RowGrouping.WithEntryRep | src/util/grouping.py:14-21 | the arena after the loop keeps its length and every reference list |
| RowGrouping.NumMatched | src/util/grouping.py:13-21 | the count is at most the number of codes |
| RowGrouping.WithEntryRepAt | src/util/grouping.py:14-21 | a code with a matching line carries that line's entry and rep; every other item and field is unchanged |
| RowGrouping.EntryRepStep | src/util/grouping.py:15-21 | one turn of the loop assigns entry and rep from the first matching line, and counts it |
| RowGrouping.AssociateIdsToEntryRep | src/util/grouping.py:11-23 | the loop leaves `WithEntryRep` and returns `NumMatched` |
| RowGrouping.GroupedByRow | src/util/grouping.py:25-30 | the dictionary `group_row_codes` builds; `GroupedByRowBuckets` states its keys and buckets |
| RowGrouping.GroupedByRowBuckets | src/util/grouping.py:25-30 | there is a bucket for exactly the rows some code has, holding exactly that row's codes in input order |
| RowGrouping.RowBucketEmpty | src/util/grouping.py:28-29 | a row no code has gets no entry |
| RowGrouping.GroupRowCodes | src/util/grouping.py:25-30 | the loop returns the buckets `GroupedByRow` describes |
| RowGrouping.SideOf | src/util/grouping.py:40 | the side letter is the lower-cased last character; an empty name raises IndexError |
| RowGrouping.InnerStepErr | src/util/grouping.py:42-65 | a turn exits exactly when the other code is unpaired and distinct and its name is too short, or it shares the pass and the code is already paired, or the two have the same role, or not one 'st' and one 'en' |
| RowGrouping.PassPairs | src/util/grouping.py:32-74 | the pairs `group_row_codes_by_pass_name` returns, or why it stops; `PassPairsComplete` states what the pairs are |
| RowGrouping.PassPairsComplete | src/util/grouping.py:32-74 | on success every pair is a start and an end code of one pass, no code is in two pairs, and every code with a same-row, same-side partner is paired |
| RowGrouping.InnerTurn | src/util/grouping.py:43-69 | one turn of the inner loop is `InnerStep` on the `paired_codes` array |
| RowGrouping.PairEntry | src/util/grouping.py:42-69 | the inner loop for one code is `InnerFrom` |
| RowGrouping.GroupRowCodesByPassName | src/util/grouping.py:32-74 | the function's result is the scan `PassPairs` |
| RowGrouping.NewRowsFromPairs | src/util/grouping.py:88-103 | every new row comes from a bucket of exactly two codes that orient, holds them as start and end code, and has no direction and no segments |
| RowGrouping.NewRowsStep | src/util/grouping.py:90-102 | one more bucket adds its row, if any, after the rows so far |
| RowGrouping.CreateRow | src/util/grouping.py:91-102 | one bucket's row is `BucketRow` |
| RowGrouping.CreateRows | src/util/grouping.py:88-103 | the registry gains exactly the rows `NewRows` lists, visiting the buckets in the given key order |
| RowGrouping.RangeMembers | src/util/grouping.py:115-123 | a `range` with step 4 holds the numbers in bounds with the start's remainder modulo 4 |
| RowGrouping.TableMembers | src/util/grouping.py:114-126 | a row number is up or back by its remainder modulo 4 within its section |
| RowGrouping.UpBackRowNumbers | src/util/grouping.py:105-128 | the hard-coded field's up and back tables; `UpBackPartition` and `UpBackTablesValid` state what they hold |
| RowGrouping.UpBackPartition | src/util/grouping.py:105-128 | the generated tables are disjoint and together hold exactly the rows 1 to 58 |
| RowGrouping.UpBackTablesValid | src/util/grouping.py:130-153 | the tables (the same from both generators) are disjoint, cover 1 to 58, end the back table at 58 and hold 22 and 23 in the up table |
| RowGrouping.VerifyUpBackRowNumbers | src/util/grouping.py:155-169 | passes exactly when the tables are disjoint, the back table ends at 58 and 22 and 23 are up; an empty back table is an IndexError |
| RowGrouping.UpBackTablesVerify | src/util/grouping.py:155-169 | the generated tables pass their own check |
| RowGrouping.DirectionOf | src/util/grouping.py:173-179 | 'up' exactly for an up number, 'back' for a back number that is not up, none for a number in neither table |
| RowGrouping.Directions | src/util/grouping.py:171-179 | the rows keep their count and every field but `direction`; `DirectionsExit` and `DirectionsResult` state the exit and the directions set |
| RowGrouping.DirectionsExit | src/util/grouping.py:171-179 | the loop exits with `sys.exit(1)` exactly when some row's number is in neither table |
| RowGrouping.DirectionsResult | src/util/grouping.py:171-179 | without an exit each listed row is 'up' when its number is up and 'back' otherwise; no other row changes |
| RowGrouping.AssignRowsADirection | src/util/grouping.py:171-179 | the method leaves the rows and outcome `Directions` describes |
| RowGrouping.AssignPassRowsValues | src/util/grouping.py:200-206 | both codes of a pass get `assigned_row` 2p - 1, plus 1 exactly when the bump applies |
| RowGrouping.AssignPassRowsFrame | src/util/grouping.py:200-206 | only the two codes' `assigned_row` changes |
| RowGrouping.PassStepRows | src/util/grouping.py:185-198 | a pass step appends at most one row, and without error exactly one, oriented from its pair |
| RowGrouping.PassFoldExtends | src/util/grouping.py:185-206 | the pass loop only appends rows after the old ones |
| RowGrouping.PassFoldRows | src/util/grouping.py:185-206 | without error the loop makes one row per pair, in order, 'up' exactly when the pass start code is the field start code |
| RowGrouping.CollectPasses | src/util/grouping.py:208-217 | the passes in key order, and `sys.exit(-1)` exactly when some pass holds more than two rows |
| RowGrouping.SortedPassNumbers | src/util/grouping.py:209 | every pass number once, in strictly ascending order |
| RowGrouping.PassStepAssignedRows | src/util/grouping.py:185-206 | after a step both codes' `assigned_row` is 2p - 1, plus 1 exactly for side r going up or side l going back |
| RowGrouping.AssignPassCodeRows | src/util/grouping.py:200-206 | the registry's codes get the values `AssignPassRows` gives |
| RowGrouping.CollectPassRows | src/util/grouping.py:208-217 | the loop over the sorted pass numbers computes `CollectPasses` |
| RowGrouping.PassPairStep | src/util/grouping.py:185-206 | one turn of the pass loop in the registry is `PassStep` |
| RowGrouping.CreateRowsAndFieldPassesByPassCodes | src/util/grouping.py:181-221 | the registry's items and rows, and the rows and passes returned, are those of the pass loop `PassFold` followed by `Passes` |
| RowGrouping.RowDistance | src/util/grouping.py:231-234 | the distance is the absolute lateral offset, and None exactly for a zero-length row |
| RowGrouping.Closest | src/util/grouping.py:227-238 | a row found is one of the rows; `ClosestIsFirstMinimum` states which |
| RowGrouping.ClosestIsFirstMinimum | src/util/grouping.py:227-238 | the scan fails exactly at a zero-length row; otherwise it picks the first row of least distance, or none when every distance is at least the float maximum |
| RowGrouping.ProjectCodeRow | src/util/grouping.py:239-246 | a code is kept exactly when a nearest row exists within 3, and its `row` then reads that row's number, otherwise -1 |
| RowGrouping.ProjectionsKeepOrder | src/util/grouping.py:223-249 | the kept codes appear in input order |
| RowGrouping.ScanRows | src/util/grouping.py:230-238 | the inner loop over the rows computes `Closest` |
| RowGrouping.ProjectOne | src/util/grouping.py:225-247 | one code of the outer loop is `ProjectCode` |
| RowGrouping.CalculateProjectionToNearestRow | src/util/grouping.py:223-249 | the registry's items and the result are those of `Projections` |
| GroupingSegments.CodesInRow | src/util/grouping.py:256 | exactly the projected codes whose `row` is the row's number, in input order |
| GroupingSegments.PseudoCode | src/util/grouping.py:259-260 | the pseudo code is a group code named PS or PE and the row number, at the row code's position and zone |
| GroupingSegments.ByProjectionSorted | src/util/grouping.py:265-266 | the codes come out as a permutation sorted by projection, equal projections in input order |
| GroupingSegments.ChainOfShape | src/util/grouping.py:264-269 | the chain runs from the start code through the codes by projection to the end code, and backwards on a 'back' row |
| GroupingSegments.RowChainShape | src/util/grouping.py:256-269 | a row's chain runs through its codes, or through the two new pseudo codes when it has none |
| GroupingSegments.LinkChainSegments | src/util/grouping.py:271-272 | segment k of a chain runs from its k-th code to the next; the first starts and the last ends the chain |
| GroupingSegments.LinkChainConsecutive | src/util/grouping.py:271-272 | each segment's end code is the next segment's start code |
| GroupingSegments.LinkChainRecords | src/util/grouping.py:271-272 | the existing segments stay, and the new ones follow the chain |
| GroupingSegments.LinkChainRows | src/util/grouping.py:271-273 | the row gains the new segments at the end of its list; no other row changes |
| GroupingSegments.LinkChainLists | src/util/grouping.py:271-277 | the new segments are filed in chain order, as special exactly when they start at a single code (the reading of `is_special` given under Left out) |
| GroupingSegments.LinksCount | src/util/grouping.py:274-277 | every segment goes to exactly one of the two lists |
| GroupingSegments.LinksMembers | src/util/grouping.py:274-277 | a segment is special exactly when it starts at a single code (the reading of `is_special` given under Left out) |
| GroupingSegments.RowSegmentsCount | src/util/grouping.py:257-277 | a row with k codes gets k + 1 segments, and a row with none gets two pseudo codes and 3 segments |
| GroupingSegments.CreateSegmentsStep | src/util/grouping.py:255-277 | one more row of the loop is one more `RowSegments` |
| GroupingSegments.AddPseudoCodes | src/util/grouping.py:257-261 | the two pseudo codes are appended to the arena |
| GroupingSegments.PrepareRow | src/util/grouping.py:256-269 | the row's codes in segment order are `RowChain` |
| GroupingSegments.LinkRow | src/util/grouping.py:271-277 | the segments appended and filed are `LinkChain` |
| GroupingSegments.SegmentRow | src/util/grouping.py:256-277 | one row's work is `RowSegments` |
| GroupingSegments.CreateSegments | src/util/grouping.py:251-279 | with `row.segments` read as `group_segments` and `is_special` as a single-code start, the registry and the two lists are `CreateSegmentsFold` over the rows |
| GroupingSegments.CreateSegmentsAsWritten | src/util/grouping.py:251-279 | as written the first append raises AttributeError; only an empty row list returns |
| GroupingGroups.ClassOf | src/util/grouping.py:288-297 | middle when both codes are row codes, start or end when one is, single when neither |
| GroupingGroups.BucketsPartition | src/util/grouping.py:281-299 | the four lists together hold each segment as often as the input does, each in its own class |
| GroupingGroups.BucketOrdered | src/util/grouping.py:287-297 | each list keeps input order |
| GroupingGroups.OneClass | src/util/grouping.py:288-297 | each segment falls in exactly one class |
| GroupingGroups.OrganizeGroupSegments | src/util/grouping.py:281-299 | the four lists returned are the four classes of the input, each in input order |
| GroupingGroups.FirstPassIndex | src/util/grouping.py:312-315 | `field_passes.index(field_pass)` finds the first pass holding the row again |
| GroupingGroups.PairEndPasses | src/util/grouping.py:306-326 | an end segment is skipped when no pass holds its row or the next pass has fewer than two rows, and demoted when its pass is the last |
| GroupingGroups.PairEndMatched | src/util/grouping.py:328-347 | a match joins the end segment to the first segment of the other-direction row of the next pass that has segments; same direction or no segments demotes |
| GroupingGroups.JoinFrame | src/data/field_grouping.py:82-84 | joining a group changes no row number, no segment's codes and none of the three lists |
| GroupingGroups.PairGroups | src/util/grouping.py:347-351 | a pair is one new group holding the end segment and then the matched segment |
| GroupingGroups.CompleteStepEffect | src/util/grouping.py:304-351 | a match appends the group [e, partner]; a demotion moves e from the end to the single segments; a skip changes nothing |
| GroupingGroups.CompleteFoldGroups | src/util/grouping.py:301-353 | only groups of two segments are made, the first an end segment, each recorded in turn |
| GroupingGroups.CompleteFoldMoves | src/util/grouping.py:315-345 | every demoted segment leaves the end segments once and is appended to the single segments |
| GroupingGroups.CompleteLoopDecision | src/util/grouping.py:304-347 | the decision read off the arena at each iteration is the precomputed one |
| GroupingGroups.CompleteOne | src/util/grouping.py:304-351 | one iteration is `CompleteStep` |
| GroupingGroups.CompleteGroups | src/util/grouping.py:301-353 | the groups made and the two lists left are `CompleteFold` over the end segments |
| GroupingGroups.SingleGroups | src/util/grouping.py:356-359 | one single segment is one new group holding it alone |
| GroupingGroups.SingleFoldGroups | src/util/grouping.py:355-359 | existing groups stay, and one group per single segment is appended, in order |
| GroupingGroups.SingleFoldMembership | src/util/grouping.py:355-359 | distinct single segments each end in the group made for them |
| GroupingGroups.HandleSingleSegments | src/util/grouping.py:355-359 | the registry after the loop is `SingleFold` |
| GroupingGroups.MatchingFirst | src/util/grouping.py:365-370 | the listing used is the first with the name, and none exactly when no listing has it |
| GroupingGroups.AlternateIds | src/util/grouping.py:372-373 | the arena after the alternate ids are written keeps its length and reference lists |
| GroupingGroups.AlternateIdsFrame | src/util/grouping.py:372-373 | writing alternate ids changes nothing about an item but its alternate id |
| GroupingGroups.AlternateIdsOff | src/util/grouping.py:372-373 | without alternate ids the items stay as they were |
| GroupingGroups.Completed | src/util/grouping.py:363-365 | the number of groups handled is at most the number of groups |
| GroupingGroups.CompletedStops | src/util/grouping.py:363-365 | the loop stops at the first group without segments |
| GroupingGroups.ListedMeans | src/util/grouping.py:363-371 | a group takes the plant count of the first listing with its start code's name, and keeps its own when there is none |
| GroupingGroups.ApplyListing | src/util/grouping.py:363-373 | one group: IndexError without segments, otherwise its listing applied |
| GroupingGroups.ApplyCodeListings | src/util/grouping.py:361-373 | fails with IndexError exactly when a group has no segments; the groups before it get their listings |
| PlantLocalization.AtLeastOne | src/util/plant_localization.py:49-50 | `max(1, v)` is at least 1 and at least v |
| PlantLocalization.StepsCount | src/util/plant_localization.py:210-216 | n positions ending at or below the bound, the next beyond it, are exactly the step count |
| PlantLocalization.SteppedIsExpected | src/util/plant_localization.py:210-216 | a stepped run from the first position that stops just before the bound is the expected list |
| PlantLocalization.StepPositions | src/util/plant_localization.py:210-216 | the loop returns the expected positions |
| PlantLocalization.ExpectedLoopAsWritten | src/util/plant_localization.py:210-216 | the loop as written, for any spacing, within a turn budget |
| PlantLocalization.ExpectedLoopNeverStops | src/util/plant_localization.py:212-216 | with plant spacing <= 0 and start <= bound, the loop never reaches `break` |
| PlantLocalization.Expected | src/util/plant_localization.py:193-218 | as many positions as the step count; `ExpectedProperties` states where they start, how they rise and where they stop |
| PlantLocalization.ExpectedProperties | src/util/plant_localization.py:193-218 | empty exactly when the start offset is beyond the end bound; otherwise it starts there, rises by one spacing, stays at or below the bound and the next step passes it |
| PlantLocalization.ExpectedExample | src/util/plant_localization.py:193-218 | code spacing 0.3, plant spacing 0.6 and 3.6 between two codes give 0.3, 0.9, ..., 3.3 |
| PlantLocalization.LateralPenalty | src/util/plant_localization.py:220-237 | `calculate_lateral_penalty`, the two linear ramps and NaN beyond 0.15; `LateralPenaltyShape` states its shape |
| PlantLocalization.LateralPenaltyShape | src/util/plant_localization.py:220-237 | ignores the sign, NaN exactly beyond 0.15, within [0, 1], 0.1 at 0.076 and 1 at 0.15 |
| PlantLocalization.SmallestError | src/util/plant_localization.py:242 | the smallest distance is a distance to some expected position and no larger than any |
| PlantLocalization.ProjectionPenalty | src/util/plant_localization.py:239-257 | `calculate_projection_penalty` from the distance to the nearest expected position; `ProjectionPenaltyBounds` states its range |
| PlantLocalization.ProjectionPenaltyBounds | src/util/plant_localization.py:239-257 | always in [0, 1], never NaN, and 1 beyond half a plant spacing |
| PlantLocalization.ClosenessPenalty | src/util/plant_localization.py:259-268 | `calculate_closeness_penalty`, 0, 1 or NaN by distance along the part; `ClosenessMonotone` states that it only grows |
| PlantLocalization.ClosenessMonotone | src/util/plant_localization.py:259-268 | never drops further along the part, and once NaN stays NaN |
| PlantLocalization.Confidence | src/util/plant_localization.py:270-283 | `calculate_plant_part_confidence`; `ConfidenceValues` states which values it takes and that it is at least 1 |
| PlantLocalization.ConfidenceValues | src/util/plant_localization.py:270-283 | one of 1, stick, leaf or their product, and at least 1 with clamped multipliers |
| PlantLocalization.Penalty | src/util/plant_localization.py:127-139 | the penalty written into each candidate, both lateral and projection terms scaled by the lateral scale; `PenaltyNaN` states when it is NaN |
| PlantLocalization.PenaltyNaN | src/util/plant_localization.py:125-140 | a penalty is NaN exactly for a candidate more than 0.15 off the line or 3.5 spacings along it |
| PlantLocalization.MostLikely | src/util/plant_localization.py:141-154 | the plant `find_most_likely_plant` returns; `MostLikelyMeans` states which candidate it is |
| PlantLocalization.MostLikelyMeans | src/util/plant_localization.py:125-158 | None exactly when every penalty is NaN; otherwise the first candidate of least penalty |
| PlantLocalization.CreateClosestOnLine | src/util/plant_localization.py:116-123 | the created plant sits on the part's line at the first expected position, at the start's height |
| PlantLocalization.Annotated | src/util/plant_localization.py:171-174 | writing the distances keeps the candidates and their count |
| PlantLocalization.AnnotatedMeans | src/util/plant_localization.py:167-177 | fails exactly for candidates on a zero-length part; otherwise each candidate carries its lateral offset and projection |
| PlantLocalization.FilterByPart | src/util/plant_localization.py:167-191 | `filter_plants_by_segment_part`: the annotated candidates within the part's bounds; `AnnotatedMeans`, `WithinMeans` and `WithinAppend` state which they are and in what order |
| PlantLocalization.Within | src/util/plant_localization.py:189 | never more candidates than given; membership and order are stated by `WithinMeans` and `WithinAppend` |
| PlantLocalization.WithinMeans | src/util/plant_localization.py:179-191 | a candidate is kept exactly when it is one of the input and projected inside the bounds |
| PlantLocalization.WithinAppend | src/util/plant_localization.py:179-191 | filtering `a + b` is filtering `a` followed by filtering `b`: survivors keep their input order |
| PlantLocalization.Before | src/util/plant_localization.py:162 | every candidate kept is projected before the threshold |
| PlantLocalization.After | src/util/plant_localization.py:163 | every candidate kept is projected at or after the threshold |
| PlantLocalization.SplitPartition | src/util/plant_localization.py:160-165 | together the two lists are the candidates as a multiset; one side is projected before the threshold, the other at or after it |
| PlantLocalization.BeforeAfterAppend | src/util/plant_localization.py:160-165 | splitting `a + b` gives the halves of `a` followed by those of `b` on each side: both halves keep input order |
| PlantLocalization.Select | src/util/plant_localization.py:95-105 | a created plant when no candidate is left or none scores, else the most likely candidate |
| PlantLocalization.Process | src/util/plant_localization.py:84-114 | `process_segment_part`; `ProcessShape` states when it splits and what the halves are |
| PlantLocalization.ProcessShape | src/util/plant_localization.py:84-114 | no split exactly when no plant fits; otherwise two halves from start to the plant and from the plant to the end |
| PlantLocalization.ProcessFnSplitsAtPlant | src/util/plant_localization.py:84-114 | `process_segment_part` only ever splits a part into two halves meeting at a plant |
| PlantLocalization.SplitParts | src/util/plant_localization.py:70-82 | `split_into_subparts` with `process_segment_part` as the step; `SplitChain` states the leaves it produces |
| PlantLocalization.SplitChain | src/util/plant_localization.py:70-82 | on success the leaves chain from the part's start to its end, and every split increments one counter |
| PlantLocalization.PlantStarts | src/util/plant_localization.py:59-64 | the leaves' starts that are plants, a sub-list of all starts |
| PlantLocalization.LocatedBetweenCodes | src/util/plant_localization.py:52-68 | for a segment between two codes the assertion holds, and the plants are the starts of all leaves but the first |
| PlantLocalization.CountTotal | src/util/plant_localization.py:84-158 | each split increments exactly one of the three counters |
| PlantLocalization.CollectPlantStarts | src/util/plant_localization.py:59-64 | the loop collects `PlantStarts` |
| PlantLocalization.RecursiveSplitPlantFilter.constructor | src/util/plant_localization.py:32-50 | closest spacings are half the expected ones, multipliers at least 1, counters 0 |
| PlantLocalization.RecursiveSplitPlantFilter.CalculateExpectedPositions | src/util/plant_localization.py:193-218 | returns the expected positions for the part's end kinds |
| PlantLocalization.RecursiveSplitPlantFilter.FindMostLikelyPlant | src/util/plant_localization.py:125-158 | returns `MostLikely` and counts a plant found |
| PlantLocalization.RecursiveSplitPlantFilter.ProcessSegmentPart | src/util/plant_localization.py:84-114 | returns `Process` and increments the counter of its outcome |
| PlantLocalization.RecursiveSplitPlantFilter.SelectPlant | src/util/plant_localization.py:95-105 | returns `Select` and increments the counter of its outcome |
| PlantLocalization.RecursiveSplitPlantFilter.SplitIntoSubparts | src/util/plant_localization.py:70-82 | returns `SplitParts` within the recursion depth |
| PlantLocalization.RecursiveSplitPlantFilter.SplitHalves | src/util/plant_localization.py:79-80 | both recursive calls, the second only when the first succeeds |
| PlantLocalization.RecursiveSplitPlantFilter.LocateActualPlantsInSegment | src/util/plant_localization.py:52-68 | the plants found are the plant starts of the leaves |
| PlantLocalization.SingleClosenessPenalty | src/util/plant_localization.py:323-330 | NaN exactly from the distance limit on, otherwise a value in [0, 1) |
| PlantLocalization.NumItemsPenalty | src/util/plant_localization.py:332-346 | 0.5 below three items and 0 from three on; fewer than two items also give 0.5, because the second test overwrites the penalty 1 |
| PlantLocalization.NumItemsPenaltyMonotone | src/util/plant_localization.py:332-346 | more items never raise the penalty |
| PlantLocalization.FindActual | src/util/plant_localization.py:294-321 | `find_actual_plant`, KeyError for a candidate without `items`; `FindActualMeans` states which plant it returns |
| PlantLocalization.FindActualMeans | src/util/plant_localization.py:294-321 | falls back to the code's position with no rectangle exactly when no candidate is strictly within the limit; otherwise the first best candidate |
| PlantLocalization.ClosestSinglePlantFilter.constructor | src/util/plant_localization.py:287-292 | the limit is stored and both counters are 0 |
| PlantLocalization.ClosestSinglePlantFilter.FindActualPlant | src/util/plant_localization.py:294-321 | returns `FindActual` and counts a plant found among the candidates |
| Sorting.SortBy | src/util/grouping.py:125-126 | `sorted(s, key=k)`: a permutation of the input, ascending by key |
| Sorting.SortByStable | src/util/grouping.py:125-126 | the sort is stable: the elements of each key keep their input order |
| Sorting.SortByDescending | src/processing/item_processing.py:65 | `sorted(s, key=k, reverse=True)`: a permutation of the input, descending by key |
| Sorting.SortByDescendingStable | src/processing/item_processing.py:65 | the descending sort is stable too |
| Sorting.BestIsFirstBest | src/util/plant_localization.py:142-147 | `sorted(valid, key=penalty)[0]`: None exactly when every penalty is NaN, otherwise the first of least penalty |
| Clustering.AllCorners | src/util/clustering.py:47-48 | the corners of all rectangles, one after another |
| Clustering.MergeCornerRectangles | src/util/clustering.py:41-55 | a box exactly when there is a corner; `min` of nothing is ValueError |
| Clustering.MergeCornerRectanglesBounds | src/util/clustering.py:41-55 | every input corner lies in the box, and each side touches some corner |
| Clustering.MergeCornerRectanglesCommutative | src/util/clustering.py:41-55 | the order of the two rectangles does not matter |
| Clustering.MergeCornerRectanglesIdempotent | src/util/clustering.py:41-55 | merging a merged box alone gives it back |
| Clustering.CornerRectangleSize | src/util/clustering.py:77-88 | width and height are non-negative; no corners is ValueError |
| Clustering.MergedAtLeastAsLarge | src/util/clustering.py:77-94 | the merged box is at least as wide and as high as each input |
| Clustering.Mean | src/util/clustering.py:72-73 | `np.mean`: a value exactly for a non-empty list |
| Clustering.MeanWithin | src/util/clustering.py:72-73 | the mean of a non-empty list lies between its minimum and maximum |
| Clustering.CornerRectCenter | src/util/clustering.py:69-75 | None exactly for a rectangle without corners |
| Clustering.CornerRectCenterInside | src/util/clustering.py:69-75 | the centre lies inside the bounding box |
| Clustering.DistanceBetweenCornerRects | src/util/clustering.py:57-67 | None exactly when a rectangle has no corners |
| Clustering.DistanceSymmetric | src/util/clustering.py:57-67 | the distance does not depend on the order |
| Clustering.DistanceZero | src/util/clustering.py:57-67 | a rectangle is at distance 0 from itself and distances are non-negative |
| Clustering.MergeClusters | src/util/clustering.py:90-94 | the members are c1's then c2's, so the leaf count adds up; no corners at all is ValueError |
| Clustering.Closest | src/util/clustering.py:105-115 | the pair found is two different clusters |
| Clustering.ClosestMeans | src/util/clustering.py:105-118 | starting from the maximum float: None exactly when no pair has a distance below it; otherwise a pair at the least distance, below the maximum float, with no earlier pair as close |
| Clustering.ClosestOfFewer | src/util/clustering.py:105-118 | fewer than two clusters leave no pair |
| Clustering.ClosestPair | src/util/clustering.py:105-115 | the double loop computes `Closest` |
| Clustering.MergeStep | src/util/clustering.py:126-128 | one accepted merge lowers the cluster count by one |
| Clustering.MergeStepLeaves | src/util/clustering.py:120-128 | a merge keeps the total number of items |
| Clustering.MergeStepMembers | src/util/clustering.py:126-128 | every cluster after a merge was there before or is the merged one |
| Clustering.ClusterRectangleItems | src/util/clustering.py:96-130 | keeps the number of items, never has more clusters than items, every new cluster fits `max_size / 100`, and stops only when no pair is left or the closest pair's merge would be too large |
| Numbering.RowItemListShape | src/util/numbering.py:22-27 | a row's list starts at its first segment's start code, ends at its last segment's end code, and holds each start code and the items of every segment |
| Numbering.RowItems | src/util/numbering.py:22-27 | the segment loop builds `RowItemList` |
| Numbering.OrientedCases | src/util/numbering.py:29-35 | an even 'back' row keeps its order; an odd 'back' row or even other row is reversed once |
| Numbering.VisitOrderFacts | src/util/numbering.py:17 | the walk visits each given row once, in ascending row number |
| Numbering.VisitOrderStable | src/util/numbering.py:17 | rows sharing a number are walked in the order given |
| Numbering.Numbered | src/util/numbering.py:38-39 | the two number setters keep the arena's length and every item's reference list |
| Numbering.NumberedEffect | src/util/numbering.py:38-39 | the item reads back both numbers and an item it does not touch is unchanged |
| Numbering.NumberItem | src/util/numbering.py:38-39 | one iteration leaves `Numbered` |
| Numbering.NumberRowItems | src/util/numbering.py:37-41 | the loop of one row numbers it as `NumberRow` says and appends its items |
| Numbering.NumberOneRow | src/util/numbering.py:21-41 | one pass of the outer loop builds, turns and numbers one row's list |
| Numbering.NumberVisits | src/util/numbering.py:21-42 | the outer loop numbers the sorted rows as `NumberRows` says |
| Numbering.NumberSerpentine | src/util/numbering.py:14-43 | returns the turned row lists in visiting order, and the arena is `NumberRows` of them from 1 |
| Numbering.NumberRowsEffect | src/util/numbering.py:19-41 | for distinct, untangled items the k-th item of the walk reads field number start + k and its position in its row plus 1 |
| Overlap.Max4 | src/util/overlap.py:13-14 | `max` of four values is an upper bound that is one of them |
| Overlap.Min4 | src/util/overlap.py:15-16 | `min` of four values is a lower bound that is one of them |
| Overlap.IsOverlappingSegment | src/util/overlap.py:3-9 | `is_overlapping_segment`; `IsOverlappingSegmentSymmetric`, `TouchingDoNotOverlap` and `IsOverlappingSegmentMeans` state its meaning |
| Overlap.IsOverlappingSegmentSymmetric | src/util/overlap.py:3-9 | the test does not depend on which box is the image |
| Overlap.TouchingDoNotOverlap | src/util/overlap.py:3-9 | boxes that only share an edge do not overlap |
| Overlap.IsOverlappingSegmentMeans | src/util/overlap.py:3-9 | proper boxes overlap exactly when some point lies strictly inside both |
| Overlap.ImageEwns | src/util/overlap.py:11-21 | east >= west, north >= south, and all four corners lie in the box |
| Overlap.ImageEwnsTight | src/util/overlap.py:11-21 | every side of the box touches a corner |
| Overlap.SegmentEwns | src/util/overlap.py:23-33 | `calculate_segment_ewns`; `SegmentEwnsProperties` states the box it gives |
| Overlap.SegmentEwnsProperties | src/util/overlap.py:23-33 | with pad >= 0 the box holds both codes and is \|dx\| + 2 pad wide and \|dy\| + 2 pad high |
| Overlap.SpecialSegmentEwns | src/util/overlap.py:35-45 | `calculate_special_segment_ewns`; `SpecialSegmentEwnsProperties` states the box it gives |
| Overlap.SpecialSegmentEwnsProperties | src/util/overlap.py:35-45 | a square of side 2 pad centred on the start code, the box of a zero-length segment |
| CodeFinder.Rewritten | src/extraction/code_finder.py:151-154 | only 'K000736' is rewritten, to '736' |
| CodeFinder.CreateQrCode | src/extraction/code_finder.py:148-170 | empty data is IndexError; a result carries the rectangle and the (rewritten) data as name |
| CodeFinder.MisprintIsGroupCode | src/extraction/code_finder.py:153-162 | 'K000736' becomes the group code '736' |
| CodeFinder.LeadingKIsSingleCode | src/extraction/code_finder.py:156-157 | a leading k or K gives a single code, whatever follows |
| CodeFinder.RowSuffixIsRowCode | src/extraction/code_finder.py:158-160 | otherwise 'st' or 'en' before the last character gives a row code numbered by the first three characters, or ValueError |
| CodeFinder.DigitsIsGroupCode | src/extraction/code_finder.py:161-164 | otherwise digits alone give a group code, and anything else None |
| CodeFinder.GroupCodeIds | src/extraction/code_finder.py:161-162 | a group code from a QR code reads its text back as `id` and `alternate_id` |
| ItemExtraction.SizeFiltered | src/extraction/item_extraction.py:71-92 | the rectangles `filter_by_size` keeps; `SizeFilteredMembers` and `EnforcingKeepsSubList` state which, and `FilterBySize` computes it |
| ItemExtraction.FilterBySize | src/extraction/item_extraction.py:71-92 | the loop keeps the rectangles that pass the size test, in order |
| ItemExtraction.SizeFilteredMembers | src/extraction/item_extraction.py:77-89 | a rectangle is kept exactly when both sides are at most the maximum and the minimum test passes |
| ItemExtraction.EnforcingKeepsSubList | src/extraction/item_extraction.py:82-89 | the enforcing mode keeps the lenient result minus the rectangles whose shorter side is too small |
| ItemExtraction.Trunc | src/extraction/item_extraction.py:107-110 | `int()` truncates toward zero |
| ItemExtraction.AtLeast | src/extraction/item_extraction.py:107-109 | a lower crop bound is at least 1 |
| ItemExtraction.AtMost | src/extraction/item_extraction.py:108-110 | an upper crop bound is at most the image size minus 1 |
| ItemExtraction.ClampsMonotone | src/extraction/item_extraction.py:106-110 | both clamped bounds follow their argument |
| ItemExtraction.CropWindow | src/extraction/item_extraction.py:94-112 | top >= 1, left >= 1, bottom <= h - 1 and right <= w - 1 |
| ItemExtraction.CropWindowGrowsWithPad | src/extraction/item_extraction.py:106-110 | a larger pad gives a window containing the smaller one's |
| ItemExtraction.TouchesImageBorder | src/extraction/item_extraction.py:60-69 | `touches_image_border` for an upright rectangle; `UntouchedCropIsExact` states what a rectangle clear of the border guarantees |
| ItemExtraction.UntouchedCropIsExact | src/extraction/item_extraction.py:60-112 | with no pad, a whole-pixel rectangle that does not touch the border is cropped along its own corners |
| ImageUtils.SplitExt | src/util/image_utils.py:23 | `os.path.splitext`: root and extension together are the path; `SplitExtShape` states the extension's form |
| ImageUtils.SplitExtShape | src/util/image_utils.py:23 | an extension is empty or a dot followed by no dots or slashes |
| ImageUtils.PostfixFilename | src/util/image_utils.py:21-25 | the result is longer by exactly the postfix, and an empty postfix gives the name back |
| ImageUtils.PostfixNoExtension | src/util/image_utils.py:21-25 | without an extension the postfix extends the name |
| ImageUtils.PostfixFilenameSplits | src/util/image_utils.py:21-25 | a postfix without dots or slashes joins the name and the extension is kept |
| ImageUtils.JoinSplit | src/util/image_utils.py:36-39 | joining the pieces of a split gives the string back |
| ImageUtils.SplitJoin | src/util/image_utils.py:36-39 | splitting a join of separator-free pieces gives the pieces back |
| ImageUtils.CandidateInjective | src/util/image_utils.py:36-41 | different numbers give different candidate names |
| ImageUtils.NextOfOriginal | src/util/image_utils.py:40-41 | a name without a numeric last piece moves to original + '_1' |
| ImageUtils.NextOfCandidate | src/util/image_utils.py:36-39 | a candidate moves to the next number |
| ImageUtils.OriginalNotCandidate | src/util/image_utils.py:36-41 | no candidate is the original name |
| ImageUtils.SearchDone | src/util/image_utils.py:33-41 | when the search stops, every candidate before it was taken |
| ImageUtils.MakeFilenameUnique | src/util/image_utils.py:27-43 | an unused name comes back unchanged; otherwise the first unused candidate, never one of the stems |
| ImageUtils.Renamed | src/util/image_utils.py:53-55 | the new name is stem + '.' + extension without its dot |
| ImageUtils.MatchOneAt | src/util/image_utils.py:51-59 | one image is renamed after the first file with its stem, or counted missing |
| ImageUtils.MatchedPlusMissing | src/util/image_utils.py:45-61 | matched plus missing is the input count |
| ImageUtils.MatchedFromInput | src/util/image_utils.py:45-61 | a matched image is an input image with a file, renamed, and nothing else changes |
| ImageUtils.VerifyGeoImages | src/util/image_utils.py:45-61 | the loop returns the matched images in input order and the missing count |
| ImageUtils.IndexContainingSubstring | src/util/image_utils.py:63-67 | -1 exactly when no string contains the substring, else the smallest such index |
| ImageUtils.RectangleCenter | src/util/image_utils.py:79-86 | the stored centre of a rotated rectangle, (x + w/2, y + h/2) of an upright one |
| ImageUtils.RectangleCorners | src/util/image_utils.py:88-95 | an upright rectangle's corners are (x, y, x + w, y + h) |
| ImageUtils.CenterIsMidpoint | src/util/image_utils.py:79-95 | the centre of an upright rectangle is the midpoint of its two corners |
| DbConverter.SplitsAtUnique | src/processing/db_converter.py:11-18 | at most one index splits a sorted list at x |
| DbConverter.FindLessThanOrEqual | src/processing/db_converter.py:11-18 | on a sorted list, the rightmost index with a[i] <= x: len - 1 when x is at least every element, -1 when below all |
| Stage2Analysis.GroupListings | src/analysis/stage2_output_analysis.py:18-19 | each id's list holds its listings in input order |
| Stage2Analysis.MakeCodeListingsUnique | src/analysis/stage2_output_analysis.py:14-32 | one listing per id with one or two listings, its first; ids with more are dropped; the ids are distinct |
| Stage2Analysis.UniqueListingsFromInput | src/analysis/stage2_output_analysis.py:14-32 | every entry of the result is one of the listings |
| Stage2Analysis.UniqueListingsDetermined | src/analysis/stage2_output_analysis.py:20-31 | the result holds the same listings whatever order the ids are visited in |
| Stage2Analysis.UniqueListingsDropCrowded | src/analysis/stage2_output_analysis.py:21-22 | an id listed more than twice is dropped |
| Stage2Analysis.CodeNumbers | src/analysis/stage2_output_analysis.py:112 | None as soon as one id without its first character does not parse |
| Stage2Analysis.MaxNumber | src/analysis/stage2_output_analysis.py:114 | the largest number, one of the list |
| Stage2Analysis.MissingUpToSpec | src/analysis/stage2_output_analysis.py:115-117 | the missing numbers are, in increasing order, exactly those from 1 to the maximum not found |
| Stage2Analysis.MissingSingleCodes | src/analysis/stage2_output_analysis.py:110-121 | no ids is ValueError, an unparsable id is ValueError, otherwise the missing numbers |
| Stage2Analysis.GroupLengthClass | src/analysis/stage2_output_analysis.py:72-101 | the class `warn_about_bad_group_lengths` gives one group; `GroupLengthClassOneSegment` states the one-segment classes |
| Stage2Analysis.GroupLengthClassOneSegment | src/analysis/stage2_output_analysis.py:76-101 | a one-segment group is too long above 1.3 x, too short below 0.7 x, never both |
| Stage2Analysis.CountPartition | src/analysis/stage2_output_analysis.py:64-108 | the five class counts add up to the number of groups |
| Stage2Analysis.CheckGroupLength | src/analysis/stage2_output_analysis.py:72-101 | the class reported for one group |
| Stage2Analysis.TallyGroup | src/analysis/stage2_output_analysis.py:70-101 | one turn raises the counter of the group's class |
| Stage2Analysis.WarnAboutBadGroupLengths | src/analysis/stage2_output_analysis.py:64-108 | counts groups without a plant count, too long and too short; multi-segment groups are never flagged; the good count stays 0 |
| Stage2Analysis.IntendedGroupLengthReport | src/analysis/stage2_output_analysis.py:64-101 | the good count is the one-segment groups within their band |
| Stage2Analysis.GoodLengthsNeverCounted | src/analysis/stage2_output_analysis.py:67 | a one-segment group exactly as long as expected is close, yet the report counts no good length |
| Stage2Analysis.MeasurePair | src/analysis/stage2_output_analysis.py:129-140 | first-plant distance when both segments have items, else the first segment's length |
| Stage2Analysis.TallyPair | src/analysis/stage2_output_analysis.py:127-150 | a pair counts exactly when its length exceeds 1.75 spacings |
| Stage2Analysis.WarnAboutMissingSingleCodeLengths | src/analysis/stage2_output_analysis.py:123-158 | counts the consecutive pairs that are too long |
| Stage2Analysis.CountTooLongMonotone | src/analysis/stage2_output_analysis.py:145-150 | a wider spacing flags no more pairs |

## Left out

- Pixel-level detection with OpenCV and zbar is not part of this model: the scanning methods of `CodeFinder`, the leaf, stick and tag finders, `extract_rotated_image` and `draw_rect`.
- Georeferencing is not part of this model: `calculate_pixel_position`, `calculate_position_pixel`, `calculate_geo_image_corners`, `rect_to_global`, `rect_to_image` and `rotated_to_regular_rect`. So only the upright (non-rotated) paths of `touches_image_border`, `extract_square_image` and `rectangle_corners` are modelled.
- `Row.angle` (src/data/field_grouping.py:21-26) is not modelled: it needs `atan2` and no modelled operation reads it.
- File and directory access, pickling, CSV export, CLI parsing, `process_geo_image`, `list_images`, the pipeline stage scripts and the `__main__` blocks are not part of this model. `make_filename_unique` takes the directory listing and `verify_geo_images` the file names as parameters.
- Every `print` of the core is left out, including the printing-only `display_row_info` and `display_segment_info`. Where a function's only output is printed (the entry/rep count, the length reports), the model returns the counters instead.
- `check_code_precision`, `warn_about_missing_and_extra_group_codes`, src/util/survey.py and the float averaging of the output stage are not modelled; they only print or average floats.
- `sqrt` and `atan2` are parameters: `Geometry.SqrtFn` with the property `IsSqrt`, and `RowGrouping.BearingFn` for the bearing in `orient_items`. Nothing about the bearing beyond its value is assumed.
- Floating point is modelled as exact real arithmetic: no rounding, and NaN is `None`. In particular the repeated additions in `calculate_expected_positions` are exact, so positions that floats would round across the end bound are not captured.
- `FieldItems.Position`: the mean is taken one level deep, over the item's stored position and its references' stored positions. Python's `position` is recursive, so a reference that itself has references would contribute its own mean; the merge only ever attaches items without references, but the model does not exclude deeper chains.
- `FieldItems.Assigned`: a propagating setter reaches the item and its direct references only. Python's setters recurse through the references' own `other_items`, which the model does not follow.
- `Geometry.ProjectionToPosition`: `projection_to_position_2d` is imported by plant_localization.py but defined in no file of the repository. The model defines it as the point at distance d along a->b at the height of `a`, and returns `a` itself when a and b coincide; that zero-length result is a choice of the model.
- `FieldGrouping.Registry.SegmentLength`: a segment's codes are arena indices, so the `None`-code case of `PlantGroupSegment.length` (which returns 0) cannot arise in the model.
- `PlantLocalization.StepPositions`: requires a positive plant spacing, as do the filter's settings (`ValidConfig`). With a spacing of 0 or less the source's loop never ends; see Findings. The case start offset > end bound, which returns an empty list, is still modelled for every spacing by `PlantLocalization.ExpectedLoopAsWritten`.
- `PlantLocalization.RecursiveSplitPlantFilter.SplitIntoSubparts`: Python's recursion limit is modelled as a `depth` parameter; running out of depth is the error `RecursionLimit`.
- `RowGrouping.CreateRows`: the order of `iteritems` over the row buckets is not specified by Python 2, so it is a `keys` parameter; any order of the keys is allowed. The pass numbers of `create_rows_and_field_passes_by_pass_codes` are sorted, as in the source.
- `Stage2Analysis.MakeCodeListingsUnique`: the ids are visited in an arbitrary order; `UniqueListingsDetermined` shows that the listings returned do not depend on it, only their order does.
- `GroupingSegments.CreateSegments`: `PlantGroupSegment` (src/data/field_grouping.py:28-73) defines no `is_special`, so `new_segment.is_special` at src/util/grouping.py:274 would raise AttributeError even with `row.segments` corrected. The model reads a segment as special when it starts at a single code, the meaning the comment at src/util/grouping.py:254 gives; that reading is the model's, not the source's.
- `Numbering.NumberSerpentine`: numbering.py:23 reads `row.segments`, which `Row` does not define; the model reads it as `group_segments`, the list `create_segments` fills. `GroupingSegments.CreateSegmentsAsWritten` models the same attribute literally as an AttributeError (see Findings).
- `ImageUtils.RectangleCenter`: Python 2 divides integers with floor division in `x + w/2`; the model divides exactly, as for float rectangles.
- `PlantLocalization.ClosestSinglePlantFilter.FindActualPlant`: `calculate_num_items_penalty` catches ValueError, which `len(possible_plant['items'])` never raises; a candidate without `items` is a KeyError for the whole call, as in the source.
- `associate_row_numbers_with_up_back_rows_using_code_names` (src/util/grouping.py:130-153) is the same code as the function before it and is modelled once, by `RowGrouping.UpBackRowNumbers`.
- Plant groups of the forward/backward reconciliation and a spacing-smoothing pass are not in the repository and are not modelled.

## Findings

| source | as written | input that shows it | evidently intended | confidence | as-written member | corrected member |
|---|---|---|---|---|---|---|
| src/processing/item_processing.py:179 | `main_item.other_items = []` assigns to a property that has no setter (its setter was bound to `add_other_item`), so it raises AttributeError | any call with at least one merged item | replace the main item's reference list, then clear each further member's list and append it | not executed | ReferenceClusters.ClusterMergedItemsAsWritten | ReferenceClusters.ClusterMergedItems |
| src/util/grouping.py:273 | `row.segments.append(...)` uses an attribute `Row` does not define, so `create_segments` raises AttributeError | any non-empty list of rows | append to the row's `group_segments` list; the next line's `is_special`, also undefined on `PlantGroupSegment`, read as "starts at a single code" | not executed | GroupingSegments.CreateSegmentsAsWritten | GroupingSegments.CreateSegments |
| src/analysis/stage2_output_analysis.py:67 | `num_good_lengths` is never incremented, so the report always prints 0 close lengths | one group of one segment, 3 plants, exactly 3 spacings long | count the one-segment groups within 0.7 to 1.3 times their expected length | not executed | Stage2Analysis.WarnAboutBadGroupLengths | Stage2Analysis.IntendedGroupLengthReport |
| src/util/plant_localization.py:212 | the `while True` loop only breaks once the position passes the end bound, so a plant spacing of 0 or less never ends it | plant spacing 0, part between two codes 1.0 long, code spacing 0.3 | a positive plant spacing, under which the loop stops after finitely many steps | not executed | PlantLocalization.ExpectedLoopNeverStops | PlantLocalization.StepPositions |
