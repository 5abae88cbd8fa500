/** `GeoImage`: an image file with the camera pose at the time it was taken. */
module GeoImages {
  import opened Geometry

  datatype GeoImage = GeoImage(
    fileName: string,
    imageTime: real,
    position: Point,
    zone: string,
    headingDegrees: real,
    resolution: real,
    cameraRotationDegrees: int,
    width: int,
    height: int,
    topLeft: Point,
    topRight: Point,
    bottomRight: Point,
    bottomLeft: Point)

  /** The constructor: the size given as (width, height) and all corners at the origin. */
  function NewGeoImage(fileName: string, imageTime: real, position: Point, zone: string,
                       headingDegrees: real, resolution: real, cameraRotationDegrees: int,
                       size: (int, int)): (r: GeoImage)
    ensures r.fileName == fileName && r.imageTime == imageTime && r.position == position
    ensures (r.width, r.height) == size
    ensures r.topLeft == r.topRight == r.bottomRight == r.bottomLeft == Point(0.0, 0.0, 0.0)
  {
    var o := Point(0.0, 0.0, 0.0);
    GeoImage(fileName, imageTime, position, zone, headingDegrees, resolution,
             cameraRotationDegrees, size.0, size.1, o, o, o, o)
  }
}
