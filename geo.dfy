/** GDAL's affine georeferencing: the six-number geotransform and the pixel-to-map map. */
module Geo {

  /** A GDAL geotransform `gt`, field by field in GDAL's index order:
      GT(0) x of the upper-left corner, GT(1) pixel width, GT(2) row rotation,
      GT(3) y of the upper-left corner, GT(4) column rotation, GT(5) pixel height.
      Coordinates are exact reals: no claim is made about floating-point rounding. */
  datatype GeoTransform = GeoTransform(
    originX: real, pixelWidth: real, rowRotation: real,
    originY: real, columnRotation: real, pixelHeight: real)

  datatype Point = Point(x: real, y: real)

  /** Pixel (col, row) to map coordinates, as GDAL defines the geotransform:
      x = GT(0) + col*GT(1) + row*GT(2),  y = GT(3) + col*GT(4) + row*GT(5). */
  function PixelToMap(gt: GeoTransform, col: real, row: real): Point
  {
    Point(gt.originX + col * gt.pixelWidth + row * gt.rowRotation,
          gt.originY + col * gt.columnRotation + row * gt.pixelHeight)
  }

  /** A north-up raster: no rotation terms, so x depends on the column only and y on the row only. */
  predicate NorthUp(gt: GeoTransform)
  {
    gt.rowRotation == 0.0 && gt.columnRotation == 0.0
  }

  /** The geotransform as the list `gdal.Info(...)['geoTransform']` holds it. */
  function AsList(gt: GeoTransform): (l: seq<real>)
    ensures |l| == 6
  {
    [gt.originX, gt.pixelWidth, gt.rowRotation, gt.originY, gt.columnRotation, gt.pixelHeight]
  }

  /** Exchange the two coordinates of a point. */
  function Swap(p: Point): Point
  {
    Point(p.y, p.x)
  }
}
