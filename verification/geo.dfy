/** The data model shared by the tile indexer and the mosaic reader, and the
    affine geotransform that converts between pixels and geographic
    coordinates (src/gdal/gdal_service.js). */
module Geo {
  import opened Wrappers

  /** GDAL's six-coefficient geotransform, in the order of its array
      `[0] .. [5]`: a pixel (x, y) lies at
      lon = originLon + x * pixelWidth + y * rowRotation and
      lat = originLat + x * columnRotation + y * pixelHeight. */
  datatype GeoTransform = GeoTransform(
    originLon: real, pixelWidth: real, rowRotation: real,
    originLat: real, columnRotation: real, pixelHeight: real)

  /** Size of a raster in pixels: `x` columns, `y` rows. */
  datatype RasterSize = RasterSize(x: int, y: int)

  /** One cell of the origins catalog: the geographic corner of a tile's
      top-left pixel and the tile's raster size. */
  datatype Origin = Origin(lat: real, lon: real, rasterSize: RasterSize)

  /** What an opened raster file offers the core: its transform, its size and
      whether it has pixel bands (a synthetic sea tile has none). */
  datatype Dataset = Dataset(geoTransform: GeoTransform, rasterSize: RasterSize, hasBands: bool)

  /** A (row, column) position in the catalog. */
  datatype Index = Index(i: nat, j: nat)

  /** Fractional pixel coordinates, and rounded ones. */
  datatype Pixel = Pixel(x: real, y: real)
  datatype PixelIndex = PixelIndex(x: int, y: int)

  /** The 2x2 matrix [[a, b], [c, d]]. */
  datatype Square2 = Square2(a: real, b: real, c: real, d: real)

  /** Longitude of pixel (x, y). */
  function TrueLon(x: real, y: real, gt: GeoTransform): (lon: real)
    ensures x == 0.0 && y == 0.0 ==> lon == gt.originLon
  {
    gt.originLon + x * gt.pixelWidth + y * gt.rowRotation
  }

  /** Latitude of pixel (x, y). */
  function TrueLat(x: real, y: real, gt: GeoTransform): (lat: real)
    ensures x == 0.0 && y == 0.0 ==> lat == gt.originLat
  {
    gt.originLat + x * gt.columnRotation + y * gt.pixelHeight
  }

  function Det(m: Square2): (r: real)
  {
    m.a * m.d - m.c * m.b
  }

  /** The linear part of a geotransform, whose determinant decides whether
      it can be inverted. */
  function LinearPart(gt: GeoTransform): Square2
  {
    Square2(gt.pixelWidth, gt.rowRotation, gt.columnRotation, gt.pixelHeight)
  }

  /** Pixel coordinates of a geographic point, by Cramer's rule. A singular
      transform has no inverse: the source then divides by zero and gets
      non-finite numbers, here `None`. */
  function GetPixels(xGeo: real, yGeo: real, gt: GeoTransform): (p: Option<Pixel>)
    ensures p.Some? <==> Det(LinearPart(gt)) != 0.0
    ensures p.Some? ==>
              TrueLon(p.value.x, p.value.y, gt) == xGeo && TrueLat(p.value.x, p.value.y, gt) == yGeo
  {
    var det := Det(LinearPart(gt));
    var detX := Det(Square2(xGeo - gt.originLon, gt.rowRotation, yGeo - gt.originLat, gt.pixelHeight));
    var detY := Det(Square2(gt.pixelWidth, xGeo - gt.originLon, gt.columnRotation, yGeo - gt.originLat));
    if det == 0.0 then None
    else
      var p := Pixel(detX / det, detY / det);
      InverseSolves(xGeo, yGeo, gt, det, detX, detY, p);
      Some(p)
  }

  lemma InverseSolves(xGeo: real, yGeo: real, gt: GeoTransform, det: real, detX: real, detY: real, p: Pixel)
    requires det == Det(LinearPart(gt)) && det != 0.0
    requires detX == Det(Square2(xGeo - gt.originLon, gt.rowRotation, yGeo - gt.originLat, gt.pixelHeight))
    requires detY == Det(Square2(gt.pixelWidth, xGeo - gt.originLon, gt.columnRotation, yGeo - gt.originLat))
    requires p == Pixel(detX / det, detY / det)
    ensures TrueLon(p.x, p.y, gt) == xGeo && TrueLat(p.x, p.y, gt) == yGeo
  {
    var a, b, c, d := gt.pixelWidth, gt.rowRotation, gt.columnRotation, gt.pixelHeight;
    var u, v := xGeo - gt.originLon, yGeo - gt.originLat;
    assert det == a * d - c * b;
    assert detX == u * d - v * b;
    assert detY == a * v - c * u;
    CramerSolves(a, b, c, d, u, v, p.x, p.y);
    assert p.x * a + p.y * b == u;
    assert p.x * c + p.y * d == v;
  }

  /** Cramer's rule for [[a, b], [c, d]] * (x, y) = (u, v). */
  lemma CramerSolves(a: real, b: real, c: real, d: real, u: real, v: real, x: real, y: real)
    requires a * d - c * b != 0.0
    requires x == (u * d - v * b) / (a * d - c * b)
    requires y == (a * v - c * u) / (a * d - c * b)
    ensures a * x + b * y == u && c * x + d * y == v
  {
    var det := a * d - c * b;
    var dx := u * d - v * b;
    var dy := a * v - c * u;
    assert x * det == dx;
    assert y * det == dy;
    assert a * dx + b * dy == u * det;
    assert c * dx + d * dy == v * det;
    assert (a * x + b * y) * det == a * (x * det) + b * (y * det);
    assert (c * x + d * y) * det == c * (x * det) + d * (y * det);
    ProductCancels(a * x + b * y, u, det);
    ProductCancels(c * x + d * y, v, det);
  }

  lemma ProductCancels(p: real, q: real, k: real)
    requires k != 0.0 && p * k == q * k
    ensures p == q
  {
    assert (p - q) * k == 0.0;
  }

  /** Cramer's rule applied to a known solution gives that solution back. */
  lemma CramerRecovers(a: real, b: real, c: real, d: real, x: real, y: real)
    requires a * d - c * b != 0.0
    ensures ((x * a + y * b) * d - (x * c + y * d) * b) / (a * d - c * b) == x
    ensures (a * (x * c + y * d) - c * (x * a + y * b)) / (a * d - c * b) == y
  {
    var det := a * d - c * b;
    assert (x * a + y * b) * d - (x * c + y * d) * b == x * det;
    assert a * (x * c + y * d) - c * (x * a + y * b) == y * det;
  }

  /** The inverse map undoes the forward map: the pixel a point was computed
      from is the pixel GetPixels finds for it. */
  lemma {:induction false} PixelsOfTrueCoordinates(x: real, y: real, gt: GeoTransform)
    requires Det(LinearPart(gt)) != 0.0
    ensures GetPixels(TrueLon(x, y, gt), TrueLat(x, y, gt), gt) == Some(Pixel(x, y))
  {
    var a, b, c, d := gt.pixelWidth, gt.rowRotation, gt.columnRotation, gt.pixelHeight;
    var xGeo, yGeo := TrueLon(x, y, gt), TrueLat(x, y, gt);
    var u, v := xGeo - gt.originLon, yGeo - gt.originLat;
    assert u == x * a + y * b;
    assert v == x * c + y * d;
    var det := Det(LinearPart(gt));
    var detX := Det(Square2(u, b, v, d));
    var detY := Det(Square2(a, u, c, v));
    assert det == a * d - c * b;
    assert detX == (x * a + y * b) * d - (x * c + y * d) * b;
    assert detY == a * (x * c + y * d) - c * (x * a + y * b);
    CramerRecovers(a, b, c, d, x, y);
    assert GetPixels(xGeo, yGeo, gt) == Some(Pixel(detX / det, detY / det));
  }

  /** JavaScript's Math.round: the nearest integer, halves rounded up. */
  function Round(v: real): (r: int)
    ensures v - 0.5 < r as real <= v + 0.5
  {
    (v + 0.5).Floor
  }

  function RoundPixels(p: Pixel): (r: PixelIndex)
    ensures p.x - 0.5 < r.x as real <= p.x + 0.5
    ensures p.y - 0.5 < r.y as real <= p.y + 0.5
  {
    PixelIndex(Round(p.x), Round(p.y))
  }

  /** The metadata's transform with a tile's own origin substituted. */
  function MakeGeoTransform(template: GeoTransform, lat: real, lon: real): (gt: GeoTransform)
    ensures TrueLon(0.0, 0.0, gt) == lon && TrueLat(0.0, 0.0, gt) == lat
    ensures LinearPart(gt) == LinearPart(template)
  {
    template.(originLon := lon, originLat := lat)
  }
}
