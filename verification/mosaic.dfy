/** Reading an elevation window out of the tile catalog
    (src/gdal/gdal_service.js): the tiles covering the window's corners are
    found in the origins catalog, the corners are converted to pixels, and
    the tiles between them are read block by block and stitched together,
    left to right within a row of tiles and top to bottom across rows. */
module Mosaic {
  import opened Wrappers
  import opened Geo
  import opened Matrices
  import TileIndexer

  /** A pixel of an elevation raster, as held by an Int16Array. */
  newtype Int16 = v: int | -0x8000 <= v < 0x8000

  /** `band.pixels.read(x, y, width, height)` of band 1 of an opened raster:
      the pixels of that window in row-major order, or `None` when the read
      fails. */
  type PixelReader = (Dataset, int, int, int, int) -> Option<seq<Int16>>

  /** getDataset(i, j): the dataset of catalog cell (i, j), or `None` when
      the lookup throws. */
  type DatasetSource = (nat, nat) -> Option<Dataset>

  /** What the indexer wrote to disk: the name grid and the origin grid,
      together with the template geotransform of the elevation data set and
      the directory the tiles live in. */
  datatype Catalog = Catalog(
    tileNames: seq<seq<string>>, origins: TileIndexer.Cells<Origin>,
    template: GeoTransform, datasetPath: string)

  datatype BlockSize = BlockSize(width: int, height: int)

  /** The requested window: from (xo, yo) to (xf, yf), longitude first. */
  datatype Query = Query(xo: real, yo: real, xf: real, yf: real)

  /** elevationSetup's result: the corner pixels and the catalog cells of
      the corner tiles. */
  datatype Setup = Setup(pixelStart: PixelIndex, pixelEnd: PixelIndex, indicesStart: Index, indicesEnd: Index)

  /** What processTiles hands to its callback: a matrix, `undefined` when no
      tile was visited, or nothing at all because an exception escaped. */
  datatype Outcome = Data(m: Matrix<Int16>) | NoData | Failed

  // ---------------------------------------------------------------------
  // Datasets

  /** generateSeaTile: a band-less dataset at the origin recorded for cell
      (i, j); `None` where the source reads a field of `undefined`. */
  function GenerateSeaTile(c: Catalog, i: nat, j: nat): (ds: Option<Dataset>)
    ensures ds.Some? <==> i < |c.origins| && j < |c.origins[i]| && c.origins[i][j].Some?
    ensures ds.Some? ==> !ds.value.hasBands &&
                         TrueLat(0.0, 0.0, ds.value.geoTransform) == c.origins[i][j].value.lat &&
                         TrueLon(0.0, 0.0, ds.value.geoTransform) == c.origins[i][j].value.lon &&
                         LinearPart(ds.value.geoTransform) == LinearPart(c.template) &&
                         ds.value.rasterSize == c.origins[i][j].value.rasterSize
  {
    if i < |c.origins| && j < |c.origins[i]| && c.origins[i][j].Some? then
      var origin := c.origins[i][j].value;
      Some(Dataset(MakeGeoTransform(c.template, origin.lat, origin.lon), origin.rasterSize, false))
    else None
  }

  /** getDataset: a sea tile is synthesised, any other name is opened from
      the dataset directory. A row index past the catalog throws; a column
      index past its row yields the name "undefined". */
  function GetDataset(c: Catalog, gdalOpen: string -> Option<Dataset>, i: nat, j: nat): (ds: Option<Dataset>)
    ensures i >= |c.tileNames| ==> ds.None?
    ensures i < |c.tileNames| && j < |c.tileNames[i]| && c.tileNames[i][j] == TileIndexer.SeaTileName ==>
              ds == GenerateSeaTile(c, i, j) &&
              (ds.Some? ==> !ds.value.hasBands &&
                            TrueLat(0.0, 0.0, ds.value.geoTransform) == c.origins[i][j].value.lat &&
                            TrueLon(0.0, 0.0, ds.value.geoTransform) == c.origins[i][j].value.lon &&
                            ds.value.rasterSize == c.origins[i][j].value.rasterSize)
    ensures i < |c.tileNames| && j < |c.tileNames[i]| && c.tileNames[i][j] != TileIndexer.SeaTileName ==>
              ds == gdalOpen(c.datasetPath + c.tileNames[i][j])
  {
    if i >= |c.tileNames| then None
    else
      var tileName := if j < |c.tileNames[i]| then c.tileNames[i][j] else "undefined";
      if tileName == TileIndexer.SeaTileName then GenerateSeaTile(c, i, j)
      else gdalOpen(c.datasetPath + tileName)
  }

  /** The catalog as a dataset source. */
  function Datasets(c: Catalog, gdalOpen: string -> Option<Dataset>): DatasetSource
  {
    (i: nat, j: nat) => GetDataset(c, gdalOpen, i, j)
  }

  // ---------------------------------------------------------------------
  // Reading one block

  /** `width ? width : rasterSize.x`: a zero extent means the full raster. */
  function BlockExtent(requested: int, full: int): int
  {
    if requested != 0 then requested else full
  }

  function Zeros(n: nat): seq<Int16>
  {
    seq(n, _ => 0 as Int16)
  }

  /** What the n-pixel buffer holds after the band read: the pixels read,
      or the untouched zero buffer when there is no band or the read fails
      (the error is logged and swallowed). */
  function BandData(ds: Dataset, xo: int, yo: int, w: int, h: int, n: nat, read: PixelReader): (data: seq<Int16>)
    ensures |data| == n
  {
    if !ds.hasBands then Zeros(n)
    else match read(ds, xo, yo, w, h)
      case Some(pixels) => if |pixels| == n then pixels else Zeros(n)
      case None => Zeros(n)
  }

  /** readDataset: a blockWidth x blockHeight buffer, filled from band 1,
      cut into rows. A negative pixel count makes `new ArrayBuffer` throw a
      RangeError (`None`). */
  function ReadDataset(ds: Dataset, xo: int, yo: int, width: int, height: int, read: PixelReader): (r: Option<Matrix<Int16>>)
    ensures r.Some? <==> BlockExtent(width, ds.rasterSize.x) * BlockExtent(height, ds.rasterSize.y) >= 0
  {
    var blockHeight := BlockExtent(height, ds.rasterSize.y);
    var blockWidth := BlockExtent(width, ds.rasterSize.x);
    var n := blockWidth * blockHeight;
    if n < 0 then None
    else Some(Chunks(BandData(ds, xo, yo, blockWidth, blockHeight, n, read), blockWidth, blockHeight))
  }

  /** For non-negative extents, the block has `height` rows of `width`
      pixels (the raster's own extent where zero was asked for), and read
      row by row it is the band's pixels. */
  lemma ReadDatasetBlock(ds: Dataset, xo: int, yo: int, width: int, height: int, read: PixelReader)
    requires BlockExtent(width, ds.rasterSize.x) >= 0 && BlockExtent(height, ds.rasterSize.y) >= 0
    ensures var w := BlockExtent(width, ds.rasterSize.x);
            var h := BlockExtent(height, ds.rasterSize.y);
            var r := ReadDataset(ds, xo, yo, width, height, read);
            r.Some? && |r.value| == h && (forall k :: 0 <= k < h ==> |r.value[k]| == w) &&
            w * h >= 0 && Flatten(r.value) == BandData(ds, xo, yo, w, h, w * h, read)
  {
    var w: nat := BlockExtent(width, ds.rasterSize.x);
    var h: nat := BlockExtent(height, ds.rasterSize.y);
    var data := BandData(ds, xo, yo, w, h, w * h, read);
    ChunksExact(data, w, h);
    BlockRoundTrip(data, w, h);
  }

  /** The shape half of ReadDatasetBlock, for callers that only need the
      block's rows and columns. */
  lemma ReadDatasetShape(ds: Dataset, xo: int, yo: int, width: int, height: int, read: PixelReader)
    requires BlockExtent(width, ds.rasterSize.x) >= 0 && BlockExtent(height, ds.rasterSize.y) >= 0
    ensures var r := ReadDataset(ds, xo, yo, width, height, read);
            r.Some? && |r.value| == BlockExtent(height, ds.rasterSize.y) &&
            forall k :: 0 <= k < |r.value| ==> |r.value[k]| == BlockExtent(width, ds.rasterSize.x)
  {
    ReadDatasetBlock(ds, xo, yo, width, height, read);
  }

  /** A sea tile has no band, so every pixel read from it is zero. */
  lemma SeaTileIsSeaLevel(c: Catalog, gdalOpen: string -> Option<Dataset>, i: nat, j: nat,
                          xo: int, yo: int, width: int, height: int, read: PixelReader)
    requires i < |c.tileNames| && j < |c.tileNames[i]| && c.tileNames[i][j] == TileIndexer.SeaTileName
    requires GetDataset(c, gdalOpen, i, j).Some?
    ensures var r := ReadDataset(GetDataset(c, gdalOpen, i, j).value, xo, yo, width, height, read);
            r.Some? ==> forall row, k :: 0 <= row < |r.value| && 0 <= k < |r.value[row]| ==> r.value[row][k] == 0
  {
    var ds := GetDataset(c, gdalOpen, i, j).value;
    var r := ReadDataset(ds, xo, yo, width, height, read);
    if r.Some? {
      var w := BlockExtent(width, ds.rasterSize.x);
      var h := BlockExtent(height, ds.rasterSize.y);
      var data := BandData(ds, xo, yo, w, h, w * h, read);
      assert forall k :: 0 <= k < |data| ==> data[k] == 0;
      ChunksCells(data, w, h);
    }
  }

  /** Every cell of a chunking is an element of the data cut. */
  lemma ChunksCells<T>(data: seq<T>, width: int, height: int)
    ensures forall row, k :: 0 <= row < |Chunks(data, width, height)| && 0 <= k < |Chunks(data, width, height)[row]| ==>
              Chunks(data, width, height)[row][k] in data
  {
    forall row, k | 0 <= row < |Chunks(data, width, height)| && 0 <= k < |Chunks(data, width, height)[row]|
      ensures Chunks(data, width, height)[row][k] in data
    {
      ChunksCell(data, width, height, row, k);
    }
  }

  /** One cell of a chunking is an element of the data cut. */
  lemma {:induction false} ChunksCell<T>(data: seq<T>, width: int, height: int, row: nat, k: nat)
    requires row < |Chunks(data, width, height)| && k < |Chunks(data, width, height)[row]|
    ensures Chunks(data, width, height)[row][k] in data
    decreases row
  {
    var cut := SpliceCount(|data|, width);
    var c, rest := Chunks(data, width, height), Chunks(data[cut..], width, height - 1);
    assert c == [data[..cut]] + rest;
    if row == 0 {
      assert c[0][k] == data[k];
    } else {
      assert c[row] == rest[row - 1];
      ChunksCell(data[cut..], width, height - 1, row - 1, k);
      var i :| 0 <= i < |data[cut..]| && data[cut..][i] == c[row][k];
      assert data[cut + i] == c[row][k];
    }
  }

  // ---------------------------------------------------------------------
  // Block sizes

  /** calculateBlockSize: a block reaches the query's end pixel in the last
      row (column) of tiles, and the raster's far edge elsewhere. */
  function CalculateBlockSize(dataset: Dataset, xo: int, yo: int, at: Index, indicesEnd: Index, pixelEnd: PixelIndex): (b: BlockSize)
    ensures yo + b.height == if indicesEnd.i == at.i then pixelEnd.y else dataset.rasterSize.y
    ensures xo + b.width == if indicesEnd.j == at.j then pixelEnd.x else dataset.rasterSize.x
  {
    var size := dataset.rasterSize;
    var height := if indicesEnd.i == at.i then pixelEnd.y - yo else size.y - yo;
    var width := if indicesEnd.j == at.j then pixelEnd.x - xo else size.x - xo;
    BlockSize(width, height)
  }

  // ---------------------------------------------------------------------
  // Finding the tile of a point

  /** A catalog cell covers (lat, lon) when the centre of its top-left
      pixel is west of lon and north of lat. */
  predicate Covers(cell: Option<Origin>, lat: real, lon: real, template: GeoTransform)
  {
    cell.Some? &&
    var geoTransform := MakeGeoTransform(template, cell.value.lat, cell.value.lon);
    TrueLon(0.0, 0.0, geoTransform) + template.pixelWidth / 2.0 <= lon &&
    TrueLat(0.0, 0.0, geoTransform) + template.pixelHeight / 2.0 >= lat
  }

  /** The last column of `row` that covers the point. */
  function LastInRow(row: seq<Option<Origin>>, lat: real, lon: real, template: GeoTransform): Option<nat>
  {
    if row == [] then None
    else if Covers(row[|row| - 1], lat, lon, template) then Some(|row| - 1)
    else LastInRow(row[..|row| - 1], lat, lon, template)
  }

  /** The last covering cell in row-major order. */
  function LastCovering(origins: TileIndexer.Cells<Origin>, lat: real, lon: real, template: GeoTransform): Option<Index>
  {
    if origins == [] then None
    else match LastInRow(origins[|origins| - 1], lat, lon, template)
      case Some(j) => Some(Index(|origins| - 1, j))
      case None => LastCovering(origins[..|origins| - 1], lat, lon, template)
  }

  /** `idx` covers the point and no cell after it in row-major order does. */
  ghost predicate IsLastCovering(origins: TileIndexer.Cells<Origin>, lat: real, lon: real, template: GeoTransform, idx: Index)
  {
    idx.i < |origins| && idx.j < |origins[idx.i]| && Covers(origins[idx.i][idx.j], lat, lon, template) &&
    forall i, j :: 0 <= i < |origins| && 0 <= j < |origins[i]| && (i > idx.i || (i == idx.i && j > idx.j)) ==>
      !Covers(origins[i][j], lat, lon, template)
  }

  lemma {:induction false} LastInRowIsLast(row: seq<Option<Origin>>, lat: real, lon: real, template: GeoTransform)
    ensures LastInRow(row, lat, lon, template).None? <==>
              forall j :: 0 <= j < |row| ==> !Covers(row[j], lat, lon, template)
    ensures LastInRow(row, lat, lon, template).Some? ==>
              var j := LastInRow(row, lat, lon, template).value;
              j < |row| && Covers(row[j], lat, lon, template) &&
              forall k :: j < k < |row| ==> !Covers(row[k], lat, lon, template)
  {
    if row != [] {
      var front := row[..|row| - 1];
      LastInRowIsLast(front, lat, lon, template);
      assert forall k :: 0 <= k < |front| ==> front[k] == row[k];
    }
  }

  /** findDatasetIndex's answer is the last covering cell in row-major
      order, and there is none exactly when no cell covers the point. */
  lemma {:induction false} LastCoveringIsLast(origins: TileIndexer.Cells<Origin>, lat: real, lon: real, template: GeoTransform)
    ensures LastCovering(origins, lat, lon, template).None? <==>
              forall i, j :: 0 <= i < |origins| && 0 <= j < |origins[i]| ==> !Covers(origins[i][j], lat, lon, template)
    ensures LastCovering(origins, lat, lon, template).Some? ==>
              IsLastCovering(origins, lat, lon, template, LastCovering(origins, lat, lon, template).value)
  {
    if origins != [] {
      var front := origins[..|origins| - 1];
      var last := origins[|origins| - 1];
      LastCoveringIsLast(front, lat, lon, template);
      LastInRowIsLast(last, lat, lon, template);
      assert forall k :: 0 <= k < |front| ==> front[k] == origins[k];
    }
  }

  /** findDatasetIndex: every cell is visited in row-major order and the
      last one that covers the point is kept. */
  method FindDatasetIndex(origins: TileIndexer.Cells<Origin>, lat: real, lon: real, template: GeoTransform)
    returns (indices: Option<Index>)
    ensures indices == LastCovering(origins, lat, lon, template)
  {
    indices := None;
    for i := 0 to |origins|
      invariant indices == LastCovering(origins[..i], lat, lon, template)
    {
      var row := origins[i];
      ghost var before := indices;
      for j := 0 to |row|
        invariant indices == match LastInRow(row[..j], lat, lon, template)
                             case Some(k) => Some(Index(i, k))
                             case None => before
      {
        assert row[..j + 1][..j] == row[..j];
        var origin := row[j];
        if origin.Some? {
          var geoTransform := MakeGeoTransform(template, origin.value.lat, origin.value.lon);
          var y := TrueLat(0.0, 0.0, geoTransform) + template.pixelHeight / 2.0;
          var x := TrueLon(0.0, 0.0, geoTransform) + template.pixelWidth / 2.0;
          if x <= lon && y >= lat {
            indices := Some(Index(i, j));
          }
        }
      }
      assert row[..|row|] == row;
      assert origins[..i + 1][..i] == origins[..i];
    }
    assert origins[..|origins|] == origins;
  }

  // ---------------------------------------------------------------------
  // Setting up a query

  /** The rounded pixel of a point lying at some exact pixel of `gt`. */
  ghost predicate RoundedPixelOf(xGeo: real, yGeo: real, gt: GeoTransform, pixel: PixelIndex)
  {
    exists p: Pixel :: TrueLon(p.x, p.y, gt) == xGeo && TrueLat(p.x, p.y, gt) == yGeo && RoundPixels(p) == pixel
  }

  /** What elevationSetup computes: the corner tiles, and the corner pixels
      in their own geotransforms. `None` when a corner lies in no tile or
      its dataset does not open (the source throws), or when a corner
      tile's geotransform cannot be inverted. */
  function SetupFor(q: Query, c: Catalog, getDataset: DatasetSource): (r: Option<Setup>)
    ensures r.Some? ==>
              IsLastCovering(c.origins, q.yo, q.xo, c.template, r.value.indicesStart) &&
              IsLastCovering(c.origins, q.yf, q.xf, c.template, r.value.indicesEnd)
    ensures r.Some? ==>
              getDataset(r.value.indicesStart.i, r.value.indicesStart.j).Some? &&
              getDataset(r.value.indicesEnd.i, r.value.indicesEnd.j).Some? &&
              RoundedPixelOf(q.xo, q.yo, getDataset(r.value.indicesStart.i, r.value.indicesStart.j).value.geoTransform,
                             r.value.pixelStart) &&
              RoundedPixelOf(q.xf, q.yf, getDataset(r.value.indicesEnd.i, r.value.indicesEnd.j).value.geoTransform,
                             r.value.pixelEnd)
    ensures r.Some? ==>
              Det(LinearPart(getDataset(r.value.indicesStart.i, r.value.indicesStart.j).value.geoTransform)) != 0.0 &&
              Det(LinearPart(getDataset(r.value.indicesEnd.i, r.value.indicesEnd.j).value.geoTransform)) != 0.0
    ensures var start := LastCovering(c.origins, q.yo, q.xo, c.template);
            var end := LastCovering(c.origins, q.yf, q.xf, c.template);
            start.Some? && end.Some? &&
            getDataset(start.value.i, start.value.j).Some? && getDataset(end.value.i, end.value.j).Some? &&
            Det(LinearPart(getDataset(start.value.i, start.value.j).value.geoTransform)) != 0.0 &&
            Det(LinearPart(getDataset(end.value.i, end.value.j).value.geoTransform)) != 0.0
            ==> r.Some?
  {
    var indicesStart := LastCovering(c.origins, q.yo, q.xo, c.template);
    var indicesEnd := LastCovering(c.origins, q.yf, q.xf, c.template);
    LastCoveringIsLast(c.origins, q.yo, q.xo, c.template);
    LastCoveringIsLast(c.origins, q.yf, q.xf, c.template);
    if indicesStart.None? || indicesEnd.None? then None
    else
      var datasetStart := getDataset(indicesStart.value.i, indicesStart.value.j);
      var datasetEnd := getDataset(indicesEnd.value.i, indicesEnd.value.j);
      if datasetStart.None? || datasetEnd.None? then None
      else
        var pixelStart := GetPixels(q.xo, q.yo, datasetStart.value.geoTransform);
        var pixelEnd := GetPixels(q.xf, q.yf, datasetEnd.value.geoTransform);
        if pixelStart.None? || pixelEnd.None? then None
        else Some(Setup(RoundPixels(pixelStart.value), RoundPixels(pixelEnd.value), indicesStart.value, indicesEnd.value))
  }

  /** elevationSetup. */
  method ElevationSetup(q: Query, c: Catalog, getDataset: DatasetSource) returns (r: Option<Setup>)
    ensures r == SetupFor(q, c, getDataset)
  {
    var indicesStart := FindDatasetIndex(c.origins, q.yo, q.xo, c.template);
    var indicesEnd := FindDatasetIndex(c.origins, q.yf, q.xf, c.template);
    if indicesStart.None? || indicesEnd.None? {
      return None;
    }
    var datasetStart := getDataset(indicesStart.value.i, indicesStart.value.j);
    var datasetEnd := getDataset(indicesEnd.value.i, indicesEnd.value.j);
    if datasetStart.None? || datasetEnd.None? {
      return None;
    }
    var pixelStart := GetPixels(q.xo, q.yo, datasetStart.value.geoTransform);
    var pixelEnd := GetPixels(q.xf, q.yf, datasetEnd.value.geoTransform);
    if pixelStart.None? || pixelEnd.None? {
      return None;
    }
    r := Some(Setup(RoundPixels(pixelStart.value), RoundPixels(pixelEnd.value), indicesStart.value, indicesEnd.value));
  }

  // ---------------------------------------------------------------------
  // Stitching

  /** Number of tile rows (columns) the query spans. */
  function RowCount(s: Setup): nat
  {
    if s.indicesEnd.i >= s.indicesStart.i then s.indicesEnd.i - s.indicesStart.i + 1 else 0
  }

  function ColumnCount(s: Setup): nat
  {
    if s.indicesEnd.j >= s.indicesStart.j then s.indicesEnd.j - s.indicesStart.j + 1 else 0
  }

  /** The pixel a block starts at: the start pixel in the first column
      (row) of tiles, the tile's edge after it. */
  function OffsetX(s: Setup, b: nat): int
  {
    if b == 0 then s.pixelStart.x else 0
  }

  function OffsetY(s: Setup, a: nat): int
  {
    if a == 0 then s.pixelStart.y else 0
  }

  /** The block read from the tile in row a, column b of the range. */
  function BlockAt(s: Setup, getDataset: DatasetSource, read: PixelReader, a: nat, b: nat): Option<Matrix<Int16>>
  {
    var i, j := s.indicesStart.i + a, s.indicesStart.j + b;
    match getDataset(i, j)
    case None => None
    case Some(dataset) =>
      var size := CalculateBlockSize(dataset, OffsetX(s, b), OffsetY(s, a), Index(i, j), s.indicesEnd, s.pixelEnd);
      ReadDataset(dataset, OffsetX(s, b), OffsetY(s, a), size.width, size.height, read)
  }

  /** rowData after the first n columns of row a: the blocks joined side by
      side; `None` once anything has thrown. */
  function RowStrip(s: Setup, getDataset: DatasetSource, read: PixelReader, a: nat, n: nat): Option<Matrix<Int16>>
    requires n >= 1
  {
    if n == 1 then BlockAt(s, getDataset, read, a, 0)
    else match RowStrip(s, getDataset, read, a, n - 1)
      case None => None
      case Some(rowData) =>
        match BlockAt(s, getDataset, read, a, n - 1)
        case None => None
        case Some(block) => HConcat([rowData, block])
  }

  /** data after the first m rows: the row strips stacked top to bottom. */
  function Strips(s: Setup, getDataset: DatasetSource, read: PixelReader, m: nat): Option<Matrix<Int16>>
    requires m >= 1 && ColumnCount(s) >= 1
  {
    if m == 1 then RowStrip(s, getDataset, read, 0, ColumnCount(s))
    else match Strips(s, getDataset, read, m - 1)
      case None => None
      case Some(data) =>
        match RowStrip(s, getDataset, read, m - 1, ColumnCount(s))
        case None => None
        case Some(rowData) => Some(data + rowData)
  }

  /** What processTiles delivers. */
  function Stitch(s: Setup, getDataset: DatasetSource, read: PixelReader): Outcome
  {
    if RowCount(s) == 0 || ColumnCount(s) == 0 then NoData
    else match Strips(s, getDataset, read, RowCount(s))
      case None => Failed
      case Some(data) => Data(data)
  }

  lemma {:induction false} RowStripFailurePersists(s: Setup, getDataset: DatasetSource, read: PixelReader, a: nat, n: nat, n': nat)
    requires 1 <= n <= n' && RowStrip(s, getDataset, read, a, n).None?
    ensures RowStrip(s, getDataset, read, a, n').None?
    decreases n'
  {
    if n' > n {
      RowStripFailurePersists(s, getDataset, read, a, n, n' - 1);
    }
  }

  lemma {:induction false} StripsFailurePersists(s: Setup, getDataset: DatasetSource, read: PixelReader, m: nat, m': nat)
    requires ColumnCount(s) >= 1 && 1 <= m <= m' && Strips(s, getDataset, read, m).None?
    ensures Strips(s, getDataset, read, m').None?
    decreases m'
  {
    if m' > m {
      StripsFailurePersists(s, getDataset, read, m, m' - 1);
    }
  }

  /** Once a block of row a cannot be read or joined, the whole stitch
      fails. */
  lemma StitchFailsAt(s: Setup, getDataset: DatasetSource, read: PixelReader, a: nat, n: nat)
    requires a < RowCount(s) && 1 <= n <= ColumnCount(s)
    requires RowStrip(s, getDataset, read, a, n).None?
    ensures Stitch(s, getDataset, read) == Failed
  {
    RowStripFailurePersists(s, getDataset, read, a, n, ColumnCount(s));
    assert Strips(s, getDataset, read, a + 1).None?;
    StripsFailurePersists(s, getDataset, read, a + 1, RowCount(s));
  }

  /** One step of processTiles' inner loop: the dataset of the tile in row
      a, column b of the range, and from it the block of the size
      calculateBlockSize gives, read at offset (x, y). `None` when the
      lookup or the read throws. */
  method ReadTileBlock(s: Setup, getDataset: DatasetSource, read: PixelReader, a: nat, b: nat, x: int, y: int)
    returns (block: Option<Matrix<Int16>>)
    requires x == OffsetX(s, b) && y == OffsetY(s, a)
    ensures block == BlockAt(s, getDataset, read, a, b)
  {
    var i, j := s.indicesStart.i + a, s.indicesStart.j + b;
    var dataset := getDataset(i, j);
    if dataset.None? {
      return None;
    }
    var blockSize := CalculateBlockSize(dataset.value, x, y, Index(i, j), s.indicesEnd, s.pixelEnd);
    block := ReadDataset(dataset.value, x, y, blockSize.width, blockSize.height, read);
  }

  /** One more column: the next block joined to the right of the strip so
      far (or taken alone in the first column); `None` once either throws. */
  lemma RowStripStep(s: Setup, getDataset: DatasetSource, read: PixelReader, a: nat, b: nat,
                     rowData: Option<Matrix<Int16>>, block: Option<Matrix<Int16>>)
    requires b == 0 ==> rowData == None
    requires b > 0 ==> rowData == RowStrip(s, getDataset, read, a, b) && rowData.Some?
    requires block == BlockAt(s, getDataset, read, a, b)
    ensures RowStrip(s, getDataset, read, a, b + 1) ==
              if block.None? then None
              else if rowData.Some? then HConcat([rowData.value, block.value])
              else block
  {
  }

  /** The inner loop of processTiles over the columns of tile row a: each
      block is read from the offset and with the size calculateBlockSize
      gives, and joined to the right of the blocks before it. `thrown` when
      a dataset lookup, a read or a join throws. */
  method StitchRow(s: Setup, getDataset: DatasetSource, read: PixelReader, a: nat, y: int)
    returns (rowData: Option<Matrix<Int16>>, thrown: bool)
    requires y == OffsetY(s, a)
    ensures ColumnCount(s) == 0 ==> rowData.None? && !thrown
    ensures ColumnCount(s) > 0 ==>
              (thrown <==> RowStrip(s, getDataset, read, a, ColumnCount(s)).None?) &&
              (!thrown ==> rowData == RowStrip(s, getDataset, read, a, ColumnCount(s)))
  {
    rowData := None;
    var x := s.pixelStart.x;
    var j: int := s.indicesStart.j;
    while j <= s.indicesEnd.j
      invariant s.indicesStart.j <= j && j - s.indicesStart.j <= ColumnCount(s)
      invariant x == OffsetX(s, j - s.indicesStart.j)
      invariant j == s.indicesStart.j ==> rowData == None
      invariant j > s.indicesStart.j ==>
                  rowData == RowStrip(s, getDataset, read, a, j - s.indicesStart.j) && rowData.Some?
    {
      var b: nat := j - s.indicesStart.j;
      var block := ReadTileBlock(s, getDataset, read, a, b, x, y);
      var next: Option<Matrix<Int16>>;
      if block.None? {
        next := None;
      } else if rowData.Some? {
        next := Concat2dHorizontal([rowData.value, block.value]);
      } else {
        next := block;
      }
      RowStripStep(s, getDataset, read, a, b, rowData, block);
      if next.None? {
        RowStripFailurePersists(s, getDataset, read, a, b + 1, ColumnCount(s));
        return None, true;
      }
      rowData := next;
      x := 0;
      j := j + 1;
    }
    thrown := false;
  }

  /** processTiles: visits the rows of tiles in the range, stitches each
      row, and stacks the rows top to bottom. */
  method ProcessTiles(s: Setup, getDataset: DatasetSource, read: PixelReader) returns (outcome: Outcome)
    ensures outcome == Stitch(s, getDataset, read)
  {
    var y := s.pixelStart.y;
    var data: Option<Matrix<Int16>> := None;
    var i: int := s.indicesStart.i;
    while i <= s.indicesEnd.i
      invariant s.indicesStart.i <= i && i - s.indicesStart.i <= RowCount(s)
      invariant y == OffsetY(s, i - s.indicesStart.i)
      invariant i == s.indicesStart.i || ColumnCount(s) == 0 ==> data == None
      invariant i > s.indicesStart.i && ColumnCount(s) > 0 ==>
                  data == Strips(s, getDataset, read, i - s.indicesStart.i) && data.Some?
    {
      var a: nat := i - s.indicesStart.i;
      var rowData, thrown := StitchRow(s, getDataset, read, a, y);
      if thrown {
        StitchFailsAt(s, getDataset, read, a, ColumnCount(s));
        return Failed;
      }
      if data.Some? {
        FlattenPair(data.value, rowData.value);
        var stacked := Concat2dVertical([data.value, rowData.value]);
        data := stacked;
      } else {
        data := rowData;
      }
      y := 0;
      i := i + 1;
    }
    outcome := if data.None? then NoData else Data(data.value);
  }

  // ---------------------------------------------------------------------
  // Shape of the stitched window

  /** Every tile in the range opens; the tiles of range row a are
      `heights[a]` pixels tall and those of range column b are `widths[b]`
      pixels wide. */
  ghost predicate GridTiles(s: Setup, getDataset: DatasetSource, heights: seq<int>, widths: seq<int>)
  {
    |heights| == RowCount(s) && |widths| == ColumnCount(s) &&
    forall a: nat, b: nat :: a < RowCount(s) && b < ColumnCount(s) ==>
      getDataset(s.indicesStart.i + a, s.indicesStart.j + b).Some? &&
      getDataset(s.indicesStart.i + a, s.indicesStart.j + b).value.rasterSize == RasterSize(widths[b], heights[a])
  }

  /** Width of the block read in range column b from a tile `full` pixels
      wide, and height in range row a from a tile `full` pixels tall. */
  function BlockWidth(s: Setup, full: int, b: nat): int
  {
    (if s.indicesEnd.j == s.indicesStart.j + b then s.pixelEnd.x else full) - OffsetX(s, b)
  }

  function BlockHeight(s: Setup, full: int, a: nat): int
  {
    (if s.indicesEnd.i == s.indicesStart.i + a then s.pixelEnd.y else full) - OffsetY(s, a)
  }

  /** Every block of the range is asked for with a positive size. */
  ghost predicate PositiveBlocks(s: Setup, heights: seq<int>, widths: seq<int>)
  {
    (forall b: nat :: b < |widths| ==> BlockWidth(s, widths[b], b) > 0) &&
    (forall a: nat :: a < |heights| ==> BlockHeight(s, heights[a], a) > 0)
  }

  function Sum(xs: seq<int>): int
  {
    if xs == [] then 0 else Sum(xs[..|xs| - 1]) + xs[|xs| - 1]
  }

  function SumWidths(s: Setup, widths: seq<int>, n: nat): int
    requires n <= |widths|
  {
    if n == 0 then 0 else SumWidths(s, widths, n - 1) + BlockWidth(s, widths[n - 1], n - 1)
  }

  function SumHeights(s: Setup, heights: seq<int>, m: nat): int
    requires m <= |heights|
  {
    if m == 0 then 0 else SumHeights(s, heights, m - 1) + BlockHeight(s, heights[m - 1], m - 1)
  }

  /** The widths of a row's first n blocks add up to the distance from the
      start pixel to the end of the n-th tile, or to the end pixel once the
      last column of the range is reached. */
  lemma {:induction false} WidthsTelescope(s: Setup, widths: seq<int>, n: nat)
    requires |widths| == ColumnCount(s) && 1 <= n <= ColumnCount(s)
    ensures SumWidths(s, widths, n) ==
              Sum(widths[..n - 1]) - s.pixelStart.x + (if n == ColumnCount(s) then s.pixelEnd.x else widths[n - 1])
  {
    if n > 1 {
      WidthsTelescope(s, widths, n - 1);
      assert widths[..n - 1][..n - 2] == widths[..n - 2];
    }
  }

  lemma {:induction false} HeightsTelescope(s: Setup, heights: seq<int>, m: nat)
    requires |heights| == RowCount(s) && 1 <= m <= RowCount(s)
    ensures SumHeights(s, heights, m) ==
              Sum(heights[..m - 1]) - s.pixelStart.y + (if m == RowCount(s) then s.pixelEnd.y else heights[m - 1])
  {
    if m > 1 {
      HeightsTelescope(s, heights, m - 1);
      assert heights[..m - 1][..m - 2] == heights[..m - 2];
    }
  }

  lemma BlockShape(s: Setup, getDataset: DatasetSource, read: PixelReader, heights: seq<int>, widths: seq<int>, a: nat, b: nat)
    requires GridTiles(s, getDataset, heights, widths) && PositiveBlocks(s, heights, widths)
    requires a < RowCount(s) && b < ColumnCount(s)
    ensures BlockAt(s, getDataset, read, a, b).Some?
    ensures var block := BlockAt(s, getDataset, read, a, b).value;
            |block| == BlockHeight(s, heights[a], a) &&
            forall k :: 0 <= k < |block| ==> |block[k]| == BlockWidth(s, widths[b], b)
  {
    assert getDataset(s.indicesStart.i + a, s.indicesStart.j + b).Some? &&
           getDataset(s.indicesStart.i + a, s.indicesStart.j + b).value.rasterSize == RasterSize(widths[b], heights[a]);
    var i, j := s.indicesStart.i + a, s.indicesStart.j + b;
    var dataset := getDataset(i, j).value;
    var bs := CalculateBlockSize(dataset, OffsetX(s, b), OffsetY(s, a), Index(i, j), s.indicesEnd, s.pixelEnd);
    assert bs.width == BlockWidth(s, widths[b], b) && bs.height == BlockHeight(s, heights[a], a);
    ReadDatasetShape(dataset, OffsetX(s, b), OffsetY(s, a), bs.width, bs.height, read);
  }

  lemma {:induction false} RowStripShape(s: Setup, getDataset: DatasetSource, read: PixelReader,
                                         heights: seq<int>, widths: seq<int>, a: nat, n: nat)
    requires GridTiles(s, getDataset, heights, widths) && PositiveBlocks(s, heights, widths)
    requires a < RowCount(s) && 1 <= n <= ColumnCount(s)
    ensures RowStrip(s, getDataset, read, a, n).Some?
    ensures var strip := RowStrip(s, getDataset, read, a, n).value;
            |strip| == BlockHeight(s, heights[a], a) &&
            forall k :: 0 <= k < |strip| ==> |strip[k]| == SumWidths(s, widths, n)
  {
    BlockShape(s, getDataset, read, heights, widths, a, n - 1);
    if n > 1 {
      RowStripShape(s, getDataset, read, heights, widths, a, n - 1);
      var rowData := RowStrip(s, getDataset, read, a, n - 1).value;
      var block := BlockAt(s, getDataset, read, a, n - 1).value;
      assert [rowData, block][..1] == [rowData];
      assert HConcat([rowData, block]) == AppendColumns(rowData, block);
    }
  }

  lemma {:induction false} StripsShape(s: Setup, getDataset: DatasetSource, read: PixelReader,
                                       heights: seq<int>, widths: seq<int>, m: nat)
    requires GridTiles(s, getDataset, heights, widths) && PositiveBlocks(s, heights, widths)
    requires 1 <= m <= RowCount(s) && ColumnCount(s) >= 1
    ensures Strips(s, getDataset, read, m).Some?
    ensures var data := Strips(s, getDataset, read, m).value;
            |data| == SumHeights(s, heights, m) &&
            forall k :: 0 <= k < |data| ==> |data[k]| == SumWidths(s, widths, ColumnCount(s))
  {
    RowStripShape(s, getDataset, read, heights, widths, m - 1, ColumnCount(s));
    if m > 1 {
      StripsShape(s, getDataset, read, heights, widths, m - 1);
      var data := Strips(s, getDataset, read, m - 1).value;
      var rowData := RowStrip(s, getDataset, read, m - 1, ColumnCount(s)).value;
      assert Strips(s, getDataset, read, m) == Some(data + rowData);
      StackedWidth(data, rowData, SumWidths(s, widths, ColumnCount(s)));
    }
  }

  lemma StackedWidth<T>(top: Matrix<T>, bottom: Matrix<T>, width: int)
    requires forall k :: 0 <= k < |top| ==> |top[k]| == width
    requires forall k :: 0 <= k < |bottom| ==> |bottom[k]| == width
    ensures forall k :: 0 <= k < |top + bottom| ==> |(top + bottom)[k]| == width
  {
  }

  /** When the tiles of each range row share a height, those of each range
      column share a width, and every block is asked for with a positive
      size, the stitched window is exactly as tall and as wide as the
      distance between the corner pixels, counted across the tiles in
      between: the heights of all but the last tile row, and the widths of
      all but the last tile column. */
  lemma StitchShape(s: Setup, getDataset: DatasetSource, read: PixelReader, heights: seq<int>, widths: seq<int>)
    requires RowCount(s) >= 1 && ColumnCount(s) >= 1
    requires GridTiles(s, getDataset, heights, widths) && PositiveBlocks(s, heights, widths)
    ensures Stitch(s, getDataset, read).Data?
    ensures var m := Stitch(s, getDataset, read).m;
            |m| == Sum(heights[..RowCount(s) - 1]) - s.pixelStart.y + s.pixelEnd.y &&
            forall k :: 0 <= k < |m| ==> |m[k]| == Sum(widths[..ColumnCount(s) - 1]) - s.pixelStart.x + s.pixelEnd.x
  {
    StripsShape(s, getDataset, read, heights, widths, RowCount(s));
    WidthsTelescope(s, widths, ColumnCount(s));
    HeightsTelescope(s, heights, RowCount(s));
  }

  /** A window inside one tile is a single read from the start pixel,
      as wide and tall as the distance to the end pixel. */
  lemma SingleTileWindow(s: Setup, getDataset: DatasetSource, read: PixelReader)
    requires s.indicesStart == s.indicesEnd
    ensures Stitch(s, getDataset, read) ==
              match getDataset(s.indicesStart.i, s.indicesStart.j)
              case None => Failed
              case Some(dataset) =>
                match ReadDataset(dataset, s.pixelStart.x, s.pixelStart.y,
                                  s.pixelEnd.x - s.pixelStart.x, s.pixelEnd.y - s.pixelStart.y, read)
                case None => Failed
                case Some(m) => Data(m)
  {
  }

  /** getElevationData: setup, then the stitch over the catalog's datasets;
      `Failed` when the setup throws. */
  method GetElevationData(q: Query, c: Catalog, gdalOpen: string -> Option<Dataset>, read: PixelReader)
    returns (outcome: Outcome)
    ensures SetupFor(q, c, Datasets(c, gdalOpen)).None? ==> outcome == Failed
    ensures SetupFor(q, c, Datasets(c, gdalOpen)).Some? ==>
              outcome == Stitch(SetupFor(q, c, Datasets(c, gdalOpen)).value, Datasets(c, gdalOpen), read)
  {
    var getDataset := Datasets(c, gdalOpen);
    var setup := ElevationSetup(q, c, getDataset);
    if setup.None? {
      return Failed;
    }
    outcome := ProcessTiles(setup.value, getDataset, read);
  }
}
