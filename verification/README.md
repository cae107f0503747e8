# viewshedjs tile catalog and mosaic reader, in Dafny

viewshedjs computes viewsheds over a directory of elevation tiles (GeoTIFF,
DTED, SRTM). Two pieces of grid logic sit under its GDAL and file-system glue,
and this project models both and proves properties about them.

**The tile catalog builder** (`src/gdal/tile_indexer.js`) builds two parallel
grids, tile names and tile origins, one tile at a time:

- Each tile goes to the first row whose latitude is not above its own and the
  first column whose longitude is not left of its own.
- A row or column of nulls is spliced in when the tile does not line up with
  the one found.
- At the end, the holes become "sea tiles". Each sea tile borrows its latitude
  from its row and its longitude from its column.

**The mosaic reader** (`src/gdal/gdal_service.js`) covers:

- the GDAL affine geotransform, forward and inverted by Cramer's rule;
- finding the tile of a point;
- block sizes at the edges of a query;
- reshaping between flat buffers and matrices;
- horizontal and vertical matrix concatenation;
- the loop that stitches the blocks of a query window together.

It also covers the request checks (`checkParameterValidity`) and the
request's file name (`generateFileName`).

Modules:

- `Wrappers` (`wrappers.dfy`): `Option`. It stands for JavaScript's
  `undefined`/`null`, and for a call that throws.
- `Geo` (`geo.dfy`): the data model (geotransform, raster size, origin,
  dataset) and the pixel ↔ coordinate maps.
- `Matrices` (`matrices.dfy`): makeBlock, makeVector, concat2d,
  concat2dVertical and concat2dHorizontal. Each is a loop method proved
  against a specification function.
- `TileIndexer` (`tile_indexer.dfy`): the catalog builder. The grid is a class
  whose cell sequence the methods update in place, as the source does with
  `splice`.
- `Mosaic` (`mosaic.dfy`): readDataset, getDataset, calculateBlockSize,
  findDatasetIndex, elevationSetup and processTiles.
- `ViewshedRequest` (`viewshed_request.dfy`): checkParameterValidity and
  generateFileName.

The indexer's loop over the listed files is specified by a function,
`TileIndexer.IndexedGrids`, that folds one placement step
(`TileIndexer.IndexStep`) over the files that open. The lemmas about that
fold take the tile each file contributes as a parameter `tileOf`, which
`TileIndexer.TileOf` fixes to openDataset followed by the origin read.

The following become parameters:

- The raster library's `open` (`gdalOpen`) and band read (`read`).
- The catalog files the source loads with `require` (`Mosaic.Catalog`).
- The template geotransform from the metadata file (`template`).

JavaScript behaviour is modelled where it decides the result:

- **Falsy tests:** a requested block extent of 0 means "the full raster".
- **Comparisons with `undefined`:** they are false, so an empty row or column
  never "fits".
- **`splice` clamps its index:** an insertion past the end appends.
- **Exceptions:** each becomes `None`, `Failed` or `ok == false` and is
  carried to the caller. This covers a `TypeError` from indexing `undefined`,
  and a `RangeError` from `new ArrayBuffer` of a negative size.

Properties worth knowing, proved below:

- **Consistent catalogs:** the two catalog grids always have the same shape and
  the same null pattern, and the origin grid stays rectangular.
- **Cells move, not change:** an insertion shifts cells without changing them.
- **Fill order does not matter:** filling the holes gives the same origins
  whatever order the holes are visited in (`TileIndexer.OriginFillStable`).
- **The stitched window has the requested size:** when the tiles of each row
  share a height and the tiles of each column share a width, the window is
  exactly as wide and tall as the distance between the corner pixels across
  those tiles (`Mosaic.StitchShape`).
- **The catalog is ordered:** after every tile, rows run by strictly
  decreasing latitude and columns by strictly increasing longitude. Every row
  and every column holds a tile, and each tile sits at its row's latitude and
  its column's longitude (`TileIndexer.IndexedGridsWell`). After the sea fill
  the catalog has no hole and stays ordered (`TileIndexer.RunIndexer`).
- **Rebuilding gives the same catalog:** indexing the same files in another
  order gives the same rows, columns and occupied cells. When no two files
  share a position, it gives the very same grids
  (`TileIndexer.IndexingOrderIndependent`,
  `TileIndexer.IndexingRebuildsSameGrids`).
- **Zero-width requests read the full tile:** a window whose start and end
  share a pixel column (or row) inside one tile asks the read for extent 0.
  The source turns that into the whole raster width (height), and the model
  does the same (`Mosaic.SingleTileWindow`, `Mosaic.ReadDatasetBlock`): the
  block read starts at that pixel and is as wide (tall) as the whole raster.

## Model

| member | source | states |
|---|---|---|
| Geo.TrueLon | src/gdal/gdal_service.js:250-252 | pixel (0, 0) lies at the transform's origin longitude, coefficient 0 |
| Geo.TrueLat | src/gdal/gdal_service.js:255-257 | pixel (0, 0) lies at the transform's origin latitude, coefficient 3 |
| Geo.GetPixels | src/gdal/gdal_service.js:259-284 | a pixel is returned exactly when the determinant of the linear part is non-zero; the forward map of that pixel gives back (xGeo, yGeo) |
| Geo.PixelsOfTrueCoordinates | src/gdal/gdal_service.js:250-284 | for an invertible transform, getPixels of the forward image of (x, y) is (x, y) |
| Geo.Round | src/gdal/gdal_service.js:208-210 | Math.round: the integer within half a unit, with halves rounded up |
| Geo.RoundPixels | src/gdal/gdal_service.js:208-210 | each rounded coordinate is within half a pixel of the exact one |
| Geo.MakeGeoTransform | src/gdal/gdal_service.js:383-388 | pixel (0, 0) of the result lies at (lat, lon); the pixel size and rotation are the template's |
| Matrices.SpliceCount | src/gdal/gdal_service.js:82 | `splice(0, count)` removes `count` elements, clamped to what is there |
| Matrices.Chunks | src/gdal/gdal_service.js:77-85 | makeBlock produces one row per unit of height, and none for a negative height |
| Matrices.ChunksExact | src/gdal/gdal_service.js:77-85 | for w*h elements, makeBlock gives h rows of w elements |
| Matrices.ChunksRow | src/gdal/gdal_service.js:77-85 | row r of the block is elements r*w up to (r+1)*w of the data |
| Matrices.BlockRoundTrip | src/gdal/gdal_service.js:77-97 | makeVector(makeBlock(v, w, h)) == v when the length of v is w*h |
| Matrices.VectorRoundTrip | src/gdal/gdal_service.js:77-97 | makeBlock(makeVector(b), w, height of b) == b when every row of b has w elements |
| Matrices.FlattenLength | src/gdal/gdal_service.js:87-97 | the vector is as long as the rows put together |
| Matrices.FlattenAppend | src/gdal/gdal_service.js:304-317 | concatenating two lists of rows and then flattening equals flattening each and concatenating |
| Matrices.MakeBlock | src/gdal/gdal_service.js:77-85 | the loop builds the block specified by Chunks, with one row per unit of height |
| Matrices.MakeVector | src/gdal/gdal_service.js:87-97 | the loop builds the rows' concatenation in order; its length is the total row length |
| Matrices.Concat2dVertical | src/gdal/gdal_service.js:304-317 | throws on an empty list; otherwise the inputs' rows in order, as many as all inputs have together |
| Matrices.HConcatDefined | src/gdal/gdal_service.js:319-335 | horizontal concatenation succeeds exactly when no input is taller than the first, and has the first input's height |
| Matrices.HConcatFailurePersists | src/gdal/gdal_service.js:319-335 | once a prefix of the inputs fails to concatenate, the whole list does |
| Matrices.HConcatEqualHeights | src/gdal/gdal_service.js:319-335 | for inputs of equal height, row i of the result is row i of every input, joined in order |
| Matrices.Concat2dHorizontal | src/gdal/gdal_service.js:319-335 | the nested loops compute HConcat, throwing where an input is taller than the first |
| Matrices.Concat2d | src/gdal/gdal_service.js:296-302 | axis 0 is vertical concatenation, axis 1 horizontal, any other axis the empty matrix |
| TileIndexer.Row | src/gdal/tile_indexer.js:178-180 | row i of the grid, and an empty row past the last one |
| TileIndexer.Column | src/gdal/tile_indexer.js:170-176 | one cell per row: cell j of a row that has it, null for a row too short |
| TileIndexer.GetDefinedValue | src/gdal/tile_indexer.js:160-168 | defined exactly when some cell is non-null, and then it is the first non-null cell |
| TileIndexer.FirstDefinedIndex | src/gdal/tile_indexer.js:160-168 | the position of the first non-null cell: every cell before it is null and the cell there is not |
| TileIndexer.FirstRowFit | src/gdal/tile_indexer.js:136-141 | the first row from a start index whose latitude is at most the tile's, or the row count: no row before it fits |
| TileIndexer.FirstColumnFit | src/gdal/tile_indexer.js:143-149 | the first column from a start index whose longitude is at least the tile's, or the column count: no column before it fits |
| TileIndexer.TilePlacement | src/gdal/tile_indexer.js:125-158 | (0, 0) for an empty catalog; otherwise the first row whose latitude is at most the tile's (or the row count) and the first column whose longitude is at least the tile's (or the column count) |
| TileIndexer.PlacementUnique | src/gdal/tile_indexer.js:125-158 | those first fitting row and column are the only placement meeting that description |
| TileIndexer.GetTilePlacement | src/gdal/tile_indexer.js:125-158 | the two scans, each remembering the first index that fits, compute TilePlacement |
| TileIndexer.ScanRows | src/gdal/tile_indexer.js:136-141 | the row loop returns the first row whose latitude is at most the tile's, and the row count when no row fits |
| TileIndexer.ScanColumns | src/gdal/tile_indexer.js:143-149 | the column loop returns the first column whose longitude is at least the tile's, and the column count when no column fits |
| TileIndexer.CalculateExpansionDirection | src/gdal/tile_indexer.js:207-237 | an undefined grid needs a row and a column; a placement past the last row (column) needs a row (column); a found row south of the tile, or a column east of it, needs one; a row (column) at the tile's own latitude (longitude) does not |
| TileIndexer.JoinsRowOnlyAtEqualLatitude | src/gdal/tile_indexer.js:207-237 | no row is inserted exactly when the placement row exists and has the tile's latitude |
| TileIndexer.JoinsColumnOnlyAtEqualLongitude | src/gdal/tile_indexer.js:207-237 | no column is inserted exactly when the placement column exists and has the tile's longitude |
| TileIndexer.ExpansionCoversBorder | src/gdal/tile_indexer.js:207-237 | a placement past the last row (column) always asks for a new row (column) |
| TileIndexer.InsertAt | src/gdal/tile_indexer.js:243 | `splice(index, 0, x)`: x lands at the clamped index, elements before it stay, elements after it move up by one |
| TileIndexer.SpliceReplace | src/gdal/tile_indexer.js:201 | `splice(j, 1, x)` inside the row replaces exactly cell j |
| TileIndexer.ExpandedMovesCells | src/gdal/tile_indexer.js:194-198 | after the insertions every old cell sits at its shifted position, inserted cells are null, and a rectangular grid stays rectangular and grows by the inserted row and column |
| TileIndexer.PlaceTileWritesOneCell | src/gdal/tile_indexer.js:200-204 | placing writes the content at (i, j) of the expanded grid and changes no other cell |
| TileIndexer.PlacementKeepsRectangular | src/gdal/tile_indexer.js:182-205 | a placement inside the grid, or on its border with the matching expansion, succeeds; keeps the grid rectangular; grows it by the insertions; puts the content at (i, j) |
| TileIndexer.ExpandedKeepsPairs | src/gdal/tile_indexer.js:194-198 | the same insertions on two paired grids keep them paired |
| TileIndexer.PlacementKeepsPairs | src/gdal/tile_indexer.js:95-98 | placing related contents at the same placement succeeds for both grids or for neither, and keeps them the same shape with the same nulls |
| TileIndexer.LaidIsOrdered | src/gdal/tile_indexer.js:125-180 | a grid laid out along strictly decreasing row latitudes and strictly increasing column longitudes, with a tile in every row and column, has those latitudes and longitudes as what getRow, getColumn and getDefinedValue report |
| TileIndexer.SlotsOfPlacement | src/gdal/tile_indexer.js:125-237 | in a laid-out grid the placement and expansion found are the tile's slot: rows before it lie north, and a row is inserted exactly when no row has the tile's latitude (the same for columns) |
| TileIndexer.DescendingGrown | src/gdal/tile_indexer.js:247-251 | inserting the tile's latitude at its slot keeps the row latitudes strictly decreasing and moves the later ones down by one |
| TileIndexer.AscendingGrown | src/gdal/tile_indexer.js:239-245 | inserting the tile's longitude at its slot keeps the column longitudes strictly increasing and moves the later ones right by one |
| TileIndexer.PlacedCellFrom | src/gdal/tile_indexer.js:182-205 | a cell of the placed grid is the new tile at (i, j), or a null, or the old cell it was moved from |
| TileIndexer.PlacedCellTo | src/gdal/tile_indexer.js:182-205 | every old cell lands at its shifted position and keeps its value unless that position is (i, j) |
| TileIndexer.PlacedKeepsLaid | src/gdal/tile_indexer.js:182-237 | placing a tile at its slot keeps the grid laid out along the grown latitudes and longitudes |
| TileIndexer.PlacedTilesAligned | src/gdal/tile_indexer.js:182-205 | after the placement every tile lies at its row's grown latitude |
| TileIndexer.PlacedTilesAlignedAcross | src/gdal/tile_indexer.js:182-205 | after the placement every tile lies at its column's grown longitude |
| TileIndexer.PlacedRowsHold | src/gdal/tile_indexer.js:182-205 | a placement inside or at the border of a grid whose every row holds a tile leaves every row holding one |
| TileIndexer.PlacedColumnsHold | src/gdal/tile_indexer.js:182-205 | a placement inside or at the border of a grid whose every column holds a tile leaves every column holding one |
| TileIndexer.PlacedRowHolds | src/gdal/tile_indexer.js:182-205 | a row of the placed grid holds the new tile, or a tile moved from the row it came from |
| TileIndexer.PlacedColumnHolds | src/gdal/tile_indexer.js:182-205 | a column of the placed grid holds the new tile, or a tile moved from the column it came from |
| TileIndexer.PlacedKeepsTiles | src/gdal/tile_indexer.js:182-205 | every (lat, lon) the grid held before the placement it holds after |
| TileIndexer.PlacedHoldsNew | src/gdal/tile_indexer.js:182-205 | after the placement the grid holds the new tile's (lat, lon) |
| TileIndexer.FirstTileLaid | src/gdal/tile_indexer.js:184-188 | the 1x1 grid of the first tile is laid out along its latitude and longitude |
| TileIndexer.OrderedStep | src/gdal/tile_indexer.js:95-98 | one indexing step on an ordered grid keeps it ordered, keeps every tile held and adds the new one |
| TileIndexer.IndexOfNull | src/gdal/tile_indexer.js:47 | `indexOf(null)`: -1 exactly when there is no null, otherwise the first null |
| TileIndexer.ReplaceOriginPointNulls | src/gdal/tile_indexer.js:32-41 | a sea origin exists exactly when its row and its column each hold a non-null cell; it takes lat and raster height from the row's first, lon and raster width from the column's first |
| TileIndexer.FirstDefinedAgrees | src/gdal/tile_indexer.js:160-168 | filling nulls with values that agree with the first non-null cell does not change what getDefinedValue answers |
| TileIndexer.OriginFillStable | src/gdal/tile_indexer.js:32-54 | each sea origin is the same whether computed from the indexed grid or from any partly filled one |
| TileIndexer.Create2DArray | src/gdal/tile_indexer.js:56-68 | rowNum rows of columnNum nulls (none for negative counts) |
| TileIndexer.Grid.constructor | src/gdal/tile_indexer.js:74-75 | the grid before the first tile is empty (`undefined`) |
| TileIndexer.Grid.AddRowAt | src/gdal/tile_indexer.js:247-251 | a row of nulls as wide as the first row is inserted at the index |
| TileIndexer.Grid.AddColumnAt | src/gdal/tile_indexer.js:239-245 | a null is inserted at the index in every row |
| TileIndexer.Grid.PlaceTile | src/gdal/tile_indexer.js:182-205 | the new grid is the specified placement; the method fails (the source throws) exactly when the row does not exist, leaving the expanded grid |
| TileIndexer.Grid.ReplaceNulls | src/gdal/tile_indexer.js:43-54 | the shape and the non-null cells are kept; on success no null is left; for an order-independent fill, success means every hole had a value, and each hole holds the fill computed from the original grid |
| TileIndexer.Grid.FillRow | src/gdal/tile_indexer.js:46-52 | the inner loop on one row: other rows and the filled cells stay; on success the row has no null; with a stable fill, failure means some hole of that row has no fill in the original grid |
| TileIndexer.GetFileExtension | src/gdal/tile_indexer.js:269-272 | the text after the last dot (the whole name without one): a dot-free suffix preceded by a dot or the start |
| TileIndexer.OpenDataset | src/gdal/tile_indexer.js:254-262 | only names with an allowed extension are opened, and those exactly as the raster library opens them |
| TileIndexer.OriginOf | src/gdal/tile_indexer.js:86-94 | a tile's recorded origin is its geotransform's coefficients 3 and 0 and its raster size |
| TileIndexer.NoneOpensUnderOpenDataset | src/gdal/tile_indexer.js:81-85 | no listed file contributes a tile exactly when none opens |
| TileIndexer.IndexStepWell | src/gdal/tile_indexer.js:81-99 | one more listed file keeps the grids well indexed: paired with listed files, undefined exactly when none opens, ordered otherwise, and holding every opened file's tile |
| TileIndexer.IndexedGridsWell | src/gdal/tile_indexer.js:70-106 | indexing never throws; the grids are paired with their files, stay undefined exactly when no file opens, are ordered otherwise (strictly decreasing row latitudes, strictly increasing column longitudes, a tile in every row and column), and hold every opened file's tile |
| TileIndexer.IndexedGridsOrdered | src/gdal/tile_indexer.js:70-106 | the origin grid built is undefined exactly when no file opens, and ordered otherwise |
| TileIndexer.PrefixGridsPaired | src/gdal/tile_indexer.js:70-106 | the grids built from the first k files are rectangular and paired with the whole listing |
| TileIndexer.IndexTiles | src/gdal/tile_indexer.js:70-106 | the loop builds IndexedGrids of the listing, so its grids are well indexed and the origin grid is rectangular |
| TileIndexer.IndexFile | src/gdal/tile_indexer.js:81-101 | one pass of the loop takes IndexedGrids of the first k files to IndexedGrids of the first k + 1 |
| TileIndexer.OpenedStep | src/gdal/tile_indexer.js:84-98 | a file that opens finds the grids built so far rectangular and paired, and the fold places its tile by one IndexStep |
| TileIndexer.ClosedStep | src/gdal/tile_indexer.js:84 | a file that does not open leaves the grids as they were |
| TileIndexer.PlaceInBoth | src/gdal/tile_indexer.js:95-98 | the new grids are one IndexStep of the old ones; they stay paired, and the origin grid stays rectangular and non-empty |
| TileIndexer.DescendingUnique | src/gdal/tile_indexer.js:125-141 | two strictly decreasing latitude lists with the same elements are equal |
| TileIndexer.AscendingUnique | src/gdal/tile_indexer.js:143-158 | two strictly increasing longitude lists with the same elements are equal |
| TileIndexer.LatsWithin | src/gdal/tile_indexer.js:125-180 | when one laid-out grid's positions are all held by another, its row latitudes and column longitudes are all the other's |
| TileIndexer.OccupancyWithin | src/gdal/tile_indexer.js:125-180 | on the same latitudes and longitudes, a tile in a cell of the first grid means a tile in that cell of the second |
| TileIndexer.LayoutUnique | src/gdal/tile_indexer.js:125-180 | two ordered grids holding the same positions have the same rows, columns and occupied cells |
| TileIndexer.HeldMeansListed | src/gdal/tile_indexer.js:70-106 | the indexed grid holds exactly the positions of the tiles the listed files contribute |
| TileIndexer.IndexingOrderIndependent | src/gdal/tile_indexer.js:70-106 | the same files in another listing order give the same row latitudes, column longitudes and occupied cells |
| TileIndexer.SameCell | src/gdal/tile_indexer.js:70-106 | with distinct positions, a cell of two such grids holds the same origin and the same name |
| TileIndexer.SameCells | src/gdal/tile_indexer.js:70-106 | with distinct positions, two such grids have the same shape and cells |
| TileIndexer.IndexingRebuildsSameGrids | src/gdal/tile_indexer.js:70-106 | when no two files share a (lat, lon), any listing order builds the very same grids |
| TileIndexer.FillSeaTileNames | src/gdal/tile_indexer.js:15-17 | every hole of the name grid becomes "sea_tile", every name stays, and no null is left |
| TileIndexer.FillSeaOrigins | src/gdal/tile_indexer.js:18 | indexed origins stay; the fill succeeds exactly when every hole has a tile in its row and in its column, and then each hole holds the origin inferred from the indexed grid, with no null left |
| TileIndexer.OrderedFillsEveryHole | src/gdal/tile_indexer.js:32-41 | on an ordered grid every cell gets an inferred origin, at its row's latitude and its column's longitude |
| TileIndexer.SeaFillAligned | src/gdal/tile_indexer.js:18 | after the fill of an ordered grid every cell holds a tile at its row's latitude and its column's longitude |
| TileIndexer.SeaFillOccupied | src/gdal/tile_indexer.js:18 | the fill keeps a tile in every row and every column |
| TileIndexer.SeaFillKeepsOrder | src/gdal/tile_indexer.js:18 | filling an ordered grid leaves no hole, keeps it ordered and keeps every position it held |
| TileIndexer.FillKeepsTiles | src/gdal/tile_indexer.js:43-54 | a fill that keeps the tiles keeps every position held |
| TileIndexer.FilledOriginsOutcome | src/gdal/tile_indexer.js:15-18 | after the origin fill of an ordered grid: no hole, still ordered, every opened file's tile still held |
| TileIndexer.FilledNamesOutcome | src/gdal/tile_indexer.js:15-18 | after the name fill of grids paired with their tiles: no hole, each name "sea_tile" or a listed file beside its tile |
| TileIndexer.SeaOrIndexed | src/gdal/tile_indexer.js:15-18 | after the fills each name is "sea_tile" or a listed file beside the tile it contributes |
| TileIndexer.RunIndexer | src/gdal/tile_indexer.js:9-30 | succeeds exactly when some listed file opens; the grids are those of IndexedGrids with name holes "sea_tile" and origin holes inferred; neither has a null; on success the origin grid is ordered; every opened file's tile is held; every name is "sea_tile" or a listed file beside its tile |
| TileIndexer.FillHoles | src/gdal/tile_indexer.js:14-18 | on an ordered, non-empty catalog both replaceNulls calls succeed and leave the grids sea-filled |
| TileIndexer.RunIndexerOutcome | src/gdal/tile_indexer.js:9-30 | from the indexed grids: failure exactly when no file opens, and otherwise filled grids with no hole, ordered origins, every opened tile held and every name "sea_tile" or a listed file beside its tile |
| Mosaic.GenerateSeaTile | src/gdal/gdal_service.js:61-68 | defined exactly when the cell has a recorded origin; then a band-less dataset whose pixel (0, 0) lies at that origin, with the template's pixel size and rotation and the recorded raster size |
| Mosaic.GetDataset | src/gdal/gdal_service.js:48-59 | a sea tile is a band-less dataset at its recorded origin and size; other names are opened from the dataset directory; a row past the catalog throws |
| Mosaic.BandData | src/gdal/gdal_service.js:30-41 | the buffer keeps its n pixels whether or not the band read succeeds |
| Mosaic.ReadDataset | src/gdal/gdal_service.js:23-45 | the read throws exactly when the block's pixel count is negative |
| Mosaic.ReadDatasetBlock | src/gdal/gdal_service.js:23-45 | for non-negative extents (0 meaning the raster's own), the block has height rows of width pixels and, read row by row, is the band's pixels |
| Mosaic.SeaTileIsSeaLevel | src/gdal/gdal_service.js:33-44 | every pixel read from a sea tile is 0 |
| Mosaic.CalculateBlockSize | src/gdal/gdal_service.js:189-206 | a block ends at the end pixel in the last row (column) of tiles and at the raster edge elsewhere |
| Mosaic.LastInRowIsLast | src/gdal/gdal_service.js:228-243 | within a row: none exactly when no cell covers the point, otherwise the last covering column |
| Mosaic.LastCoveringIsLast | src/gdal/gdal_service.js:218-247 | undefined exactly when no cell covers the point, otherwise the last covering cell in row-major order |
| Mosaic.FindDatasetIndex | src/gdal/gdal_service.js:218-247 | the loops keep the last covering cell visited, which is LastCovering |
| Mosaic.SetupFor | src/gdal/gdal_service.js:112-122 | succeeds exactly when both corner points are covered, both corner datasets open, and both corner transforms are invertible; then both transforms are invertible, the corner tiles are the last covering cells and each corner pixel is the rounding of the exact pixel of the corner point |
| Mosaic.ElevationSetup | src/gdal/gdal_service.js:112-122 | computes SetupFor, through findDatasetIndex |
| Mosaic.RowStripFailurePersists | src/gdal/gdal_service.js:133-151 | once a block of a row fails, the row fails |
| Mosaic.StripsFailurePersists | src/gdal/gdal_service.js:129-159 | once a row fails, the stitch of all later rows fails |
| Mosaic.StitchFailsAt | src/gdal/gdal_service.js:124-162 | any failing block makes the whole query fail |
| Mosaic.ReadTileBlock | src/gdal/gdal_service.js:136-147 | the dataset lookup, block size and read of one tile give that tile's block of the window |
| Mosaic.StitchRow | src/gdal/gdal_service.js:131-151 | the inner loop yields the row strip of all columns, and throws exactly when that strip fails |
| Mosaic.ProcessTiles | src/gdal/gdal_service.js:124-162 | the result is Stitch: nothing when no tile is visited, failure when anything throws, otherwise each row's blocks joined side by side and the rows stacked |
| Mosaic.BlockShape | src/gdal/gdal_service.js:137-148 | when each row of tiles shares a height and each column a width, and the requests are positive, each block is as tall as its row's request and as wide as its column's |
| Mosaic.RowStripShape | src/gdal/gdal_service.js:133-151 | a row strip is as tall as its blocks and as wide as their widths together |
| Mosaic.StripsShape | src/gdal/gdal_service.js:129-159 | the stacked rows are as tall as all row heights together and as wide as one row |
| Mosaic.WidthsTelescope | src/gdal/gdal_service.js:189-206 | a row's block widths add up to the widths of the tiles before the last column, minus the start pixel, plus the end pixel |
| Mosaic.HeightsTelescope | src/gdal/gdal_service.js:189-206 | the same for block heights down the rows |
| Mosaic.StitchShape | src/gdal/gdal_service.js:124-162 | when each row of tiles shares a height and each column a width, and the requests are positive, the window is exactly as wide and tall as the distance between the corner pixels across those tiles |
| Mosaic.SingleTileWindow | src/gdal/gdal_service.js:124-162 | a window inside one tile is a single read from the start pixel, as large as the distance to the end pixel |
| Mosaic.GetElevationData | src/gdal/gdal_service.js:107-110 | a failed setup fails the query; otherwise the result is the stitch over the catalog's datasets |
| ViewshedRequest.CheckParameterValidity | src/gdal/gdal_service.js:396-399 | valid exactly when both elevations are numbers (0 included), true, non-empty strings or objects |
| ViewshedRequest.ReplaceAllDots | src/gdal/gdal_service.js:379 | every dot becomes the given character (an underscore in the source), and nothing else changes |
| ViewshedRequest.FileName | src/gdal/gdal_service.js:377-381 | the name is the parameter template with each dot replaced by the given character, then the extension; with a replacement other than a dot, no dot is left before the extension. generateFileName uses '_' and the corrected name uses 'p' |
| ViewshedRequest.SameNameWhenHeadsAgree | src/gdal/gdal_service.js:377-381 | requests that agree from z on, and whose x and y read alike once dots become underscores, share a file name |
| ViewshedRequest.FileNamesCollide | src/gdal/gdal_service.js:377-381 | two different numeric requests get the same file name |
| ViewshedRequest.InterleaveInjective | src/gdal/gdal_service.js:378 | with fields free of underscores, the template's text determines its fields |
| ViewshedRequest.DistinctFileNamesDiffer | src/gdal/gdal_service.js:377-381 | (corrected) different numeric requests get different file names |

## Left out

- GDAL itself (`gdal.open`, `bands.get(1)`, `pixels.read`, `pixels.write`, `driver.create`, `SpatialReference`, `decToDMS`): foreign native calls. They become the `gdalOpen` and `read` parameters.
- The reader's answer when it has the wrong number of pixels is treated like a failed read (the zero buffer). The native binding's own size checks are not part of this model.
- The file system: `readDirectory`, `writeArrayToFile`, `checkFileExists`, `saveMetadata`, and the `require` of `tile_names.json` and `origins.json`. The file list and the catalog are parameters. A missing tile file fails in the source either way, and in the model it is `gdalOpen` answering `None`.
- The callback reporting of runIndexer, which after an exception reports the error and then success as well: callbacks are not modelled, and `RunIndexer` returns `ok` instead.
- src/helpers/metadata_helper.js is not part of this model. Its template geotransform is the `template` parameter.
- src/helpers/file_operations_helper.js is not part of this model: thin file-system wrappers.
- saveData, analyzeViewshed, generateNewViewshed, runViewshedAnalysis, clearViewshedCache, returnExistingFile and prettyPoint: file writes, a shell script run through `child_process`, and the promise and callback pipeline around them.
- getElevationDataSinglePoint: it hands fractional pixel coordinates straight to the native read, whose rounding is not part of this model.
- Console logging.
- Geo.GetPixels: works on exact reals and omits `parseToPrecision12` (rounding to 12 significant digits). When the determinant is zero, the source's NaN or Infinity pixel is modelled as a failure, so `Mosaic.SetupFor` fails instead of carrying NaN on.
- Geo.Round: `Math.round` on reals, as floor(x + 1/2); the double-precision effects near halves are left out.
- Geo.Det: has no contract of its own. It is the plain 2x2 determinant, used through Geo.GetPixels.
- Mosaic.ReadDataset: `ArrayBuffer`'s maximum length is not modelled, so only a negative size throws.
- ViewshedRequest.GenerateFileName: parameters are taken as the text JavaScript renders the numbers as. Number-to-string formatting is not modelled.
- ViewshedRequest.CheckParameterValidity: the JavaScript values modelled are undefined, null, booleans, finite numbers, NaN, strings and objects. BigInt and symbols are left out. Infinity is a number like any other.
- TileIndexer.CalculateExpansionDirection: the source's test `array === []` is always false, and on an empty array `array[0].length` throws. The model treats the empty grid like `undefined` (a new row and column), which is the only case indexTiles reaches.
- Latitudes and longitudes are exact reals. A NaN coordinate, which getDefinedValue would skip, is not modelled.
- concat2dVertical with `undefined` as its second argument cannot arise in processTiles (the loop invariants rule it out), so it is not modelled.

## Findings

| source | as written | input that shows it | evidently intended | confidence | as-written member | corrected member |
|---|---|---|---|---|---|---|
| src/gdal/gdal_service.js:377-381 | dots in the parameters become '_', the character that also separates the parameters | x = 1, y = 2.5 and x = 1.2, y = 5 (all else equal) both give `vs_obs_1_2_5_...`; the cache test at src/gdal/gdal_service.js:422-429 then answers the second request with the first one's image | different requests get different file names | medium; not executed | ViewshedRequest.FileNamesCollide | ViewshedRequest.DistinctFileNamesDiffer |
