/** The tile catalog builder (src/gdal/tile_indexer.js). Tiles arrive in
    directory-listing order; each is placed in a growing two-dimensional grid
    by comparing its origin with the latitudes of the existing rows and the
    longitudes of the existing columns, inserting a new row or column when
    needed. Two parallel grids are built, one of file names and one of
    origins, and the holes left at the end are filled with synthetic sea
    tiles. */
module TileIndexer {
  import opened Wrappers
  import opened Geo

  /** A grid under construction; a null cell is `None`. The source's
      `undefined` grid (before the first tile) is the empty grid. */
  type Cells<T> = seq<seq<Option<T>>>

  datatype Placement = Placement(i: nat, j: nat)
  datatype Expansion = Expansion(row: bool, column: bool)

  const SeaTileName: string := "sea_tile"
  const AllowedFileExtensions: seq<string> := ["tif", "dt2", "hgt"]

  // ---------------------------------------------------------------------
  // Shape of a grid

  /** Every row as long as the first. */
  ghost predicate Rectangular<T>(g: Cells<T>)
  {
    forall r :: 0 <= r < |g| ==> |g[r]| == |g[0]|
  }

  ghost predicate SameShape<A, B>(a: Cells<A>, b: Cells<B>)
  {
    |a| == |b| && forall r :: 0 <= r < |a| ==> |a[r]| == |b[r]|
  }

  ghost predicate NoNulls<T>(g: Cells<T>)
  {
    forall r, c :: 0 <= r < |g| && 0 <= c < |g[r]| ==> g[r][c].Some?
  }

  /** `columnNum`: the length of the first row. */
  function Width<T>(g: Cells<T>): nat
  {
    if g == [] then 0 else |g[0]|
  }

  function NullRow<T>(n: nat): seq<Option<T>>
  {
    seq(n, _ => None)
  }

  // ---------------------------------------------------------------------
  // Reading rows and columns

  /** getRow: row `i`; past the last row the source gets `undefined`, which
      getDefinedValue iterates as if it were empty. */
  function Row<T>(i: nat, g: Cells<T>): (row: seq<Option<T>>)
    ensures i < |g| ==> row == g[i]
    ensures i >= |g| ==> row == []
  {
    if i < |g| then g[i] else []
  }

  /** getColumn: cell `j` of every row; a row too short gives `undefined`,
      which getDefinedValue skips like a null. */
  function Column<T>(j: nat, g: Cells<T>): (column: seq<Option<T>>)
    ensures |column| == |g|
    ensures forall r :: 0 <= r < |g| && j < |g[r]| ==> column[r] == g[r][j]
    ensures forall r :: 0 <= r < |g| && j >= |g[r]| ==> column[r].None?
  {
    seq(|g|, r requires 0 <= r < |g| => if j < |g[r]| then g[r][j] else None)
  }

  /** Position of the first non-null cell, or the length when all are null. */
  function FirstDefinedIndex<T>(cells: seq<Option<T>>): (k: nat)
    ensures k <= |cells|
    ensures forall m :: 0 <= m < k ==> cells[m].None?
    ensures k < |cells| ==> cells[k].Some?
  {
    if cells == [] then 0
    else if cells[0].Some? then 0
    else FirstDefinedIndex(cells[1..]) + 1
  }

  /** getDefinedValue: the first non-null cell, whose field is looked up.
      The source skips cells whose requested field is missing; every
      non-null cell of this model carries all of its fields, so the first
      non-null cell is the one that answers. */
  function GetDefinedValue<T>(cells: seq<Option<T>>): (v: Option<T>)
    ensures v.Some? <==> exists k :: 0 <= k < |cells| && cells[k].Some?
    ensures v.Some? ==> exists k :: 0 <= k < |cells| && cells[k] == v && forall m :: 0 <= m < k ==> cells[m].None?
  {
    var k := FirstDefinedIndex(cells);
    if k < |cells| then cells[k] else None
  }

  /** The latitude a row is known by: that of its first non-null cell. */
  function RowLat(g: Cells<Origin>, i: nat): Option<real>
  {
    match GetDefinedValue(Row(i, g))
    case None => None
    case Some(o) => Some(o.lat)
  }

  /** The longitude a column is known by: that of its first non-null cell. */
  function ColumnLon(g: Cells<Origin>, j: nat): Option<real>
  {
    match GetDefinedValue(Column(j, g))
    case None => None
    case Some(o) => Some(o.lon)
  }

  // ---------------------------------------------------------------------
  // Placement and expansion

  /** `lat >= savedLat`, false when savedLat is undefined. */
  predicate RowFits(savedLat: Option<real>, lat: real)
  {
    savedLat.Some? && lat >= savedLat.value
  }

  /** `lon <= savedLon`, false when savedLon is undefined. */
  predicate ColumnFits(savedLon: Option<real>, lon: real)
  {
    savedLon.Some? && lon <= savedLon.value
  }

  /** Row i is the first row whose latitude is not above `lat`, or one past
      the last row when there is none. */
  ghost predicate IsRowPlacement(g: Cells<Origin>, lat: real, i: nat)
  {
    i <= |g| &&
    (forall k :: 0 <= k < i ==> !RowFits(RowLat(g, k), lat)) &&
    (i < |g| ==> RowFits(RowLat(g, i), lat))
  }

  /** Column j is the first column whose longitude is not left of `lon`, or
      one past the last column when there is none. */
  ghost predicate IsColumnPlacement(g: Cells<Origin>, lon: real, j: nat)
  {
    j <= Width(g) &&
    (forall k :: 0 <= k < j ==> !ColumnFits(ColumnLon(g, k), lon)) &&
    (j < Width(g) ==> ColumnFits(ColumnLon(g, j), lon))
  }

  /** The first row from `from` on whose latitude is not above `lat`, or
      one past the last row. */
  function FirstRowFit(g: Cells<Origin>, lat: real, from: nat): (i: nat)
    requires from <= |g|
    ensures from <= i <= |g|
    ensures forall k :: from <= k < i ==> !RowFits(RowLat(g, k), lat)
    ensures i < |g| ==> RowFits(RowLat(g, i), lat)
    decreases |g| - from
  {
    if from == |g| then |g|
    else if RowFits(RowLat(g, from), lat) then from
    else FirstRowFit(g, lat, from + 1)
  }

  /** The first column from `from` on whose longitude is not left of `lon`,
      or one past the last column. */
  function FirstColumnFit(g: Cells<Origin>, lon: real, from: nat): (j: nat)
    requires from <= Width(g)
    ensures from <= j <= Width(g)
    ensures forall k :: from <= k < j ==> !ColumnFits(ColumnLon(g, k), lon)
    ensures j < Width(g) ==> ColumnFits(ColumnLon(g, j), lon)
    decreases Width(g) - from
  {
    if from == Width(g) then Width(g)
    else if ColumnFits(ColumnLon(g, from), lon) then from
    else FirstColumnFit(g, lon, from + 1)
  }

  /** Where getTilePlacement puts a tile: (0, 0) in an undefined grid,
      otherwise the first row whose latitude is not above the tile's and
      the first column whose longitude is not left of the tile's. */
  function TilePlacement(g: Cells<Origin>, origin: Origin): (p: Placement)
    ensures g == [] ==> p == Placement(0, 0)
    ensures g != [] ==> IsRowPlacement(g, origin.lat, p.i) && IsColumnPlacement(g, origin.lon, p.j)
  {
    if g == [] then Placement(0, 0)
    else Placement(FirstRowFit(g, origin.lat, 0), FirstColumnFit(g, origin.lon, 0))
  }

  /** The first fitting row and column are unique. */
  lemma PlacementUnique(g: Cells<Origin>, origin: Origin, p: Placement)
    requires g != [] && IsRowPlacement(g, origin.lat, p.i) && IsColumnPlacement(g, origin.lon, p.j)
    ensures p == TilePlacement(g, origin)
  {
  }

  /** getTilePlacement: scans the rows, then the columns, remembering the
      first index that fits. */
  method GetTilePlacement(originPoints: Cells<Origin>, origin: Origin) returns (p: Placement)
    ensures p == TilePlacement(originPoints, origin)
  {
    if |originPoints| == 0 {
      return Placement(0, 0);
    }
    var i := ScanRows(originPoints, origin.lat);
    var j := ScanColumns(originPoints, origin.lon);
    p := Placement(i, j);
    PlacementUnique(originPoints, origin, p);
  }

  /** getTilePlacement's scan of the rows: the first row whose latitude
      fits is remembered; none fitting gives the row count. */
  method ScanRows(originPoints: Cells<Origin>, lat: real) returns (i: nat)
    ensures IsRowPlacement(originPoints, lat, i)
  {
    var rowNum := |originPoints|;
    var lastI: Option<nat> := None;
    for k := 0 to rowNum
      invariant lastI.None? ==> forall r :: 0 <= r < k ==> !RowFits(RowLat(originPoints, r), lat)
      invariant lastI.Some? ==> lastI.value < k && IsRowPlacement(originPoints, lat, lastI.value)
    {
      var savedLat := RowLat(originPoints, k);
      if RowFits(savedLat, lat) && lastI.None? {
        lastI := Some(k);
      }
    }
    i := if lastI.Some? then lastI.value else rowNum;
  }

  /** getTilePlacement's scan of the columns, mirrored: the first column
      whose longitude fits, or the column count. */
  method ScanColumns(originPoints: Cells<Origin>, lon: real) returns (j: nat)
    ensures IsColumnPlacement(originPoints, lon, j)
  {
    var columnNum := Width(originPoints);
    var lastJ: Option<nat> := None;
    for k := 0 to columnNum
      invariant lastJ.None? ==> forall c :: 0 <= c < k ==> !ColumnFits(ColumnLon(originPoints, c), lon)
      invariant lastJ.Some? ==> lastJ.value < k && IsColumnPlacement(originPoints, lon, lastJ.value)
    {
      var savedLon := ColumnLon(originPoints, k);
      if ColumnFits(savedLon, lon) && lastJ.None? {
        lastJ := Some(k);
      }
    }
    j := if lastJ.Some? then lastJ.value else columnNum;
  }

  /** calculateExpansionDirection: a new row is needed past the last row or
      when the row found lies south of the tile; a new column past the last
      column or when the column found lies east of the tile. An undefined
      grid needs both. */
  function CalculateExpansionDirection(content: Origin, grid: Cells<Origin>, placement: Placement): (e: Expansion)
    ensures grid == [] ==> e == Expansion(true, true)
    ensures grid != [] && placement.i >= |grid| ==> e.row
    ensures grid != [] && placement.j >= Width(grid) ==> e.column
    ensures grid != [] && placement.i < |grid| && RowLat(grid, placement.i) == Some(content.lat) ==> !e.row
    ensures grid != [] && placement.j < Width(grid) && ColumnLon(grid, placement.j) == Some(content.lon) ==> !e.column
    ensures grid != [] && placement.i < |grid| && RowLat(grid, placement.i).Some? ==>
              (RowLat(grid, placement.i).value < content.lat ==> e.row)
    ensures grid != [] && placement.j < Width(grid) && ColumnLon(grid, placement.j).Some? ==>
              (ColumnLon(grid, placement.j).value > content.lon ==> e.column)
  {
    if grid == [] then Expansion(true, true)
    else
      var savedLat := RowLat(grid, placement.i);
      var savedLon := ColumnLon(grid, placement.j);
      Expansion(
        row := placement.i >= |grid| || (savedLat.Some? && savedLat.value < content.lat),
        column := placement.j >= |grid[0]| || (savedLon.Some? && savedLon.value > content.lon))
  }

  /** A tile joins an existing row exactly when that row's latitude equals
      its own; otherwise a row is inserted. */
  lemma JoinsRowOnlyAtEqualLatitude(g: Cells<Origin>, origin: Origin, p: Placement)
    requires g != [] && IsRowPlacement(g, origin.lat, p.i)
    ensures !CalculateExpansionDirection(origin, g, p).row <==>
              p.i < |g| && RowLat(g, p.i) == Some(origin.lat)
  {
  }

  /** A tile joins an existing column exactly when that column's longitude
      equals its own; otherwise a column is inserted. */
  lemma JoinsColumnOnlyAtEqualLongitude(g: Cells<Origin>, origin: Origin, p: Placement)
    requires g != [] && IsColumnPlacement(g, origin.lon, p.j)
    ensures !CalculateExpansionDirection(origin, g, p).column <==>
              p.j < Width(g) && ColumnLon(g, p.j) == Some(origin.lon)
  {
  }

  // ---------------------------------------------------------------------
  // Insertion

  /** `s.splice(index, 0, x)`: x inserted before position `index`, or at the
      end when `index` is past it; what was before stays, what was after
      moves up by one. */
  function InsertAt<X>(s: seq<X>, index: nat, x: X): (r: seq<X>)
    ensures |r| == |s| + 1
    ensures var at := if index < |s| then index else |s|;
            r[at] == x &&
            (forall k :: 0 <= k < at ==> r[k] == s[k]) &&
            (forall k :: at <= k < |s| ==> r[k + 1] == s[k])
  {
    var at := if index < |s| then index else |s|;
    s[..at] + [x] + s[at..]
  }

  /** `row.splice(index, 1, x)`: cell `index` replaced by x, or x appended
      when `index` is past the end. */
  function SpliceReplace<X>(s: seq<X>, index: nat, x: X): (r: seq<X>)
    ensures index < |s| ==> |r| == |s| && r[index] == x &&
                            forall k :: 0 <= k < |s| && k != index ==> r[k] == s[k]
  {
    if index < |s| then s[index := x] else s + [x]
  }

  /** addColumnAt's effect: a null inserted at `index` in every row. */
  function InsertColumn<T>(g: Cells<T>, index: nat): Cells<T>
  {
    seq(|g|, r requires 0 <= r < |g| => InsertAt(g[r], index, None))
  }

  /** The grid after placeTile's optional row and column insertions. */
  function Expanded<T>(g: Cells<T>, p: Placement, e: Expansion): Cells<T>
    requires g != []
  {
    var withRow := if e.row then InsertAt(g, p.i, NullRow(|g[0]|)) else g;
    if e.column then InsertColumn(withRow, p.j) else withRow
  }

  /** What placeTile leaves: a 1x1 grid for an undefined or empty grid;
      otherwise the expanded grid with the content spliced into row i at
      column j, or failure (`None`) when row i does not exist, where the
      source calls splice on `undefined` and throws. */
  function Placed<T>(g: Cells<T>, content: T, p: Placement, e: Expansion): Option<Cells<T>>
  {
    if g == [] then Some([[Some(content)]])
    else
      var x: Cells<T> := Expanded(g, p, e);
      if p.i < |x| then Some(x[p.i := SpliceReplace(x[p.i], p.j, Some(content))]) else None
  }

  /** Where a cell at position k lands after an insertion at `at`. */
  function Shift(k: nat, at: nat, inserted: bool): nat
  {
    if inserted && k >= at then k + 1 else k
  }

  /** The insertions move every existing cell down past an inserted row and
      right past an inserted column, and the inserted cells are null; a
      rectangular grid stays rectangular. */
  lemma ExpandedMovesCells<T>(g: Cells<T>, p: Placement, e: Expansion)
    requires g != [] && Rectangular(g) && p.i <= |g| && p.j <= |g[0]|
    ensures var x := Expanded(g, p, e);
            Rectangular(x) &&
            |x| == |g| + (if e.row then 1 else 0) &&
            |x[0]| == |g[0]| + (if e.column then 1 else 0)
    ensures var x := Expanded(g, p, e);
            forall r, c :: 0 <= r < |g| && 0 <= c < |g[r]| ==>
              x[Shift(r, p.i, e.row)][Shift(c, p.j, e.column)] == g[r][c]
    ensures var x := Expanded(g, p, e);
            (e.row ==> forall c :: 0 <= c < |x[p.i]| ==> x[p.i][c].None?) &&
            (e.column ==> forall r :: 0 <= r < |x| ==> x[r][p.j].None?)
  {
    var withRow := if e.row then InsertAt(g, p.i, NullRow(|g[0]|)) else g;
    if e.row {
      RowInsertMoves(g, p.i);
    }
    if e.column {
      ColumnInsertMoves(withRow, p.j);
    }
  }

  /** addRowAt on a rectangular grid: a null row lands at `i`, the rows
      from `i` on move down by one. */
  lemma RowInsertMoves<T>(g: Cells<T>, i: nat)
    requires g != [] && Rectangular(g) && i <= |g|
    ensures var x := InsertAt(g, i, NullRow(|g[0]|));
            Rectangular(x) && |x| == |g| + 1 && |x[0]| == |g[0]| &&
            (forall r :: 0 <= r < |g| ==> x[Shift(r, i, true)] == g[r]) &&
            (forall c :: 0 <= c < |x[i]| ==> x[i][c].None?)
  {
    var x := InsertAt(g, i, NullRow(|g[0]|));
    assert |x[0]| == |g[0]|;
  }

  /** addColumnAt on a rectangular grid: a null lands at `j` in every row,
      the cells from `j` on move right by one. */
  lemma ColumnInsertMoves<T>(g: Cells<T>, j: nat)
    requires g != [] && Rectangular(g) && j <= |g[0]|
    ensures var x := InsertColumn(g, j);
            Rectangular(x) && |x| == |g| && |x[0]| == |g[0]| + 1 &&
            (forall r, c :: 0 <= r < |g| && 0 <= c < |g[r]| ==> x[r][Shift(c, j, true)] == g[r][c]) &&
            (forall r :: 0 <= r < |x| ==> x[r][j].None?)
  {
  }

  /** placeTile writes the content at (i, j) of the expanded grid and
      changes no other cell. */
  lemma PlaceTileWritesOneCell<T>(g: Cells<T>, content: T, p: Placement, e: Expansion)
    requires g != []
    requires p.i < |Expanded(g, p, e)| && p.j < |Expanded(g, p, e)[p.i]|
    ensures Placed(g, content, p, e).Some?
    ensures var h := Placed(g, content, p, e).value;
            var x: Cells<T> := Expanded(g, p, e);
            SameShape(h, x) && h[p.i][p.j] == Some(content) &&
            forall r, c :: 0 <= r < |x| && 0 <= c < |x[r]| && (r != p.i || c != p.j) ==> h[r][c] == x[r][c]
  {
  }

  /** A placement inside the grid, or at its border with the matching
      expansion, keeps a rectangular grid rectangular, grows it by the
      inserted row and column, and puts the content at (i, j). */
  lemma {:induction false} PlacementKeepsRectangular<T>(g: Cells<T>, content: T, p: Placement, e: Expansion)
    requires g != [] && Rectangular(g)
    requires p.i <= |g| && p.j <= |g[0]|
    requires p.i == |g| ==> e.row
    requires p.j == |g[0]| ==> e.column
    ensures Placed(g, content, p, e).Some?
    ensures var h := Placed(g, content, p, e).value;
            Rectangular(h) && h != [] &&
            |h| == |g| + (if e.row then 1 else 0) &&
            |h[0]| == |g[0]| + (if e.column then 1 else 0) &&
            h[p.i][p.j] == Some(content)
  {
    ExpandedMovesCells(g, p, e);
    var x: Cells<T> := Expanded(g, p, e);
    assert p.i < |x| && p.j < |x[p.i]|;
    PlaceTileWritesOneCell(g, content, p, e);
  }

  /** The expansion computed for a placement found by getTilePlacement is
      the one PlacementKeepsRectangular needs. */
  lemma ExpansionCoversBorder(g: Cells<Origin>, origin: Origin, p: Placement)
    requires g != [] && IsRowPlacement(g, origin.lat, p.i) && IsColumnPlacement(g, origin.lon, p.j)
    ensures var e := CalculateExpansionDirection(origin, g, p);
            p.i <= |g| && p.j <= |g[0]| && (p.i == |g| ==> e.row) && (p.j == |g[0]| ==> e.column)
  {
  }

  // ---------------------------------------------------------------------
  // Parallel grids

  /** Two grids of one shape whose cells are null at the same places, and
      whose non-null cells are related by `rel`. */
  ghost predicate Paired<A, B>(a: Cells<A>, b: Cells<B>, rel: (A, B) -> bool)
  {
    SameShape(a, b) &&
    forall r, c :: 0 <= r < |a| && 0 <= c < |a[r]| ==>
      (a[r][c].Some? <==> b[r][c].Some?) &&
      (a[r][c].Some? ==> rel(a[r][c].value, b[r][c].value))
  }

  lemma {:induction false} ExpandedKeepsPairs<A, B>(a: Cells<A>, b: Cells<B>, rel: (A, B) -> bool, p: Placement, e: Expansion)
    requires a != [] && Paired(a, b, rel)
    ensures b != [] && Paired(Expanded(a, p, e), Expanded(b, p, e), rel)
  {
    var ra: Cells<A> := if e.row then InsertAt(a, p.i, NullRow(|a[0]|)) else a;
    var rb: Cells<B> := if e.row then InsertAt(b, p.i, NullRow(|b[0]|)) else b;
    if e.row {
      RowInsertKeepsPairs(a, b, rel, p.i);
    }
    if e.column {
      ColumnInsertKeepsPairs(ra, rb, rel, p.j);
    }
  }

  lemma RowInsertKeepsPairs<A, B>(a: Cells<A>, b: Cells<B>, rel: (A, B) -> bool, i: nat)
    requires a != [] && Paired(a, b, rel)
    ensures b != [] && Paired(InsertAt(a, i, NullRow(|a[0]|)), InsertAt(b, i, NullRow(|b[0]|)), rel)
  {
    var ra: Cells<A>, rb: Cells<B> := InsertAt(a, i, NullRow(|a[0]|)), InsertAt(b, i, NullRow(|b[0]|));
    var at := if i < |a| then i else |a|;
    forall r | 0 <= r < |ra|
      ensures |ra[r]| == |rb[r]|
      ensures forall c :: 0 <= c < |ra[r]| ==>
                (ra[r][c].Some? <==> rb[r][c].Some?) &&
                (ra[r][c].Some? ==> rel(ra[r][c].value, rb[r][c].value))
    {
      if r > at {
        assert ra[r] == a[r - 1] && rb[r] == b[r - 1];
      }
    }
  }

  lemma ColumnInsertKeepsPairs<A, B>(a: Cells<A>, b: Cells<B>, rel: (A, B) -> bool, j: nat)
    requires Paired(a, b, rel)
    ensures Paired(InsertColumn(a, j), InsertColumn(b, j), rel)
  {
    var ca: Cells<A>, cb: Cells<B> := InsertColumn(a, j), InsertColumn(b, j);
    forall r | 0 <= r < |ca|
      ensures |ca[r]| == |cb[r]|
      ensures forall c :: 0 <= c < |ca[r]| ==>
                (ca[r][c].Some? <==> cb[r][c].Some?) &&
                (ca[r][c].Some? ==> rel(ca[r][c].value, cb[r][c].value))
    {
      var at := if j < |a[r]| then j else |a[r]|;
      forall c | at < c < |ca[r]|
        ensures ca[r][c] == a[r][c - 1] && cb[r][c] == b[r][c - 1]
      {
      }
    }
  }

  /** Placing related contents at the same placement in two paired grids
      succeeds for both or for neither, and keeps them paired. */
  lemma {:induction false} PlacementKeepsPairs<A, B>(a: Cells<A>, b: Cells<B>, rel: (A, B) -> bool,
                                                     x: A, y: B, p: Placement, e: Expansion)
    requires Paired(a, b, rel) && rel(x, y)
    ensures Placed(a, x, p, e).Some? == Placed(b, y, p, e).Some?
    ensures Placed(a, x, p, e).Some? ==> Paired(Placed(a, x, p, e).value, Placed(b, y, p, e).value, rel)
  {
    if a != [] {
      ExpandedKeepsPairs(a, b, rel, p, e);
      var ea: Cells<A>, eb: Cells<B> := Expanded(a, p, e), Expanded(b, p, e);
      if p.i < |ea| {
        var ha: Cells<A> := ea[p.i := SpliceReplace(ea[p.i], p.j, Some(x))];
        var hb: Cells<B> := eb[p.i := SpliceReplace(eb[p.i], p.j, Some(y))];
        assert |ha[p.i]| == |hb[p.i]|;
        forall c | 0 <= c < |ha[p.i]|
          ensures (ha[p.i][c].Some? <==> hb[p.i][c].Some?) &&
                  (ha[p.i][c].Some? ==> rel(ha[p.i][c].value, hb[p.i][c].value))
        {
        }
      }
    }
  }

  // ---------------------------------------------------------------------
  // The catalog's order

  predicate Descending(xs: seq<real>)
  {
    forall k, k' :: 0 <= k < k' < |xs| ==> xs[k] > xs[k']
  }

  predicate Ascending(xs: seq<real>)
  {
    forall k, k' :: 0 <= k < k' < |xs| ==> xs[k] < xs[k']
  }

  /** Row r holds a tile. */
  ghost predicate RowHolds(g: Cells<Origin>, r: nat)
  {
    r < |g| && exists c :: 0 <= c < |g[r]| && g[r][c].Some?
  }

  /** Column c holds a tile. */
  ghost predicate ColumnHolds(g: Cells<Origin>, c: nat)
  {
    exists r :: 0 <= r < |g| && c < |g[r]| && g[r][c].Some?
  }

  /** A grid laid out along the row latitudes `lats` and the column
      longitudes `lons`: it is rectangular, every row and every column
      holds a tile, every tile lies at its row's latitude and its column's
      longitude, the latitudes strictly decrease down the rows and the
      longitudes strictly increase along the columns. */
  ghost predicate Laid(g: Cells<Origin>, lats: seq<real>, lons: seq<real>)
  {
    Rectangular(g) && |lats| == |g| && |lons| == Width(g) &&
    (forall r :: 0 <= r < |g| ==> RowHolds(g, r)) &&
    (forall c :: 0 <= c < Width(g) ==> ColumnHolds(g, c)) &&
    (forall r, c :: 0 <= r < |g| && 0 <= c < |g[r]| && g[r][c].Some? ==> g[r][c].value.lat == lats[r]) &&
    (forall r, c :: 0 <= r < |g| && 0 <= c < |g[r]| && g[r][c].Some? ==> g[r][c].value.lon == lons[c]) &&
    Descending(lats) && Ascending(lons)
  }

  /** The latitude each row is known by and the longitude each column is
      known by (0.0 where there is none). */
  function RowLats(g: Cells<Origin>): seq<real>
  {
    seq(|g|, r requires 0 <= r < |g| => match RowLat(g, r) case Some(lat) => lat case None => 0.0)
  }

  function ColumnLons(g: Cells<Origin>): seq<real>
  {
    seq(Width(g), c requires 0 <= c < Width(g) => match ColumnLon(g, c) case Some(lon) => lon case None => 0.0)
  }

  /** The order the catalog keeps: laid out along the latitudes its rows
      are known by and the longitudes its columns are known by. */
  ghost predicate Ordered(g: Cells<Origin>)
  {
    Laid(g, RowLats(g), ColumnLons(g))
  }

  /** A grid laid out along `lats` and `lons` is known by them: its rows by
      `lats`, its columns by `lons`. It is therefore ordered. */
  lemma LaidIsOrdered(g: Cells<Origin>, lats: seq<real>, lons: seq<real>)
    requires Laid(g, lats, lons)
    ensures forall r :: 0 <= r < |g| ==> RowLat(g, r) == Some(lats[r])
    ensures forall c :: 0 <= c < Width(g) ==> ColumnLon(g, c) == Some(lons[c])
    ensures RowLats(g) == lats && ColumnLons(g) == lons && Ordered(g)
  {
    forall r | 0 <= r < |g|
      ensures RowLat(g, r) == Some(lats[r])
    {
      assert RowHolds(g, r);
      var c :| 0 <= c < |g[r]| && g[r][c].Some?;
      assert Row(r, g) == g[r];
      var k := FirstDefinedIndex(g[r]);
      assert k <= c;
      assert GetDefinedValue(Row(r, g)) == g[r][k];
    }
    forall c | 0 <= c < Width(g)
      ensures ColumnLon(g, c) == Some(lons[c])
    {
      assert ColumnHolds(g, c);
      var r :| 0 <= r < |g| && c < |g[r]| && g[r][c].Some?;
      var column := Column(c, g);
      assert column[r] == g[r][c];
      var k := FirstDefinedIndex(column);
      assert k <= r;
      assert column[k] == g[k][c];
    }
  }

  /** Some tile of `g` lies at (lat, lon). */
  ghost predicate Holds(g: Cells<Origin>, lat: real, lon: real)
  {
    exists r, c :: 0 <= r < |g| && 0 <= c < |g[r]| && g[r][c].Some? &&
                   g[r][c].value.lat == lat && g[r][c].value.lon == lon
  }

  /** Row i is where latitude `lat` goes among the row latitudes `lats`:
      every row above lies north of it, row i (if any) not; `grow` says
      whether a row must be inserted there, which is when row i does not
      exist or lies south of `lat`. */
  ghost predicate DescendingSlot(lats: seq<real>, lat: real, i: nat, grow: bool)
  {
    i <= |lats| &&
    (forall k :: 0 <= k < i ==> lats[k] > lat) &&
    (i < |lats| ==> lats[i] <= lat) &&
    (grow <==> i == |lats| || lats[i] < lat)
  }

  /** Column j is where longitude `lon` goes among the column longitudes
      `lons`, mirrored. */
  ghost predicate AscendingSlot(lons: seq<real>, lon: real, j: nat, grow: bool)
  {
    j <= |lons| &&
    (forall k :: 0 <= k < j ==> lons[k] < lon) &&
    (j < |lons| ==> lon <= lons[j]) &&
    (grow <==> j == |lons| || lon < lons[j])
  }

  /** The row latitudes (column longitudes) after an optional insertion. */
  function Grown(xs: seq<real>, at: nat, x: real, grow: bool): seq<real>
  {
    if grow then InsertAt(xs, at, x) else xs
  }

  lemma DescendingGrown(lats: seq<real>, lat: real, i: nat, grow: bool)
    requires Descending(lats) && DescendingSlot(lats, lat, i, grow)
    ensures var ys := Grown(lats, i, lat, grow);
            |ys| == |lats| + (if grow then 1 else 0) && i < |ys| && ys[i] == lat &&
            (forall k :: 0 <= k < |lats| ==> ys[Shift(k, i, grow)] == lats[k]) &&
            Descending(ys)
  {
    if grow {
      var ys := InsertAt(lats, i, lat);
      forall k, k' | 0 <= k < k' < |ys|
        ensures ys[k] > ys[k']
      {
        if k' < i {
        } else if k' == i {
        } else if k < i {
          assert ys[k'] == lats[k' - 1];
        } else if k == i {
          assert ys[k'] == lats[k' - 1] && lats[k' - 1] <= lats[i];
        } else {
          assert ys[k] == lats[k - 1] && ys[k'] == lats[k' - 1];
        }
      }
    }
  }

  lemma AscendingGrown(lons: seq<real>, lon: real, j: nat, grow: bool)
    requires Ascending(lons) && AscendingSlot(lons, lon, j, grow)
    ensures var ys := Grown(lons, j, lon, grow);
            |ys| == |lons| + (if grow then 1 else 0) && j < |ys| && ys[j] == lon &&
            (forall k :: 0 <= k < |lons| ==> ys[Shift(k, j, grow)] == lons[k]) &&
            Ascending(ys)
  {
    if grow {
      var ys := InsertAt(lons, j, lon);
      forall k, k' | 0 <= k < k' < |ys|
        ensures ys[k] < ys[k']
      {
        if k' < j {
        } else if k' == j {
        } else if k < j {
          assert ys[k'] == lons[k' - 1];
        } else if k == j {
          assert ys[k'] == lons[k' - 1] && lons[k' - 1] >= lons[j];
        } else {
          assert ys[k] == lons[k - 1] && ys[k'] == lons[k' - 1];
        }
      }
    }
  }

  /** Where a cell at position k of the expanded grid came from. */
  function Unshift(k: nat, at: nat, inserted: bool): nat
  {
    if inserted && k > at then k - 1 else k
  }

  /** A placement inside a rectangular grid, or at its border with the
      matching expansion. */
  ghost predicate Placeable<T>(g: Cells<T>, p: Placement, e: Expansion)
  {
    g != [] && Rectangular(g) && p.i <= |g| && p.j <= |g[0]| &&
    (p.i == |g| ==> e.row) && (p.j == |g[0]| ==> e.column)
  }

  /** A cell of the placed grid is the new content at (i, j); otherwise,
      if it is not null, it lies outside the inserted row and column and is
      the cell of the original grid it was moved from. */
  lemma PlacedCellFrom<T>(g: Cells<T>, content: T, p: Placement, e: Expansion, r: nat, c: nat)
    requires Placeable(g, p, e)
    requires Placed(g, content, p, e).Some?
    requires r < |Placed(g, content, p, e).value| && c < |Placed(g, content, p, e).value[r]|
    ensures var h := Placed(g, content, p, e).value;
            (r == p.i && c == p.j ==> h[r][c] == Some(content)) &&
            ((r != p.i || c != p.j) && h[r][c].Some? ==>
               var r0, c0 := Unshift(r, p.i, e.row), Unshift(c, p.j, e.column);
               r0 < |g| && c0 < |g[r0]| && Shift(r0, p.i, e.row) == r && Shift(c0, p.j, e.column) == c &&
               h[r][c] == g[r0][c0])
  {
    ExpandedMovesCells(g, p, e);
    PlaceTileWritesOneCell(g, content, p, e);
    var h: Cells<T> := Placed(g, content, p, e).value;
    var x: Cells<T> := Expanded(g, p, e);
    if (r != p.i || c != p.j) && h[r][c].Some? {
      assert h[r][c] == x[r][c];
      // a cell of the inserted row or column would be null
      assert !(e.row && r == p.i) && !(e.column && c == p.j);
      var r0, c0 := Unshift(r, p.i, e.row), Unshift(c, p.j, e.column);
      assert Shift(r0, p.i, e.row) == r && Shift(c0, p.j, e.column) == c;
      assert r0 < |g| && |g[r0]| == |g[0]| && |x[r]| == |x[0]|;
      assert x[r][c] == g[r0][c0];
    }
  }

  /** Every cell of the original grid lands at its shifted position, and
      keeps its value unless that position is (i, j). */
  lemma PlacedCellTo<T>(g: Cells<T>, content: T, p: Placement, e: Expansion, r0: nat, c0: nat)
    requires Placeable(g, p, e) && r0 < |g| && c0 < |g[r0]|
    ensures Placed(g, content, p, e).Some?
    ensures var h := Placed(g, content, p, e).value;
            var r, c := Shift(r0, p.i, e.row), Shift(c0, p.j, e.column);
            r < |h| && c < |h[r]| && (r != p.i || c != p.j ==> h[r][c] == g[r0][c0])
  {
    ExpandedMovesCells(g, p, e);
    PlacementKeepsRectangular(g, content, p, e);
    PlaceTileWritesOneCell(g, content, p, e);
  }

  /** Under the slots found for it, a tile is placed in a laid-out grid,
      which stays laid out along the grown latitudes and longitudes. */
  lemma PlacedKeepsLaid(g: Cells<Origin>, lats: seq<real>, lons: seq<real>, o: Origin, p: Placement, e: Expansion)
    requires g != [] && Laid(g, lats, lons)
    requires DescendingSlot(lats, o.lat, p.i, e.row) && AscendingSlot(lons, o.lon, p.j, e.column)
    ensures Placed(g, o, p, e).Some?
    ensures Laid(Placed(g, o, p, e).value, Grown(lats, p.i, o.lat, e.row), Grown(lons, p.j, o.lon, e.column))
  {
    PlacementKeepsRectangular(g, o, p, e);
    DescendingGrown(lats, o.lat, p.i, e.row);
    AscendingGrown(lons, o.lon, p.j, e.column);
    PlacedTilesAligned(g, lats, lons, o, p, e);
    PlacedTilesAlignedAcross(g, lats, lons, o, p, e);
    SlotsPlaceable(g, lats, lons, o, p, e);
    PlacedRowsHold(g, o, p, e);
    PlacedColumnsHold(g, o, p, e);
  }

  /** The slots found in a laid-out grid make a placement inside it. */
  lemma SlotsPlaceable(g: Cells<Origin>, lats: seq<real>, lons: seq<real>, o: Origin, p: Placement, e: Expansion)
    requires g != [] && Laid(g, lats, lons)
    requires DescendingSlot(lats, o.lat, p.i, e.row) && AscendingSlot(lons, o.lon, p.j, e.column)
    ensures Placeable(g, p, e)
  {
  }

  /** After a placement, every tile lies at the grown latitude of its row. */
  lemma PlacedTilesAligned(g: Cells<Origin>, lats: seq<real>, lons: seq<real>, o: Origin, p: Placement, e: Expansion)
    requires g != [] && Laid(g, lats, lons)
    requires DescendingSlot(lats, o.lat, p.i, e.row) && AscendingSlot(lons, o.lon, p.j, e.column)
    ensures Placed(g, o, p, e).Some?
    ensures var h := Placed(g, o, p, e).value;
            var lats' := Grown(lats, p.i, o.lat, e.row);
            |h| == |lats'| &&
            forall r, c :: 0 <= r < |h| && 0 <= c < |h[r]| && h[r][c].Some? ==> h[r][c].value.lat == lats'[r]
  {
    SlotsPlaceable(g, lats, lons, o, p, e);
    PlacementKeepsRectangular(g, o, p, e);
    DescendingGrown(lats, o.lat, p.i, e.row);
    var h: Cells<Origin> := Placed(g, o, p, e).value;
    var lats' := Grown(lats, p.i, o.lat, e.row);
    forall r, c | 0 <= r < |h| && 0 <= c < |h[r]| && h[r][c].Some?
      ensures h[r][c].value.lat == lats'[r]
    {
      PlacedCellFrom(g, o, p, e, r, c);
      if r != p.i || c != p.j {
        var r0, c0 := Unshift(r, p.i, e.row), Unshift(c, p.j, e.column);
        assert h[r][c] == g[r0][c0];
        assert lats'[Shift(r0, p.i, e.row)] == lats[r0];
      }
    }
  }

  /** After a placement, every tile lies at the grown longitude of its
      column. */
  lemma PlacedTilesAlignedAcross(g: Cells<Origin>, lats: seq<real>, lons: seq<real>, o: Origin, p: Placement, e: Expansion)
    requires g != [] && Laid(g, lats, lons)
    requires DescendingSlot(lats, o.lat, p.i, e.row) && AscendingSlot(lons, o.lon, p.j, e.column)
    ensures Placed(g, o, p, e).Some?
    ensures var h := Placed(g, o, p, e).value;
            var lons' := Grown(lons, p.j, o.lon, e.column);
            Width(h) == |lons'| &&
            forall r, c :: 0 <= r < |h| && 0 <= c < |h[r]| && h[r][c].Some? ==> h[r][c].value.lon == lons'[c]
  {
    SlotsPlaceable(g, lats, lons, o, p, e);
    PlacementKeepsRectangular(g, o, p, e);
    AscendingGrown(lons, o.lon, p.j, e.column);
    var h: Cells<Origin> := Placed(g, o, p, e).value;
    var lons' := Grown(lons, p.j, o.lon, e.column);
    forall r, c | 0 <= r < |h| && 0 <= c < |h[r]| && h[r][c].Some?
      ensures h[r][c].value.lon == lons'[c]
    {
      PlacedCellFrom(g, o, p, e, r, c);
      if r != p.i || c != p.j {
        var r0, c0 := Unshift(r, p.i, e.row), Unshift(c, p.j, e.column);
        assert h[r][c] == g[r0][c0];
        assert lons'[Shift(c0, p.j, e.column)] == lons[c0];
      }
    }
  }

  /** After a placement, every row holds a tile. */
  lemma PlacedRowsHold(g: Cells<Origin>, o: Origin, p: Placement, e: Expansion)
    requires Placeable(g, p, e) && forall r :: 0 <= r < |g| ==> RowHolds(g, r)
    ensures Placed(g, o, p, e).Some?
    ensures var h := Placed(g, o, p, e).value; forall r :: 0 <= r < |h| ==> RowHolds(h, r)
  {
    PlacementKeepsRectangular(g, o, p, e);
    var h: Cells<Origin> := Placed(g, o, p, e).value;
    forall r | 0 <= r < |h|
      ensures RowHolds(h, r)
    {
      if r != p.i {
        assert Unshift(r, p.i, e.row) < |g|;
      }
      PlacedRowHolds(g, o, p, e, r);
    }
  }

  /** Row r of the placed grid holds a tile: the new one when it is row i,
      otherwise one moved from the row it came from. */
  lemma PlacedRowHolds(g: Cells<Origin>, o: Origin, p: Placement, e: Expansion, r: nat)
    requires Placeable(g, p, e) && Placed(g, o, p, e).Some? && r < |Placed(g, o, p, e).value|
    requires r != p.i ==> RowHolds(g, Unshift(r, p.i, e.row))
    ensures RowHolds(Placed(g, o, p, e).value, r)
  {
    var h: Cells<Origin> := Placed(g, o, p, e).value;
    PlacementKeepsRectangular(g, o, p, e);
    if r == p.i {
      assert p.j < |h[r]| && h[r][p.j].Some?;
    } else {
      var r0 := Unshift(r, p.i, e.row);
      assert Shift(r0, p.i, e.row) == r;
      var c0 :| 0 <= c0 < |g[r0]| && g[r0][c0].Some?;
      PlacedCellTo(g, o, p, e, r0, c0);
      var c := Shift(c0, p.j, e.column);
      assert c < |h[r]| && h[r][c].Some?;
    }
  }

  /** After a placement, every column holds a tile. */
  lemma PlacedColumnsHold(g: Cells<Origin>, o: Origin, p: Placement, e: Expansion)
    requires Placeable(g, p, e) && forall c :: 0 <= c < Width(g) ==> ColumnHolds(g, c)
    ensures Placed(g, o, p, e).Some?
    ensures var h := Placed(g, o, p, e).value; forall c :: 0 <= c < Width(h) ==> ColumnHolds(h, c)
  {
    PlacementKeepsRectangular(g, o, p, e);
    var h: Cells<Origin> := Placed(g, o, p, e).value;
    forall c | 0 <= c < Width(h)
      ensures ColumnHolds(h, c)
    {
      if c != p.j {
        assert Unshift(c, p.j, e.column) < Width(g);
      }
      PlacedColumnHolds(g, o, p, e, c);
    }
  }

  /** Column c of the placed grid holds a tile: the new one when it is
      column j, otherwise one moved from the column it came from. */
  lemma PlacedColumnHolds(g: Cells<Origin>, o: Origin, p: Placement, e: Expansion, c: nat)
    requires Placeable(g, p, e) && Placed(g, o, p, e).Some? && c < Width(Placed(g, o, p, e).value)
    requires c != p.j ==> ColumnHolds(g, Unshift(c, p.j, e.column))
    ensures ColumnHolds(Placed(g, o, p, e).value, c)
  {
    var h: Cells<Origin> := Placed(g, o, p, e).value;
    PlacementKeepsRectangular(g, o, p, e);
    if c == p.j {
      assert p.i < |h| && c < |h[p.i]| && h[p.i][c].Some?;
    } else {
      var c0 := Unshift(c, p.j, e.column);
      assert Shift(c0, p.j, e.column) == c;
      var r0 :| 0 <= r0 < |g| && c0 < |g[r0]| && g[r0][c0].Some?;
      PlacedCellTo(g, o, p, e, r0, c0);
      var r := Shift(r0, p.i, e.row);
      assert r < |h| && c < |h[r]| && h[r][c].Some?;
    }
  }

  /** A placement keeps a tile at every (lat, lon) that held one: a cell
      is overwritten only by a tile at the same latitude and longitude. */
  lemma PlacedKeepsTiles(g: Cells<Origin>, lats: seq<real>, lons: seq<real>,
                         o: Origin, p: Placement, e: Expansion, lat: real, lon: real)
    requires g != [] && Laid(g, lats, lons)
    requires DescendingSlot(lats, o.lat, p.i, e.row) && AscendingSlot(lons, o.lon, p.j, e.column)
    requires Holds(g, lat, lon)
    ensures Placed(g, o, p, e).Some? && Holds(Placed(g, o, p, e).value, lat, lon)
  {
    var h: Cells<Origin> := Placed(g, o, p, e).value;
    var r0, c0 :| 0 <= r0 < |g| && 0 <= c0 < |g[r0]| && g[r0][c0].Some? &&
                  g[r0][c0].value.lat == lat && g[r0][c0].value.lon == lon;
    PlacedCellTo(g, o, p, e, r0, c0);
    var r, c := Shift(r0, p.i, e.row), Shift(c0, p.j, e.column);
    if r == p.i && c == p.j {
      PlacedCellFrom(g, o, p, e, r, c);
      assert h[r][c] == Some(o);
    } else {
      assert h[r][c] == g[r0][c0];
    }
  }

  /** The slots getTilePlacement and calculateExpansionDirection find in a
      laid-out grid. */
  lemma SlotsOfPlacement(g: Cells<Origin>, lats: seq<real>, lons: seq<real>, o: Origin)
    requires g != [] && Laid(g, lats, lons)
    ensures var p := TilePlacement(g, o);
            var e := CalculateExpansionDirection(o, g, p);
            DescendingSlot(lats, o.lat, p.i, e.row) && AscendingSlot(lons, o.lon, p.j, e.column)
  {
    LaidIsOrdered(g, lats, lons);
    var p := TilePlacement(g, o);
    forall k | 0 <= k < p.i
      ensures lats[k] > o.lat
    {
      assert !RowFits(RowLat(g, k), o.lat);
    }
    forall k | 0 <= k < p.j
      ensures lons[k] < o.lon
    {
      assert !ColumnFits(ColumnLon(g, k), o.lon);
    }
  }

  /** The first tile makes a 1x1 grid, laid out along its own latitude and
      longitude. */
  lemma FirstTileLaid(o: Origin)
    ensures Laid([[Some(o)]], [o.lat], [o.lon]) && Holds([[Some(o)]], o.lat, o.lon)
  {
    var g: Cells<Origin> := [[Some(o)]];
    assert g[0][0].Some?;
  }

  /** A placed tile is held by the grid at its own latitude and longitude. */
  lemma PlacedHoldsNew(g: Cells<Origin>, lats: seq<real>, lons: seq<real>, o: Origin, p: Placement, e: Expansion)
    requires g != [] && Laid(g, lats, lons)
    requires DescendingSlot(lats, o.lat, p.i, e.row) && AscendingSlot(lons, o.lon, p.j, e.column)
    ensures Placed(g, o, p, e).Some? && Holds(Placed(g, o, p, e).value, o.lat, o.lon)
  {
    SlotsPlaceable(g, lats, lons, o, p, e);
    PlacementKeepsRectangular(g, o, p, e);
    var h: Cells<Origin> := Placed(g, o, p, e).value;
    assert p.i < |h| && p.j < |h[p.i]| && h[p.i][p.j] == Some(o);
  }

  /** Placing a tile in an ordered grid where getTilePlacement and
      calculateExpansionDirection put it keeps the grid ordered, keeps
      every tile it held, and adds the new one. */
  lemma OrderedStep(g: Cells<Origin>, o: Origin)
    requires g != [] && Ordered(g)
    ensures var p := TilePlacement(g, o);
            var e := CalculateExpansionDirection(o, g, p);
            Placed(g, o, p, e).Some? &&
            var h := Placed(g, o, p, e).value;
            Ordered(h) && Holds(h, o.lat, o.lon) &&
            (forall lat, lon :: Holds(g, lat, lon) ==> Holds(h, lat, lon))
  {
    var lats, lons := RowLats(g), ColumnLons(g);
    var p := TilePlacement(g, o);
    var e := CalculateExpansionDirection(o, g, p);
    SlotsOfPlacement(g, lats, lons, o);
    PlacedKeepsLaid(g, lats, lons, o, p, e);
    var h: Cells<Origin> := Placed(g, o, p, e).value;
    LaidIsOrdered(h, Grown(lats, p.i, o.lat, e.row), Grown(lons, p.j, o.lon, e.column));
    PlacedHoldsNew(g, lats, lons, o, p, e);
    forall lat, lon | Holds(g, lat, lon)
      ensures Holds(h, lat, lon)
    {
      PlacedKeepsTiles(g, lats, lons, o, p, e, lat, lon);
    }
  }

  // ---------------------------------------------------------------------
  // Filling the holes

  /** `row.indexOf(null)`: the first null cell, or -1 when there is none. */
  function IndexOfNull<T>(row: seq<Option<T>>): (k: int)
    ensures -1 <= k < |row|
    ensures k == -1 <==> forall m :: 0 <= m < |row| ==> row[m].Some?
    ensures k >= 0 ==> row[k].None? && forall m :: 0 <= m < k ==> row[m].Some?
  {
    if row == [] then -1
    else if row[0].None? then 0
    else
      var k := IndexOfNull(row[1..]);
      if k < 0 then -1 else k + 1
  }

  /** `cur` is `orig` with some of its holes filled, each with the value
      `fill` computes for it from `orig` itself. */
  ghost predicate FilledFrom<T>(orig: Cells<T>, cur: Cells<T>, fill: (Cells<T>, nat, nat) -> Option<T>)
  {
    SameShape(orig, cur) &&
    forall i, j :: 0 <= i < |orig| && 0 <= j < |orig[i]| ==>
      cur[i][j] == orig[i][j] || (orig[i][j].None? && cur[i][j] == fill(orig, i, j))
  }

  /** Filling a hole gives the same value whether computed from `orig` or
      from any grid obtained from `orig` by filling holes: the order in
      which the holes are filled does not matter. */
  ghost predicate StableFill<T(!new)>(fill: (Cells<T>, nat, nat) -> Option<T>, orig: Cells<T>)
  {
    forall cur: Cells<T>, i: nat, j: nat ::
      FilledFrom(orig, cur, fill) && i < |orig| && j < |orig[i]| ==> fill(cur, i, j) == fill(orig, i, j)
  }

  /** replaceOriginPointNulls: a sea tile's origin takes the latitude and
      the raster height of the first non-null cell in its row, and the
      longitude and raster width of the first non-null cell in its column.
      With no such cell the source reads a field of `undefined` and throws
      (`None`). */
  function ReplaceOriginPointNulls(origins: Cells<Origin>, i: nat, j: nat): (r: Option<Origin>)
    ensures var row := Row(i, origins);
            var column := Column(j, origins);
            r.Some? <==> FirstDefinedIndex(row) < |row| && FirstDefinedIndex(column) < |column|
    ensures r.Some? ==>
              var row := Row(i, origins);
              var column := Column(j, origins);
              var fromRow := row[FirstDefinedIndex(row)].value;
              var fromColumn := column[FirstDefinedIndex(column)].value;
              r.value.lat == fromRow.lat && r.value.rasterSize.y == fromRow.rasterSize.y &&
              r.value.lon == fromColumn.lon && r.value.rasterSize.x == fromColumn.rasterSize.x
  {
    var row := GetDefinedValue(Row(i, origins));
    var column := GetDefinedValue(Column(j, origins));
    if row.None? || column.None? then None
    else Some(Origin(row.value.lat, column.value.lon,
                     RasterSize(x := column.value.rasterSize.x, y := row.value.rasterSize.y)))
  }

  /** If every cell of `b` is the cell of `a`, a null, or a value whose key
      is that of `a`'s first non-null cell, then `b`'s first non-null cell
      exists exactly when `a`'s does, and has the same key. */
  lemma FirstDefinedAgrees(a: seq<Option<Origin>>, b: seq<Option<Origin>>, key: Origin -> (real, int))
    requires |a| == |b|
    requires forall m :: 0 <= m < |b| ==>
               b[m] == a[m] ||
               (a[m].None? && (b[m].None? ||
                 (GetDefinedValue(a).Some? && key(b[m].value) == key(GetDefinedValue(a).value))))
    ensures GetDefinedValue(b).Some? == GetDefinedValue(a).Some?
    ensures GetDefinedValue(b).Some? ==> key(GetDefinedValue(b).value) == key(GetDefinedValue(a).value)
  {
    var ka, kb := FirstDefinedIndex(a), FirstDefinedIndex(b);
    if ka < |a| {
      assert b[ka] == a[ka];
      assert kb <= ka;
    } else {
      forall m | 0 <= m < |b|
        ensures b[m].None?
      {
      }
    }
  }

  /** Sea tiles never change what a row or column is known by, so
      replaceOriginPointNulls fills every hole as it would from the indexed
      grid, in whatever order the holes are visited. */
  lemma OriginFillStable(orig: Cells<Origin>)
    ensures StableFill(ReplaceOriginPointNulls, orig)
  {
    forall cur: Cells<Origin>, i: nat, j: nat |
      FilledFrom(orig, cur, ReplaceOriginPointNulls) && i < |orig| && j < |orig[i]|
      ensures ReplaceOriginPointNulls(cur, i, j) == ReplaceOriginPointNulls(orig, i, j)
    {
      var rowKey := (o: Origin) => (o.lat, o.rasterSize.y);
      var columnKey := (o: Origin) => (o.lon, o.rasterSize.x);
      var ra, rb := Row(i, orig), Row(i, cur);
      forall m | 0 <= m < |rb|
        ensures rb[m] == ra[m] ||
                (ra[m].None? && (rb[m].None? ||
                  (GetDefinedValue(ra).Some? && rowKey(rb[m].value) == rowKey(GetDefinedValue(ra).value))))
      {
        assert rb[m] == ra[m] || (ra[m].None? && rb[m] == ReplaceOriginPointNulls(orig, i, m));
      }
      FirstDefinedAgrees(ra, rb, rowKey);
      var ca, cb := Column(j, orig), Column(j, cur);
      forall m | 0 <= m < |cb|
        ensures cb[m] == ca[m] ||
                (ca[m].None? && (cb[m].None? ||
                  (GetDefinedValue(ca).Some? && columnKey(cb[m].value) == columnKey(GetDefinedValue(ca).value))))
      {
        if j < |orig[m]| {
          assert cb[m] == ca[m] || (ca[m].None? && cb[m] == ReplaceOriginPointNulls(orig, m, j));
        }
      }
      FirstDefinedAgrees(ca, cb, columnKey);
    }
  }

  // ---------------------------------------------------------------------
  // The grid object

  /** create2DArray: rowNum rows of columnNum nulls. */
  method Create2DArray<T>(rowNum: int, columnNum: int) returns (arr: Cells<T>)
    ensures |arr| == if rowNum < 0 then 0 else rowNum
    ensures forall r :: 0 <= r < |arr| ==> arr[r] == NullRow(if columnNum < 0 then 0 else columnNum)
  {
    arr := [];
    var row := 0;
    while row < rowNum
      invariant 0 <= row && (rowNum >= 0 ==> row <= rowNum) && (rowNum < 0 ==> row == 0) && |arr| == row
      invariant forall r :: 0 <= r < |arr| ==> arr[r] == NullRow(if columnNum < 0 then 0 else columnNum)
    {
      var tempRow: seq<Option<T>> := [];
      var column := 0;
      while column < columnNum
        invariant 0 <= column && (columnNum >= 0 ==> column <= columnNum) && (columnNum < 0 ==> column == 0)
        invariant tempRow == NullRow(column)
      {
        tempRow := tempRow + [None];
        column := column + 1;
      }
      arr := arr + [tempRow];
      row := row + 1;
    }
  }

  /** One of the two grids the indexer builds, updated in place. */
  class Grid<T(!new)> {
    var cells: Cells<T>

    /** The grid before the first tile (`undefined` in the source). */
    constructor ()
      ensures cells == []
    {
      cells := [];
    }

    /** addRowAt: a row of nulls as wide as the first row, spliced in before
        row `index`. */
    method AddRowAt(index: nat)
      requires cells != []
      modifies this
      ensures cells == InsertAt(old(cells), index, NullRow(|old(cells)[0]|))
    {
      var oneRowArray := Create2DArray<T>(1, |cells[0]|);
      cells := InsertAt(cells, index, oneRowArray[0]);
    }

    /** addColumnAt: a null spliced into every row before cell `index`. */
    method AddColumnAt(index: nat)
      modifies this
      ensures cells == InsertColumn(old(cells), index)
    {
      var rowNum := |cells|;
      var i := 0;
      while i < rowNum
        invariant 0 <= i <= rowNum == |cells|
        invariant forall r :: 0 <= r < i ==> cells[r] == InsertAt(old(cells)[r], index, None)
        invariant forall r :: i <= r < rowNum ==> cells[r] == old(cells)[r]
      {
        cells := cells[i := InsertAt(cells[i], index, None)];
        i := i + 1;
      }
    }

    /** placeTile: a 1x1 grid when there is none yet; otherwise the
        requested insertions, then the content spliced in at (i, j).
        `false` when row i does not exist and the source throws. */
    method PlaceTile(content: T, placement: Placement, expansion: Expansion) returns (ok: bool)
      modifies this
      ensures ok == Placed(old(cells), content, placement, expansion).Some?
      ensures ok ==> cells == Placed(old(cells), content, placement, expansion).value
      ensures !ok ==> old(cells) != [] && cells == Expanded(old(cells), placement, expansion)
    {
      if |cells| == 0 {
        var created := Create2DArray<T>(1, 1);
        assert created[0] == [None];
        assert created[0][0 := Some(content)] == [Some(content)];
        cells := [created[0][0 := Some(content)]];
        return true;
      }
      var i, j := placement.i, placement.j;
      if expansion.row {
        AddRowAt(i);
      }
      if expansion.column {
        AddColumnAt(j);
      }
      if i >= |cells| {
        return false;
      }
      var row := cells[i];
      row := SpliceReplace(row, j, Some(content));
      cells := cells[i := row];
      ok := true;
    }

    /** replaceNulls: row by row, fills the first null cell until none is
        left, each value computed by `fill` from the grid as it is at that
        moment. `fill` answering `None` is the source throwing, which stops
        the loop with the grid partly filled. When `fill` is stable, the
        result is as if every hole had been filled from the original grid. */
    method ReplaceNulls(fill: (Cells<T>, nat, nat) -> Option<T>) returns (ok: bool)
      modifies this
      ensures SameShape(old(cells), cells)
      ensures forall i, j :: 0 <= i < |cells| && 0 <= j < |cells[i]| && old(cells)[i][j].Some? ==>
                cells[i][j] == old(cells)[i][j]
      ensures ok ==> NoNulls(cells)
      ensures StableFill(fill, old(cells)) ==>
                (ok <==> forall i, j :: 0 <= i < |old(cells)| && 0 <= j < |old(cells)[i]| && old(cells)[i][j].None? ==>
                           fill(old(cells), i, j).Some?)
      ensures StableFill(fill, old(cells)) && ok ==>
                forall i, j :: 0 <= i < |cells| && 0 <= j < |cells[i]| && old(cells)[i][j].None? ==>
                  cells[i][j] == fill(old(cells), i, j)
    {
      ghost var orig: Cells<T> := cells;
      var i := 0;
      while i < |cells|
        invariant 0 <= i <= |cells|
        invariant SameShape(orig, cells)
        invariant forall r, c :: 0 <= r < |orig| && 0 <= c < |orig[r]| && orig[r][c].Some? ==> cells[r][c] == orig[r][c]
        invariant forall r :: i <= r < |cells| ==> cells[r] == orig[r]
        invariant forall r, c :: 0 <= r < i && 0 <= c < |cells[r]| ==> cells[r][c].Some?
        invariant StableFill(fill, orig) ==> FilledFrom(orig, cells, fill)
      {
        var rowOk := FillRow(i, fill, orig);
        if !rowOk {
          return false;
        }
        i := i + 1;
      }
      ok := true;
    }

    /** The inner loop of replaceNulls on row i: while the row has a null,
        fill the first one. `false` when `fill` throws; for a stable fill
        that happens only at a hole of the original grid whose fill fails. */
    method FillRow(i: nat, fill: (Cells<T>, nat, nat) -> Option<T>, ghost orig: Cells<T>) returns (ok: bool)
      requires i < |cells| && SameShape(orig, cells)
      requires forall r, c :: 0 <= r < |orig| && 0 <= c < |orig[r]| && orig[r][c].Some? ==> cells[r][c] == orig[r][c]
      requires cells[i] == orig[i]
      requires StableFill(fill, orig) ==> FilledFrom(orig, cells, fill)
      modifies this
      ensures SameShape(orig, cells)
      ensures forall r, c :: 0 <= r < |orig| && 0 <= c < |orig[r]| && orig[r][c].Some? ==> cells[r][c] == orig[r][c]
      ensures forall r :: 0 <= r < |cells| && r != i ==> cells[r] == old(cells)[r]
      ensures StableFill(fill, orig) ==> FilledFrom(orig, cells, fill)
      ensures ok ==> forall c :: 0 <= c < |cells[i]| ==> cells[i][c].Some?
      ensures !ok && StableFill(fill, orig) ==>
                exists c :: 0 <= c < |orig[i]| && orig[i][c].None? && fill(orig, i, c).None?
    {
      var j := IndexOfNull(cells[i]);
      while j >= 0
        invariant SameShape(orig, cells)
        invariant forall r, c :: 0 <= r < |orig| && 0 <= c < |orig[r]| && orig[r][c].Some? ==> cells[r][c] == orig[r][c]
        invariant forall r :: 0 <= r < |cells| && r != i ==> cells[r] == old(cells)[r]
        invariant StableFill(fill, orig) ==> FilledFrom(orig, cells, fill)
        invariant j == IndexOfNull(cells[i])
        decreases if j < 0 then 0 else |cells[i]| - j
      {
        var value := fill(cells, i, j);
        if value.None? {
          if StableFill(fill, orig) {
            assert orig[i][j].None? && fill(orig, i, j).None?;
          }
          return false;
        }
        cells := cells[i := cells[i][j := value]];
        j := IndexOfNull(cells[i]);
      }
      ok := true;
    }
  }

  // ---------------------------------------------------------------------
  // Indexing a directory

  /** getFileExtension: the text after the last '.', or the whole name when
      it has none. */
  function GetFileExtension(fileName: string): (ext: string)
    ensures '.' !in ext
    ensures |ext| <= |fileName| && fileName[|fileName| - |ext|..] == ext
    ensures |ext| < |fileName| ==> fileName[|fileName| - |ext| - 1] == '.'
  {
    if fileName == [] then []
    else if fileName[|fileName| - 1] == '.' then []
    else GetFileExtension(fileName[..|fileName| - 1]) + [fileName[|fileName| - 1]]
  }

  /** openDataset: only files with an allowed extension are handed to the
      raster library. `gdalOpen` is the library's `open` (failures included)
      of the dataset directory joined with the name, so it takes names
      relative to that directory; the mosaic's reader passes the joined
      path itself. */
  function OpenDataset(fileName: string, gdalOpen: string -> Option<Dataset>): (ds: Option<Dataset>)
    ensures ds.Some? ==> GetFileExtension(fileName) in AllowedFileExtensions
    ensures GetFileExtension(fileName) in AllowedFileExtensions ==> ds == gdalOpen(fileName)
  {
    if GetFileExtension(fileName) in AllowedFileExtensions then gdalOpen(fileName) else None
  }

  /** The origin the indexer records for a tile: pixel (0, 0) of its
      geotransform, and its raster size. */
  function OriginOf(ds: Dataset): (o: Origin)
    ensures o.lat == ds.geoTransform.originLat && o.lon == ds.geoTransform.originLon
    ensures o.rasterSize == ds.rasterSize
  {
    Origin(TrueLat(0.0, 0.0, ds.geoTransform), TrueLon(0.0, 0.0, ds.geoTransform), ds.rasterSize)
  }

  /** The tile a listed file contributes: the origin of the dataset it
      opens to, when it opens. */
  function TileOf(gdalOpen: string -> Option<Dataset>): string -> Option<Origin>
  {
    name => match OpenDataset(name, gdalOpen)
            case None => None
            case Some(ds) => Some(OriginOf(ds))
  }

  /** A name and an origin that belong together: a listed file and the
      tile it contributes. */
  ghost predicate IndexedTile(name: string, o: Origin, fileNames: seq<string>, tileOf: string -> Option<Origin>)
  {
    name in fileNames && tileOf(name) == Some(o)
  }

  ghost function TileRelation(fileNames: seq<string>, tileOf: string -> Option<Origin>): (string, Origin) -> bool
  {
    (name, o) => IndexedTile(name, o, fileNames, tileOf)
  }

  /** No listed file contributes a tile. */
  ghost predicate NoneOpens(fileNames: seq<string>, tileOf: string -> Option<Origin>)
  {
    forall name :: name in fileNames ==> tileOf(name).None?
  }

  /** No listed file contributes a tile exactly when none opens. */
  lemma NoneOpensUnderOpenDataset(fileNames: seq<string>, gdalOpen: string -> Option<Dataset>)
    ensures NoneOpens(fileNames, TileOf(gdalOpen)) <==>
              forall k :: 0 <= k < |fileNames| ==> OpenDataset(fileNames[k], gdalOpen).None?
  {
    var tileOf := TileOf(gdalOpen);
    if forall k :: 0 <= k < |fileNames| ==> OpenDataset(fileNames[k], gdalOpen).None? {
      forall name | name in fileNames
        ensures tileOf(name).None?
      {
        var k :| 0 <= k < |fileNames| && fileNames[k] == name;
        assert OpenDataset(name, gdalOpen).None?;
      }
    }
    if NoneOpens(fileNames, tileOf) {
      forall k | 0 <= k < |fileNames|
        ensures OpenDataset(fileNames[k], gdalOpen).None?
      {
        assert fileNames[k] in fileNames;
        assert tileOf(fileNames[k]).None?;
      }
    }
  }

  /** The two grids indexTiles builds side by side. */
  datatype TileGrids = TileGrids(names: Cells<string>, origins: Cells<Origin>)

  /** One iteration of indexTiles on the grids: the placement and expansion
      are found from the origin grid, then the origin and the name are
      placed there. `None` if either placement throws. */
  function IndexStep(t: TileGrids, name: string, origin: Origin): Option<TileGrids>
  {
    var p := TilePlacement(t.origins, origin);
    var e := CalculateExpansionDirection(origin, t.origins, p);
    var names := Placed(t.names, name, p, e);
    var origins := Placed(t.origins, origin, p, e);
    if names.Some? && origins.Some? then Some(TileGrids(names.value, origins.value)) else None
  }

  /** The grids indexTiles builds from the files in listing order; files
      that contribute no tile leave them unchanged. */
  function IndexedGrids(fileNames: seq<string>, tileOf: string -> Option<Origin>): Option<TileGrids>
  {
    if fileNames == [] then Some(TileGrids([], []))
    else
      var front := IndexedGrids(fileNames[..|fileNames| - 1], tileOf);
      var last := fileNames[|fileNames| - 1];
      match tileOf(last)
      case None => front
      case Some(o) => if front.None? then None else IndexStep(front.value, last, o)
  }

  /** Every listed file that contributes a tile has one at its latitude and
      longitude. */
  ghost predicate HoldsOpened(g: Cells<Origin>, fileNames: seq<string>, tileOf: string -> Option<Origin>)
  {
    forall name :: name in fileNames && tileOf(name).Some? ==>
      Holds(g, tileOf(name).value.lat, tileOf(name).value.lon)
  }

  /** What indexTiles guarantees about its grids: the names and the origins
      are paired cell by cell; they stay undefined exactly when no file
      opens; otherwise the origins are ordered (rows by strictly decreasing
      latitude, columns by strictly increasing longitude, every row and
      column holding a tile, each tile at its row's latitude and its
      column's longitude); and every file that opens has a tile at its
      latitude and longitude. */
  ghost predicate WellIndexed(t: TileGrids, fileNames: seq<string>, tileOf: string -> Option<Origin>)
  {
    Paired(t.names, t.origins, TileRelation(fileNames, tileOf)) &&
    (t.origins == [] <==> NoneOpens(fileNames, tileOf)) &&
    (t.origins != [] ==> Ordered(t.origins)) &&
    HoldsOpened(t.origins, fileNames, tileOf)
  }

  /** A relation on a shorter listing holds on a longer one. */
  lemma PairedWeaken(names: Cells<string>, origins: Cells<Origin>, front: seq<string>, fileNames: seq<string>,
                     tileOf: string -> Option<Origin>)
    requires forall name :: name in front ==> name in fileNames
    requires Paired(names, origins, TileRelation(front, tileOf))
    ensures Paired(names, origins, TileRelation(fileNames, tileOf))
  {
    forall r, c | 0 <= r < |names| && 0 <= c < |names[r]| && names[r][c].Some?
      ensures TileRelation(fileNames, tileOf)(names[r][c].value, origins[r][c].value)
    {
      assert TileRelation(front, tileOf)(names[r][c].value, origins[r][c].value);
    }
  }

  lemma NoneOpensExtend(fileNames: seq<string>, tileOf: string -> Option<Origin>)
    requires fileNames != []
    ensures NoneOpens(fileNames, tileOf) <==>
              NoneOpens(fileNames[..|fileNames| - 1], tileOf) && tileOf(fileNames[|fileNames| - 1]).None?
  {
    var front, last := fileNames[..|fileNames| - 1], fileNames[|fileNames| - 1];
    assert fileNames == front + [last];
  }

  /** Tiles that stay, plus the last file's tile, keep every contributed
      tile held. */
  lemma HoldsOpenedExtend(g: Cells<Origin>, h: Cells<Origin>, fileNames: seq<string>, tileOf: string -> Option<Origin>)
    requires fileNames != []
    requires HoldsOpened(g, fileNames[..|fileNames| - 1], tileOf)
    requires forall lat, lon :: Holds(g, lat, lon) ==> Holds(h, lat, lon)
    requires var o := tileOf(fileNames[|fileNames| - 1]); o.Some? ==> Holds(h, o.value.lat, o.value.lon)
    ensures HoldsOpened(h, fileNames, tileOf)
  {
    var front, last := fileNames[..|fileNames| - 1], fileNames[|fileNames| - 1];
    assert fileNames == front + [last];
    forall name | name in fileNames && tileOf(name).Some?
      ensures Holds(h, tileOf(name).value.lat, tileOf(name).value.lon)
    {
      if name != last {
        assert name in front;
        assert Holds(g, tileOf(name).value.lat, tileOf(name).value.lon);
      }
    }
  }

  /** One more listed file keeps the grids well indexed. */
  lemma IndexStepWell(t: TileGrids, fileNames: seq<string>, tileOf: string -> Option<Origin>)
    requires fileNames != [] && WellIndexed(t, fileNames[..|fileNames| - 1], tileOf)
    ensures var last := fileNames[|fileNames| - 1];
            (tileOf(last).None? ==> WellIndexed(t, fileNames, tileOf)) &&
            (tileOf(last).Some? ==> IndexStep(t, last, tileOf(last).value).Some? &&
                                    WellIndexed(IndexStep(t, last, tileOf(last).value).value, fileNames, tileOf))
  {
    var front, last := fileNames[..|fileNames| - 1], fileNames[|fileNames| - 1];
    assert last in fileNames;
    PairedWeaken(t.names, t.origins, front, fileNames, tileOf);
    NoneOpensExtend(fileNames, tileOf);
    if tileOf(last).None? {
      HoldsOpenedExtend(t.origins, t.origins, fileNames, tileOf);
    } else {
      var o := tileOf(last).value;
      var rel := TileRelation(fileNames, tileOf);
      assert rel(last, o);
      var p := TilePlacement(t.origins, o);
      var e := CalculateExpansionDirection(o, t.origins, p);
      PlacementKeepsPairs(t.names, t.origins, rel, last, o, p, e);
      if t.origins == [] {
        FirstTileLaid(o);
        LaidIsOrdered([[Some(o)]], [o.lat], [o.lon]);
      } else {
        OrderedStep(t.origins, o);
      }
      var h := IndexStep(t, last, o).value;
      HoldsOpenedExtend(t.origins, h.origins, fileNames, tileOf);
    }
  }

  /** Indexing never throws, and leaves grids that are well indexed. */
  lemma {:induction false} IndexedGridsWell(fileNames: seq<string>, tileOf: string -> Option<Origin>)
    ensures IndexedGrids(fileNames, tileOf).Some?
    ensures WellIndexed(IndexedGrids(fileNames, tileOf).value, fileNames, tileOf)
  {
    if fileNames != [] {
      var front := fileNames[..|fileNames| - 1];
      IndexedGridsWell(front, tileOf);
      IndexStepWell(IndexedGrids(front, tileOf).value, fileNames, tileOf);
    }
  }

  /** The grids built from the first k files are rectangular and paired
      under the relation of the whole listing. */
  lemma PrefixGridsPaired(fileNames: seq<string>, k: nat, tileOf: string -> Option<Origin>)
    requires k <= |fileNames|
    ensures IndexedGrids(fileNames[..k], tileOf).Some?
    ensures var t := IndexedGrids(fileNames[..k], tileOf).value;
            Rectangular(t.origins) && Paired(t.names, t.origins, TileRelation(fileNames, tileOf))
  {
    IndexedGridsWell(fileNames[..k], tileOf);
    var t := IndexedGrids(fileNames[..k], tileOf).value;
    PairedWeaken(t.names, t.origins, fileNames[..k], fileNames, tileOf);
  }

  /** The fold one file further: the next file's tile, if any, is placed
      in the grids built from the files before it. */
  lemma IndexedGridsNext(fileNames: seq<string>, k: nat, tileOf: string -> Option<Origin>)
    requires k < |fileNames|
    ensures IndexedGrids(fileNames[..k], tileOf).Some?
    ensures IndexedGrids(fileNames[..k + 1], tileOf) ==
              match tileOf(fileNames[k])
              case None => IndexedGrids(fileNames[..k], tileOf)
              case Some(o) => IndexStep(IndexedGrids(fileNames[..k], tileOf).value, fileNames[k], o)
  {
    PrefixGridsPaired(fileNames, k, tileOf);
    assert fileNames[..k + 1][..k] == fileNames[..k];
  }

  /** indexTiles: every file that opens is placed in both grids at the same
      position; files that do not open are skipped. */
  method IndexTiles(fileNames: seq<string>, gdalOpen: string -> Option<Dataset>)
    returns (tileNames: Grid<string>, originPoints: Grid<Origin>)
    ensures fresh(tileNames) && fresh(originPoints) && tileNames as object != originPoints
    ensures IndexedGrids(fileNames, TileOf(gdalOpen)) == Some(TileGrids(tileNames.cells, originPoints.cells))
    ensures Rectangular(originPoints.cells)
    ensures WellIndexed(TileGrids(tileNames.cells, originPoints.cells), fileNames, TileOf(gdalOpen))
  {
    tileNames := new Grid<string>();
    originPoints := new Grid<Origin>();
    ghost var tileOf := TileOf(gdalOpen);
    for k := 0 to |fileNames|
      invariant IndexedGrids(fileNames[..k], tileOf) == Some(TileGrids(tileNames.cells, originPoints.cells))
    {
      IndexFile(tileNames, originPoints, fileNames, k, gdalOpen);
    }
    assert fileNames[..|fileNames|] == fileNames;
    IndexedGridsWell(fileNames, tileOf);
  }

  /** The body of indexTiles' loop for the k-th file: open it and, when it
      opens, place its origin and its name in both grids. */
  method IndexFile(tileNames: Grid<string>, originPoints: Grid<Origin>, fileNames: seq<string>, k: nat,
                   gdalOpen: string -> Option<Dataset>)
    requires k < |fileNames| && tileNames as object != originPoints
    requires IndexedGrids(fileNames[..k], TileOf(gdalOpen)) == Some(TileGrids(tileNames.cells, originPoints.cells))
    modifies tileNames, originPoints
    ensures IndexedGrids(fileNames[..k + 1], TileOf(gdalOpen)) == Some(TileGrids(tileNames.cells, originPoints.cells))
  {
    ghost var t := TileGrids(tileNames.cells, originPoints.cells);
    var fileName := fileNames[k];
    var dataset := OpenDataset(fileName, gdalOpen);
    if dataset.Some? {
      var origin := OriginOf(dataset.value);
      OpenedStep(fileNames, k, TileOf(gdalOpen), t, origin);
      PlaceInBoth(tileNames, originPoints, fileName, origin, TileRelation(fileNames, TileOf(gdalOpen)));
    } else {
      ClosedStep(fileNames, k, TileOf(gdalOpen), t);
    }
  }

  /** A file that opens: the grids built so far can take its tile, and the
      fold one file further places it. */
  lemma OpenedStep(fileNames: seq<string>, k: nat, tileOf: string -> Option<Origin>, t: TileGrids, origin: Origin)
    requires k < |fileNames| && IndexedGrids(fileNames[..k], tileOf) == Some(t)
    requires tileOf(fileNames[k]) == Some(origin)
    ensures Rectangular(t.origins) && Paired(t.names, t.origins, TileRelation(fileNames, tileOf))
    ensures TileRelation(fileNames, tileOf)(fileNames[k], origin)
    ensures IndexedGrids(fileNames[..k + 1], tileOf) == IndexStep(t, fileNames[k], origin)
  {
    IndexedGridsNext(fileNames, k, tileOf);
    PrefixGridsPaired(fileNames, k, tileOf);
  }

  /** A file that does not open leaves the fold where it was. */
  lemma ClosedStep(fileNames: seq<string>, k: nat, tileOf: string -> Option<Origin>, t: TileGrids)
    requires k < |fileNames| && IndexedGrids(fileNames[..k], tileOf) == Some(t)
    requires tileOf(fileNames[k]).None?
    ensures IndexedGrids(fileNames[..k + 1], tileOf) == Some(t)
  {
    IndexedGridsNext(fileNames, k, tileOf);
  }

  /** One iteration of indexTiles: find the placement and expansion of a
      tile from the origin grid, then place its origin and its name at the
      same position of the two grids. Both placements succeed. */
  method PlaceInBoth(tileNames: Grid<string>, originPoints: Grid<Origin>, fileName: string, origin: Origin,
                     ghost rel: (string, Origin) -> bool)
    requires tileNames as object != originPoints
    requires Rectangular(originPoints.cells) && Paired(tileNames.cells, originPoints.cells, rel)
    requires rel(fileName, origin)
    modifies tileNames, originPoints
    ensures IndexStep(TileGrids(old(tileNames.cells), old(originPoints.cells)), fileName, origin) ==
              Some(TileGrids(tileNames.cells, originPoints.cells))
    ensures Rectangular(originPoints.cells) && Paired(tileNames.cells, originPoints.cells, rel)
    ensures originPoints.cells != []
  {
    var placement := GetTilePlacement(originPoints.cells, origin);
    var expansion := CalculateExpansionDirection(origin, originPoints.cells, placement);
    ghost var names: Cells<string>, origins: Cells<Origin> := tileNames.cells, originPoints.cells;
    if origins != [] {
      ExpansionCoversBorder(origins, origin, placement);
      PlacementKeepsRectangular(origins, origin, placement, expansion);
    }
    PlacementKeepsPairs(names, origins, rel, fileName, origin, placement, expansion);
    var placedOrigin := originPoints.PlaceTile(origin, placement, expansion);
    var placedName := tileNames.PlaceTile(fileName, placement, expansion);
  }

  // ---------------------------------------------------------------------
  // Rebuilding from another listing order

  /** Two strictly decreasing sequences with the same elements are equal. */
  lemma {:induction false} DescendingUnique(xs: seq<real>, ys: seq<real>)
    requires Descending(xs) && Descending(ys)
    requires forall x :: x in xs <==> x in ys
    ensures xs == ys
    decreases |xs|
  {
    if xs != [] {
      assert xs[0] in xs;
    }
    if ys != [] {
      assert ys[0] in ys;
    }
    if xs != [] && ys != [] {
      assert xs[0] == ys[0] by {
        assert xs[0] in ys && ys[0] in xs;
        var k :| 0 <= k < |ys| && ys[k] == xs[0];
        var m :| 0 <= m < |xs| && xs[m] == ys[0];
        assert ys[0] >= ys[k] && xs[0] >= xs[m];
      }
      forall x
        ensures x in xs[1..] <==> x in ys[1..]
      {
        TailMembersDescending(xs, x);
        TailMembersDescending(ys, x);
      }
      DescendingUnique(xs[1..], ys[1..]);
      assert xs == [xs[0]] + xs[1..] && ys == [ys[0]] + ys[1..];
    }
  }

  /** The tail of a strictly decreasing sequence holds every element but
      the first. */
  lemma TailMembersDescending(xs: seq<real>, x: real)
    requires xs != [] && Descending(xs)
    ensures x in xs[1..] <==> x in xs && x != xs[0]
  {
    if x in xs && x != xs[0] {
      var k :| 0 <= k < |xs| && xs[k] == x;
      assert xs[1..][k - 1] == x;
    }
  }

  /** Two strictly increasing sequences with the same elements are equal. */
  lemma {:induction false} AscendingUnique(xs: seq<real>, ys: seq<real>)
    requires Ascending(xs) && Ascending(ys)
    requires forall x :: x in xs <==> x in ys
    ensures xs == ys
    decreases |xs|
  {
    if xs != [] {
      assert xs[0] in xs;
    }
    if ys != [] {
      assert ys[0] in ys;
    }
    if xs != [] && ys != [] {
      assert xs[0] == ys[0] by {
        assert xs[0] in ys && ys[0] in xs;
        var k :| 0 <= k < |ys| && ys[k] == xs[0];
        var m :| 0 <= m < |xs| && xs[m] == ys[0];
        assert ys[0] <= ys[k] && xs[0] <= xs[m];
      }
      forall x
        ensures x in xs[1..] <==> x in ys[1..]
      {
        TailMembersAscending(xs, x);
        TailMembersAscending(ys, x);
      }
      AscendingUnique(xs[1..], ys[1..]);
      assert xs == [xs[0]] + xs[1..] && ys == [ys[0]] + ys[1..];
    }
  }

  lemma TailMembersAscending(xs: seq<real>, x: real)
    requires xs != [] && Ascending(xs)
    ensures x in xs[1..] <==> x in xs && x != xs[0]
  {
    if x in xs && x != xs[0] {
      var k :| 0 <= k < |xs| && xs[k] == x;
      assert xs[1..][k - 1] == x;
    }
  }

  /** When every (lat, lon) held by one laid-out grid is held by another,
      every row latitude and every column longitude of the first is one of
      the second's. */
  lemma LatsWithin(g1: Cells<Origin>, lats1: seq<real>, lons1: seq<real>,
                   g2: Cells<Origin>, lats2: seq<real>, lons2: seq<real>)
    requires Laid(g1, lats1, lons1) && Laid(g2, lats2, lons2)
    requires forall lat, lon :: Holds(g1, lat, lon) ==> Holds(g2, lat, lon)
    ensures forall x :: x in lats1 ==> x in lats2
    ensures forall y :: y in lons1 ==> y in lons2
  {
    forall x | x in lats1
      ensures x in lats2
    {
      var r :| 0 <= r < |lats1| && lats1[r] == x;
      assert RowHolds(g1, r);
      var c :| 0 <= c < |g1[r]| && g1[r][c].Some?;
      assert Holds(g1, x, g1[r][c].value.lon);
      var r2, c2 :| 0 <= r2 < |g2| && 0 <= c2 < |g2[r2]| && g2[r2][c2].Some? &&
                    g2[r2][c2].value.lat == x && g2[r2][c2].value.lon == g1[r][c].value.lon;
      assert lats2[r2] == x;
    }
    forall y | y in lons1
      ensures y in lons2
    {
      var c :| 0 <= c < |lons1| && lons1[c] == y;
      assert ColumnHolds(g1, c);
      var r :| 0 <= r < |g1| && c < |g1[r]| && g1[r][c].Some?;
      assert Holds(g1, g1[r][c].value.lat, y);
      var r2, c2 :| 0 <= r2 < |g2| && 0 <= c2 < |g2[r2]| && g2[r2][c2].Some? &&
                    g2[r2][c2].value.lat == g1[r][c].value.lat && g2[r2][c2].value.lon == y;
      assert lons2[c2] == y;
    }
  }

  /** Two grids laid out along the same latitudes and longitudes, where
      every (lat, lon) held by the first is held by the second, have the
      second's tile wherever the first has one. */
  lemma OccupancyWithin(g1: Cells<Origin>, g2: Cells<Origin>, lats: seq<real>, lons: seq<real>)
    requires Laid(g1, lats, lons) && Laid(g2, lats, lons)
    requires forall lat, lon :: Holds(g1, lat, lon) ==> Holds(g2, lat, lon)
    ensures forall r, c :: 0 <= r < |g1| && 0 <= c < |g1[r]| && g1[r][c].Some? ==> g2[r][c].Some?
  {
    forall r, c | 0 <= r < |g1| && 0 <= c < |g1[r]| && g1[r][c].Some?
      ensures g2[r][c].Some?
    {
      assert Holds(g1, lats[r], lons[c]);
      var r2, c2 :| 0 <= r2 < |g2| && 0 <= c2 < |g2[r2]| && g2[r2][c2].Some? &&
                    g2[r2][c2].value.lat == lats[r] && g2[r2][c2].value.lon == lons[c];
      assert lats[r2] == lats[r] && lons[c2] == lons[c];
      assert r2 == r && c2 == c;
    }
  }

  /** An ordered grid's layout is fixed by the (lat, lon) positions it
      holds: two ordered grids holding the same positions have the same
      rows, the same columns, and tiles in the same cells. */
  lemma LayoutUnique(g1: Cells<Origin>, g2: Cells<Origin>)
    requires Ordered(g1) && Ordered(g2)
    requires forall lat, lon :: Holds(g1, lat, lon) <==> Holds(g2, lat, lon)
    ensures RowLats(g1) == RowLats(g2) && ColumnLons(g1) == ColumnLons(g2)
    ensures |g1| == |g2| && Width(g1) == Width(g2)
    ensures forall r, c :: 0 <= r < |g1| && 0 <= c < |g1[r]| ==>
              c < |g2[r]| && (g1[r][c].Some? <==> g2[r][c].Some?)
  {
    var lats1, lons1, lats2, lons2 := RowLats(g1), ColumnLons(g1), RowLats(g2), ColumnLons(g2);
    LatsWithin(g1, lats1, lons1, g2, lats2, lons2);
    LatsWithin(g2, lats2, lons2, g1, lats1, lons1);
    DescendingUnique(lats1, lats2);
    AscendingUnique(lons1, lons2);
    OccupancyWithin(g1, g2, lats1, lons1);
    OccupancyWithin(g2, g1, lats1, lons1);
  }

  /** Some listed file contributes a tile at (lat, lon). */
  ghost predicate ListedAt(fileNames: seq<string>, tileOf: string -> Option<Origin>, lat: real, lon: real)
  {
    exists name :: name in fileNames && tileOf(name).Some? && tileOf(name).value.lat == lat && tileOf(name).value.lon == lon
  }

  /** The grid indexTiles builds holds exactly the positions of the tiles
      the listed files contribute. */
  lemma HeldMeansListed(fileNames: seq<string>, tileOf: string -> Option<Origin>)
    ensures IndexedGrids(fileNames, tileOf).Some?
    ensures forall lat, lon :: Holds(IndexedGrids(fileNames, tileOf).value.origins, lat, lon) <==>
                               ListedAt(fileNames, tileOf, lat, lon)
  {
    IndexedGridsWell(fileNames, tileOf);
    var t := IndexedGrids(fileNames, tileOf).value;
    forall lat, lon
      ensures Holds(t.origins, lat, lon) <==> ListedAt(fileNames, tileOf, lat, lon)
    {
      if Holds(t.origins, lat, lon) {
        var r, c :| 0 <= r < |t.origins| && 0 <= c < |t.origins[r]| && t.origins[r][c].Some? &&
                    t.origins[r][c].value.lat == lat && t.origins[r][c].value.lon == lon;
        assert TileRelation(fileNames, tileOf)(t.names[r][c].value, t.origins[r][c].value);
        assert tileOf(t.names[r][c].value) == t.origins[r][c];
      }
      if ListedAt(fileNames, tileOf, lat, lon) {
        var name :| name in fileNames && tileOf(name).Some? && tileOf(name).value.lat == lat && tileOf(name).value.lon == lon;
        assert Holds(t.origins, tileOf(name).value.lat, tileOf(name).value.lon);
      }
    }
  }

  /** Indexing the same files listed in another order gives the same
      layout: the same row latitudes, column longitudes, and occupied
      cells. Only which of several tiles at one (lat, lon) ends up in a
      cell can depend on the order. */
  lemma IndexingOrderIndependent(fileNames: seq<string>, fileNames': seq<string>, tileOf: string -> Option<Origin>)
    requires forall name :: name in fileNames <==> name in fileNames'
    ensures IndexedGrids(fileNames, tileOf).Some? && IndexedGrids(fileNames', tileOf).Some?
    ensures var g, g' := IndexedGrids(fileNames, tileOf).value.origins, IndexedGrids(fileNames', tileOf).value.origins;
            |g| == |g'| && Width(g) == Width(g') &&
            RowLats(g) == RowLats(g') && ColumnLons(g) == ColumnLons(g') &&
            forall r, c :: 0 <= r < |g| && 0 <= c < |g[r]| ==> c < |g'[r]| && (g[r][c].Some? <==> g'[r][c].Some?)
  {
    IndexedGridsOrdered(fileNames, tileOf);
    IndexedGridsOrdered(fileNames', tileOf);
    HeldMeansListed(fileNames, tileOf);
    HeldMeansListed(fileNames', tileOf);
    var g, g' := IndexedGrids(fileNames, tileOf).value.origins, IndexedGrids(fileNames', tileOf).value.origins;
    assert forall lat, lon :: ListedAt(fileNames, tileOf, lat, lon) <==> ListedAt(fileNames', tileOf, lat, lon);
    assert NoneOpens(fileNames, tileOf) <==> NoneOpens(fileNames', tileOf);
    if g != [] {
      LayoutUnique(g, g');
    }
  }

  /** The origin grid indexTiles builds is undefined exactly when no file
      opens, and ordered otherwise. */
  lemma IndexedGridsOrdered(fileNames: seq<string>, tileOf: string -> Option<Origin>)
    ensures IndexedGrids(fileNames, tileOf).Some?
    ensures var g := IndexedGrids(fileNames, tileOf).value.origins;
            (g == [] <==> NoneOpens(fileNames, tileOf)) && (g != [] ==> Ordered(g))
  {
    IndexedGridsWell(fileNames, tileOf);
  }

  /** No two listed files contribute tiles at the same (lat, lon). */
  ghost predicate DistinctPositions(fileNames: seq<string>, tileOf: string -> Option<Origin>)
  {
    forall n1, n2 :: n1 in fileNames && n2 in fileNames && tileOf(n1).Some? && tileOf(n2).Some? &&
                     tileOf(n1).value.lat == tileOf(n2).value.lat && tileOf(n1).value.lon == tileOf(n2).value.lon ==>
                       n1 == n2
  }

  /** When no two files share a position, indexing the same files in any
      order builds the very same grids. */
  lemma IndexingRebuildsSameGrids(fileNames: seq<string>, fileNames': seq<string>, tileOf: string -> Option<Origin>)
    requires forall name :: name in fileNames <==> name in fileNames'
    requires DistinctPositions(fileNames, tileOf)
    ensures IndexedGrids(fileNames, tileOf) == IndexedGrids(fileNames', tileOf)
  {
    IndexingOrderIndependent(fileNames, fileNames', tileOf);
    IndexedGridsWell(fileNames, tileOf);
    IndexedGridsWell(fileNames', tileOf);
    var t, t' := IndexedGrids(fileNames, tileOf).value, IndexedGrids(fileNames', tileOf).value;
    if t.origins != [] {
      SameCells(t, t', fileNames, fileNames', tileOf);
      GridsEqual(t.origins, t'.origins);
      GridsEqual(t.names, t'.names);
    } else {
      assert t.names == [] && t'.names == [];
    }
  }

  /** Grids of one shape with equal cells are equal. */
  lemma GridsEqual<T>(a: Cells<T>, b: Cells<T>)
    requires SameShape(a, b)
    requires forall r, c :: 0 <= r < |a| && 0 <= c < |a[r]| ==> a[r][c] == b[r][c]
    ensures a == b
  {
    forall r | 0 <= r < |a|
      ensures a[r] == b[r]
    {
    }
  }

  /** Two grids indexed from the same files with the same layout, under
      distinct positions: the same shape and the same cells. */
  lemma SameCells(t: TileGrids, t': TileGrids, fileNames: seq<string>, fileNames': seq<string>,
                  tileOf: string -> Option<Origin>)
    requires forall name :: name in fileNames <==> name in fileNames'
    requires DistinctPositions(fileNames, tileOf)
    requires Paired(t.names, t.origins, TileRelation(fileNames, tileOf))
    requires Paired(t'.names, t'.origins, TileRelation(fileNames', tileOf))
    requires t.origins != [] && t'.origins != [] && Ordered(t.origins) && Ordered(t'.origins)
    requires |t.origins| == |t'.origins| && Width(t.origins) == Width(t'.origins)
    requires RowLats(t.origins) == RowLats(t'.origins) && ColumnLons(t.origins) == ColumnLons(t'.origins)
    requires forall r, c :: 0 <= r < |t.origins| && 0 <= c < |t.origins[r]| ==>
               c < |t'.origins[r]| && (t.origins[r][c].Some? <==> t'.origins[r][c].Some?)
    ensures SameShape(t.origins, t'.origins) && SameShape(t.names, t'.names)
    ensures forall r, c :: 0 <= r < |t.origins| && 0 <= c < |t.origins[r]| ==> t.origins[r][c] == t'.origins[r][c]
    ensures forall r, c :: 0 <= r < |t.names| && 0 <= c < |t.names[r]| ==> t.names[r][c] == t'.names[r][c]
  {
    assert Rectangular(t.origins) && Rectangular(t'.origins);
    forall r, c | 0 <= r < |t.origins| && 0 <= c < |t.origins[r]|
      ensures t.origins[r][c] == t'.origins[r][c] && t.names[r][c] == t'.names[r][c]
    {
      SameCell(t, t', fileNames, fileNames', tileOf, r, c);
    }
  }

  /** One cell of two grids indexed from the same files, under distinct
      positions: the same origin and the same name. */
  lemma SameCell(t: TileGrids, t': TileGrids, fileNames: seq<string>, fileNames': seq<string>,
                 tileOf: string -> Option<Origin>, r: nat, c: nat)
    requires forall name :: name in fileNames <==> name in fileNames'
    requires DistinctPositions(fileNames, tileOf)
    requires Paired(t.names, t.origins, TileRelation(fileNames, tileOf))
    requires Paired(t'.names, t'.origins, TileRelation(fileNames', tileOf))
    requires t.origins != [] && t'.origins != [] && Ordered(t.origins) && Ordered(t'.origins)
    requires RowLats(t.origins) == RowLats(t'.origins) && ColumnLons(t.origins) == ColumnLons(t'.origins)
    requires r < |t.origins| && c < |t.origins[r]| && c < |t'.origins[r]|
    requires t.origins[r][c].Some? <==> t'.origins[r][c].Some?
    ensures t.origins[r][c] == t'.origins[r][c] && t.names[r][c] == t'.names[r][c]
  {
    var g, g' := t.origins, t'.origins;
    LaidIsOrdered(g, RowLats(g), ColumnLons(g));
    LaidIsOrdered(g', RowLats(g'), ColumnLons(g'));
    if g[r][c].Some? {
      var n, n' := t.names[r][c].value, t'.names[r][c].value;
      assert TileRelation(fileNames, tileOf)(n, g[r][c].value);
      assert TileRelation(fileNames', tileOf)(n', g'[r][c].value);
      assert tileOf(n).value.lat == RowLats(g)[r] == tileOf(n').value.lat;
      assert tileOf(n).value.lon == ColumnLons(g)[c] == tileOf(n').value.lon;
      assert n == n';
    }
  }

  /** The grids runIndexer leaves: those indexTiles built, with every hole
      of the name grid holding "sea_tile" and every hole of the origin grid
      holding the origin replaceOriginPointNulls infers for it. */
  ghost predicate SeaFilled(t: TileGrids, names: Cells<string>, origins: Cells<Origin>)
  {
    SameShape(t.names, names) && SameShape(t.origins, origins) &&
    (forall i, j :: 0 <= i < |names| && 0 <= j < |names[i]| ==>
       names[i][j] == if t.names[i][j].Some? then t.names[i][j] else Some(SeaTileName)) &&
    (forall i, j :: 0 <= i < |origins| && 0 <= j < |origins[i]| ==>
       origins[i][j] == if t.origins[i][j].Some? then t.origins[i][j] else ReplaceOriginPointNulls(t.origins, i, j))
  }

  /** runIndexer without its file writes: index, then fill the holes of the
      name grid with "sea_tile" and those of the origin grid with inferred
      sea-tile origins. `ok` is false when the source throws, which happens
      exactly when no file opens (the grids stay undefined): in an ordered
      grid every row and every column holds a tile, so an origin can be
      inferred for every hole. */
  method RunIndexer(fileNames: seq<string>, gdalOpen: string -> Option<Dataset>)
    returns (tileNames: Grid<string>, originPoints: Grid<Origin>, ok: bool)
    ensures fresh(tileNames) && fresh(originPoints)
    ensures ok <==> exists k :: 0 <= k < |fileNames| && OpenDataset(fileNames[k], gdalOpen).Some?
    ensures IndexedGrids(fileNames, TileOf(gdalOpen)).Some?
    ensures SeaFilled(IndexedGrids(fileNames, TileOf(gdalOpen)).value, tileNames.cells, originPoints.cells)
    ensures Rectangular(originPoints.cells) && SameShape(tileNames.cells, originPoints.cells)
    ensures NoNulls(tileNames.cells) && NoNulls(originPoints.cells)
    ensures ok ==> Ordered(originPoints.cells)
    ensures HoldsOpened(originPoints.cells, fileNames, TileOf(gdalOpen))
    ensures forall i, j :: 0 <= i < |tileNames.cells| && 0 <= j < |tileNames.cells[i]| ==>
              tileNames.cells[i][j] == Some(SeaTileName) ||
              (originPoints.cells[i][j].Some? &&
               IndexedTile(tileNames.cells[i][j].value, originPoints.cells[i][j].value, fileNames, TileOf(gdalOpen)))
  {
    tileNames, originPoints := IndexTiles(fileNames, gdalOpen);
    ghost var t := TileGrids(tileNames.cells, originPoints.cells);
    if |tileNames.cells| == 0 {
      // no tile was indexed: replaceNulls reads the length of an undefined grid
      RunIndexerOutcome(fileNames, gdalOpen, t, tileNames.cells, originPoints.cells, false);
      return tileNames, originPoints, false;
    }
    ok := FillHoles(tileNames, originPoints);
    RunIndexerOutcome(fileNames, gdalOpen, t, tileNames.cells, originPoints.cells, ok);
  }

  /** runIndexer's two replaceNulls calls on an ordered, non-empty catalog:
      both succeed, and leave the grids sea-filled. */
  method FillHoles(tileNames: Grid<string>, originPoints: Grid<Origin>) returns (ok: bool)
    requires tileNames as object != originPoints
    requires originPoints.cells != [] && Ordered(originPoints.cells)
    requires SameShape(tileNames.cells, originPoints.cells)
    modifies tileNames, originPoints
    ensures ok
    ensures SeaFilled(TileGrids(old(tileNames.cells), old(originPoints.cells)), tileNames.cells, originPoints.cells)
  {
    ghost var t := TileGrids(tileNames.cells, originPoints.cells);
    FillSeaTileNames(tileNames);
    OrderedFillsEveryHole(t.origins);
    ok := FillSeaOrigins(originPoints);
  }

  /** What runIndexer's result amounts to, given the grids indexTiles
      built: the empty grids and failure when no file opens, otherwise
      success and the grids with their holes filled. */
  lemma RunIndexerOutcome(fileNames: seq<string>, gdalOpen: string -> Option<Dataset>,
                          t: TileGrids, names: Cells<string>, origins: Cells<Origin>, ok: bool)
    requires IndexedGrids(fileNames, TileOf(gdalOpen)) == Some(t)
    requires WellIndexed(t, fileNames, TileOf(gdalOpen))
    requires |t.names| == 0 ==> names == t.names && origins == t.origins && !ok
    requires |t.names| != 0 ==> ok && SeaFilled(t, names, origins)
    ensures ok <==> exists k :: 0 <= k < |fileNames| && OpenDataset(fileNames[k], gdalOpen).Some?
    ensures SeaFilled(t, names, origins)
    ensures Rectangular(origins) && SameShape(names, origins)
    ensures NoNulls(names) && NoNulls(origins)
    ensures ok ==> Ordered(origins)
    ensures HoldsOpened(origins, fileNames, TileOf(gdalOpen))
    ensures forall i, j :: 0 <= i < |names| && 0 <= j < |names[i]| ==>
              names[i][j] == Some(SeaTileName) ||
              (origins[i][j].Some? && IndexedTile(names[i][j].value, origins[i][j].value, fileNames, TileOf(gdalOpen)))
  {
    NoneOpensUnderOpenDataset(fileNames, gdalOpen);
    if |t.names| != 0 {
      FilledOriginsOutcome(t.origins, origins, fileNames, TileOf(gdalOpen));
      FilledNamesOutcome(t, names, origins, fileNames, TileOf(gdalOpen));
    }
  }

  /** What the origin fill leaves of an ordered origin grid: no hole, the
      grid still ordered, and every contributed tile still held. */
  lemma FilledOriginsOutcome(g: Cells<Origin>, g': Cells<Origin>, fileNames: seq<string>, tileOf: string -> Option<Origin>)
    requires g != [] && Ordered(g) && HoldsOpened(g, fileNames, tileOf) && SameShape(g, g')
    requires forall i, j :: 0 <= i < |g'| && 0 <= j < |g'[i]| ==>
               g'[i][j] == if g[i][j].Some? then g[i][j] else ReplaceOriginPointNulls(g, i, j)
    ensures Rectangular(g') && NoNulls(g') && Ordered(g')
    ensures HoldsOpened(g', fileNames, tileOf)
  {
    SeaFillKeepsOrder(g, g');
    forall name | name in fileNames && tileOf(name).Some?
      ensures Holds(g', tileOf(name).value.lat, tileOf(name).value.lon)
    {
      assert Holds(g, tileOf(name).value.lat, tileOf(name).value.lon);
    }
  }

  /** What the name fill leaves of names paired with their tiles: no hole,
      and each name either "sea_tile" or a listed file beside its tile. */
  lemma FilledNamesOutcome(t: TileGrids, names: Cells<string>, origins: Cells<Origin>,
                           fileNames: seq<string>, tileOf: string -> Option<Origin>)
    requires Paired(t.names, t.origins, TileRelation(fileNames, tileOf))
    requires SeaFilled(t, names, origins)
    ensures SameShape(names, origins) && NoNulls(names)
    ensures forall i, j :: 0 <= i < |names| && 0 <= j < |names[i]| ==>
              names[i][j] == Some(SeaTileName) ||
              (origins[i][j].Some? && IndexedTile(names[i][j].value, origins[i][j].value, fileNames, tileOf))
  {
    SeaOrIndexed(t.names, t.origins, names, origins, fileNames, tileOf);
  }

  /** runIndexer's first replaceNulls: every hole of the name grid becomes
      "sea_tile"; this fill never throws. */
  method FillSeaTileNames(tileNames: Grid<string>)
    modifies tileNames
    ensures SameShape(old(tileNames.cells), tileNames.cells) && NoNulls(tileNames.cells)
    ensures forall i, j :: 0 <= i < |tileNames.cells| && 0 <= j < |tileNames.cells[i]| ==>
              tileNames.cells[i][j] == if old(tileNames.cells)[i][j].Some? then old(tileNames.cells)[i][j] else Some(SeaTileName)
  {
    ghost var names: Cells<string> := tileNames.cells;
    var seaFill := (g: Cells<string>, i: nat, j: nat) => Some(SeaTileName);
    var filled := tileNames.ReplaceNulls(seaFill);
    assert StableFill(seaFill, names);
    assert filled;
  }

  /** runIndexer's second replaceNulls: every hole of the origin grid gets
      the origin replaceOriginPointNulls infers from the indexed tiles. It
      succeeds exactly when every hole has a tile in its row and one in its
      column; otherwise the source throws. */
  method FillSeaOrigins(originPoints: Grid<Origin>) returns (ok: bool)
    modifies originPoints
    ensures SameShape(old(originPoints.cells), originPoints.cells)
    ensures forall i, j :: 0 <= i < |originPoints.cells| && 0 <= j < |originPoints.cells[i]| ==>
              old(originPoints.cells)[i][j].Some? ==> originPoints.cells[i][j] == old(originPoints.cells)[i][j]
    ensures ok ==> NoNulls(originPoints.cells)
    ensures ok <==> forall i, j :: 0 <= i < |old(originPoints.cells)| && 0 <= j < |old(originPoints.cells)[i]| ==>
                      old(originPoints.cells)[i][j].None? ==> ReplaceOriginPointNulls(old(originPoints.cells), i, j).Some?
    ensures ok ==> forall i, j :: 0 <= i < |originPoints.cells| && 0 <= j < |originPoints.cells[i]| ==>
                     old(originPoints.cells)[i][j].None? ==>
                       originPoints.cells[i][j] == ReplaceOriginPointNulls(old(originPoints.cells), i, j)
  {
    OriginFillStable(originPoints.cells);
    ok := originPoints.ReplaceNulls(ReplaceOriginPointNulls);
  }

  /** On an ordered grid, replaceOriginPointNulls infers an origin for
      every cell: the latitude of its row and the longitude of its column. */
  lemma OrderedFillsEveryHole(g: Cells<Origin>)
    requires Ordered(g)
    ensures forall i, j :: 0 <= i < |g| && 0 <= j < |g[i]| ==>
              ReplaceOriginPointNulls(g, i, j).Some? &&
              ReplaceOriginPointNulls(g, i, j).value.lat == RowLats(g)[i] &&
              ReplaceOriginPointNulls(g, i, j).value.lon == ColumnLons(g)[j]
  {
    LaidIsOrdered(g, RowLats(g), ColumnLons(g));
    forall i, j | 0 <= i < |g| && 0 <= j < |g[i]|
      ensures ReplaceOriginPointNulls(g, i, j).Some? &&
              ReplaceOriginPointNulls(g, i, j).value.lat == RowLats(g)[i] &&
              ReplaceOriginPointNulls(g, i, j).value.lon == ColumnLons(g)[j]
    {
      assert RowLat(g, i).Some? && ColumnLon(g, j).Some?;
    }
  }

  /** After runIndexer's fill of an ordered grid, every cell holds a tile
      at its row's latitude and its column's longitude. */
  lemma SeaFillAligned(g: Cells<Origin>, g': Cells<Origin>)
    requires Ordered(g) && SameShape(g, g')
    requires forall i, j :: 0 <= i < |g| && 0 <= j < |g[i]| ==>
               g'[i][j] == if g[i][j].Some? then g[i][j] else ReplaceOriginPointNulls(g, i, j)
    ensures NoNulls(g')
    ensures forall i, j :: 0 <= i < |g'| && 0 <= j < |g'[i]| ==>
              g'[i][j].Some? && g'[i][j].value.lat == RowLats(g)[i] && g'[i][j].value.lon == ColumnLons(g)[j]
  {
    LaidIsOrdered(g, RowLats(g), ColumnLons(g));
    OrderedFillsEveryHole(g);
    forall i, j | 0 <= i < |g'| && 0 <= j < |g'[i]|
      ensures g'[i][j].Some? && g'[i][j].value.lat == RowLats(g)[i] && g'[i][j].value.lon == ColumnLons(g)[j]
    {
      if g[i][j].Some? {
        assert g'[i][j] == g[i][j];
      } else {
        assert g'[i][j] == ReplaceOriginPointNulls(g, i, j);
      }
    }
  }

  /** After runIndexer's fill of an ordered grid, every row and every
      column still holds a tile. */
  lemma SeaFillOccupied(g: Cells<Origin>, g': Cells<Origin>)
    requires Ordered(g) && SameShape(g, g')
    requires forall i, j :: 0 <= i < |g| && 0 <= j < |g[i]| && g[i][j].Some? ==> g'[i][j] == g[i][j]
    ensures forall r :: 0 <= r < |g'| ==> RowHolds(g', r)
    ensures forall c :: 0 <= c < Width(g') ==> ColumnHolds(g', c)
  {
    forall r | 0 <= r < |g'|
      ensures RowHolds(g', r)
    {
      assert RowHolds(g, r);
      var c :| 0 <= c < |g[r]| && g[r][c].Some?;
      assert g'[r][c].Some?;
    }
    forall c | 0 <= c < Width(g')
      ensures ColumnHolds(g', c)
    {
      assert ColumnHolds(g, c);
      var r :| 0 <= r < |g| && c < |g[r]| && g[r][c].Some?;
      assert g'[r][c].Some?;
    }
  }

  /** Filling the holes of an ordered grid as runIndexer does leaves no
      hole, keeps it ordered, and keeps every tile it held. */
  lemma SeaFillKeepsOrder(g: Cells<Origin>, g': Cells<Origin>)
    requires Ordered(g) && SameShape(g, g')
    requires forall i, j :: 0 <= i < |g| && 0 <= j < |g[i]| ==>
               g'[i][j] == if g[i][j].Some? then g[i][j] else ReplaceOriginPointNulls(g, i, j)
    ensures NoNulls(g') && Ordered(g')
    ensures forall lat, lon :: Holds(g, lat, lon) ==> Holds(g', lat, lon)
  {
    var lats, lons := RowLats(g), ColumnLons(g);
    SeaFillAligned(g, g');
    SeaFillOccupied(g, g');
    assert Rectangular(g') && |lats| == |g'| && |lons| == Width(g');
    assert Descending(lats) && Ascending(lons);
    assert Laid(g', lats, lons);
    LaidIsOrdered(g', lats, lons);
    FillKeepsTiles(g, g');
  }

  /** A fill that keeps every tile keeps every (lat, lon) held. */
  lemma FillKeepsTiles(g: Cells<Origin>, g': Cells<Origin>)
    requires SameShape(g, g')
    requires forall i, j :: 0 <= i < |g| && 0 <= j < |g[i]| && g[i][j].Some? ==> g'[i][j] == g[i][j]
    ensures forall lat, lon :: Holds(g, lat, lon) ==> Holds(g', lat, lon)
  {
    forall lat, lon | Holds(g, lat, lon)
      ensures Holds(g', lat, lon)
    {
      var r, c :| 0 <= r < |g| && 0 <= c < |g[r]| && g[r][c].Some? && g[r][c].value.lat == lat && g[r][c].value.lon == lon;
      assert g'[r][c] == g[r][c];
    }
  }

  /** After the holes are filled, each name is either "sea_tile" or a
      listed file that still sits beside the tile it contributes. */
  lemma SeaOrIndexed(names: Cells<string>, origins: Cells<Origin>, names': Cells<string>, origins': Cells<Origin>,
                     fileNames: seq<string>, tileOf: string -> Option<Origin>)
    requires Paired(names, origins, TileRelation(fileNames, tileOf))
    requires SameShape(names, names') && SameShape(origins, origins')
    requires forall i, j :: 0 <= i < |names'| && 0 <= j < |names'[i]| && names[i][j].Some? ==> names'[i][j] == names[i][j]
    requires forall i, j :: 0 <= i < |origins'| && 0 <= j < |origins'[i]| && origins[i][j].Some? ==> origins'[i][j] == origins[i][j]
    requires forall i, j :: 0 <= i < |names'| && 0 <= j < |names'[i]| && names[i][j].None? ==> names'[i][j] == Some(SeaTileName)
    ensures forall i, j :: 0 <= i < |names'| && 0 <= j < |names'[i]| ==>
              names'[i][j] == Some(SeaTileName) ||
              (origins'[i][j].Some? && IndexedTile(names'[i][j].value, origins'[i][j].value, fileNames, tileOf))
  {
    forall i, j | 0 <= i < |names'| && 0 <= j < |names'[i]|
      ensures names'[i][j] == Some(SeaTileName) ||
              (origins'[i][j].Some? && IndexedTile(names'[i][j].value, origins'[i][j].value, fileNames, tileOf))
    {
      if names[i][j].Some? {
        assert TileRelation(fileNames, tileOf)(names[i][j].value, origins[i][j].value);
      }
    }
  }
}
