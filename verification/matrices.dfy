/** Two-dimensional arrays as the mosaic reader handles them
    (src/gdal/gdal_service.js): reshaping a flat sample buffer into rows and
    back, and concatenating matrices below or beside each other. */
module Matrices {
  import opened Wrappers

  /** A matrix is a sequence of rows; nothing forces the rows to agree in
      length, as nothing does in the source. */
  type Matrix<T> = seq<seq<T>>

  /** All the pieces, one after the other. */
  function Flatten<T>(s: seq<seq<T>>): seq<T>
  {
    if s == [] then [] else Flatten(s[..|s| - 1]) + s[|s| - 1]
  }

  /** The sum of the pieces' lengths. */
  function TotalLength<T>(s: seq<seq<T>>): nat
  {
    if s == [] then 0 else TotalLength(s[..|s| - 1]) + |s[|s| - 1]|
  }

  lemma {:induction false} FlattenLength<T>(s: seq<seq<T>>)
    ensures |Flatten(s)| == TotalLength(s)
  {
    if s != [] {
      FlattenLength(s[..|s| - 1]);
    }
  }

  lemma {:induction false} FlattenAppend<T>(a: seq<seq<T>>, b: seq<seq<T>>)
    ensures Flatten(a + b) == Flatten(a) + Flatten(b)
    decreases |b|
  {
    if b == [] {
      assert a + b == a;
    } else {
      var c := b[..|b| - 1];
      assert (a + b)[..|a + b| - 1] == a + c;
      assert Flatten(a + b) == Flatten(a + c) + b[|b| - 1];
      FlattenAppend(a, c);
    }
  }

  lemma FlattenPair<T>(x: seq<T>, y: seq<T>)
    ensures Flatten([x, y]) == x + y
  {
    assert [x, y][..1] == [x];
    assert [x][..0] == [];
    assert Flatten([x]) == x;
    assert Flatten([x, y]) == Flatten([x]) + y;
  }

  /** Every row of stacked matrices is a row of one of them, so a property
      of all their rows holds of all rows of the stack. */
  lemma {:induction false} FlattenRowsFrom<T>(s: seq<seq<seq<T>>>, P: seq<T> -> bool)
    requires forall k, r :: 0 <= k < |s| && 0 <= r < |s[k]| ==> P(s[k][r])
    ensures forall r :: 0 <= r < |Flatten(s)| ==> P(Flatten(s)[r])
  {
    if s != [] {
      FlattenRowsFrom(s[..|s| - 1], P);
    }
  }

  /** The number of elements `data.splice(0, count)` takes from a buffer of
      `len` elements: a negative count takes none, a count past the end
      takes the rest. */
  function SpliceCount(len: nat, count: int): (k: nat)
    ensures k <= len
    ensures 0 <= count <= len ==> k == count
  {
    if count < 0 then 0 else if count > len then len else count
  }

  /** The rows makeBlock cuts from `data`: `height` times, the next `width`
      elements (fewer once the data runs out). */
  function Chunks<T>(data: seq<T>, width: int, height: int): (m: Matrix<T>)
    ensures |m| == if height < 0 then 0 else height
    decreases height
  {
    if height <= 0 then []
    else
      var k := SpliceCount(|data|, width);
      [data[..k]] + Chunks(data[k..], width, height - 1)
  }

  /** A buffer of exactly width * height samples (height > 0) gives up its
      first `width` samples as the first row, leaving width * (height - 1). */
  lemma ChunksFirst<T>(data: seq<T>, width: nat, height: nat)
    requires |data| == width * height && height > 0
    ensures width <= |data| && |data[width..]| == width * (height - 1)
    ensures Chunks(data, width, height) == [data[..width]] + Chunks(data[width..], width, height - 1)
  {
    MulSucc(height - 1, width);
  }

  /** A buffer of exactly width * height samples becomes `height` rows of
      `width` samples each. */
  lemma {:induction false} ChunksExact<T>(data: seq<T>, width: nat, height: nat)
    requires |data| == width * height
    ensures |Chunks(data, width, height)| == height
    ensures forall r :: 0 <= r < height ==> |Chunks(data, width, height)[r]| == width
    decreases height
  {
    if height > 0 {
      ChunksFirst(data, width, height);
      var c, t := Chunks(data, width, height), Chunks(data[width..], width, height - 1);
      ChunksExact(data[width..], width, height - 1);
      forall r | 0 <= r < height
        ensures |c[r]| == width
      {
        if r > 0 {
          assert c[r] == t[r - 1];
        }
      }
    }
  }

  /** Row r of such a block holds samples r * width up to (r + 1) * width. */
  lemma ChunksRow<T>(data: seq<T>, width: nat, height: nat, r: nat)
    requires |data| == width * height && r < height
    ensures r * width + width == (r + 1) * width <= |data|
    ensures |Chunks(data, width, height)| == height
    ensures Chunks(data, width, height)[r] == data[r * width .. (r + 1) * width]
  {
    RowOffsets(width, height, r);
    RowStartIsProduct(width, r);
    ChunksRowAt(data, width, height, r);
  }

  /** Where row r of a block `width` samples wide starts: the widths of
      the rows before it added up. */
  function RowStart(width: nat, r: nat): nat
  {
    if r == 0 then 0 else RowStart(width, r - 1) + width
  }

  lemma {:induction false} RowStartIsProduct(width: nat, r: nat)
    ensures RowStart(width, r) == r * width
  {
    if r > 0 {
      RowStartIsProduct(width, r - 1);
      MulSucc(r - 1, width);
    }
  }

  /** Row r of the chunking starts at RowStart(width, r) and is a whole
      row wide once the data reaches the end of that row. */
  lemma {:induction false} ChunksRowAt<T>(data: seq<T>, width: nat, height: nat, r: nat)
    requires r < height && RowStart(width, r) + width <= |data|
    ensures Chunks(data, width, height)[r] == data[RowStart(width, r) .. RowStart(width, r) + width]
    decreases r
  {
    var rest := data[width..];
    assert Chunks(data, width, height) == [data[..width]] + Chunks(rest, width, height - 1);
    if r > 0 {
      var lo := RowStart(width, r - 1);
      ChunksRowAt(rest, width, height - 1, r - 1);
      assert rest[lo .. lo + width] == data[lo + width .. lo + width + width];
    }
  }

  lemma RowOffsets(width: nat, height: nat, r: nat)
    requires r < height
    ensures r * width + width == (r + 1) * width <= width * height
    ensures r > 0 ==> (r - 1) * width + width == r * width
  {
    MulSucc(r, width);
    MulSucc(height, width);
    MulMono(r + 1, height, width);
    if r > 0 {
      MulSucc(r - 1, width);
    }
  }

  lemma SliceOfSuffix<T>(data: seq<T>, k: nat, lo: nat, hi: nat)
    requires k <= |data| && lo <= hi <= |data| - k
    ensures data[k..][lo..hi] == data[k + lo .. k + hi]
  {
  }

  lemma MulSucc(a: nat, b: nat)
    ensures (a + 1) * b == a * b + b && b * (a + 1) == a * b + b && a * b == b * a
  {
  }

  lemma MulMono(a: nat, c: nat, b: nat)
    requires a <= c
    ensures a * b <= c * b && b * a <= b * c
  {
  }

  /** makeVector(makeBlock(v, w, h)) == v for a buffer of w * h samples. */
  lemma {:induction false} BlockRoundTrip<T>(v: seq<T>, width: nat, height: nat)
    requires |v| == width * height
    ensures Flatten(Chunks(v, width, height)) == v
  {
    if height > 0 {
      ChunksFirst(v, width, height);
      var rest := v[width..];
      BlockRoundTrip(rest, width, height - 1);
      var c := Chunks(v, width, height);
      FlattenCons(c);
      assert c[0] == v[..width] && c[1..] == Chunks(rest, width, height - 1);
      assert v[..width] + rest == v;
    }
  }

  /** makeBlock(makeVector(b), w, |b|) == b when every row of b has w samples. */
  lemma {:induction false} VectorRoundTrip<T>(b: Matrix<T>, width: nat)
    requires forall r :: 0 <= r < |b| ==> |b[r]| == width
    ensures Chunks(Flatten(b), width, |b|) == b
  {
    if b != [] {
      FlattenCons(b);
      var flat, tail := Flatten(b), Flatten(b[1..]);
      VectorRoundTrip(b[1..], width);
      assert flat[..width] == b[0] && flat[width..] == tail;
      assert Chunks(flat, width, |b|) == [b[0]] + b[1..];
      assert b == [b[0]] + b[1..];
    }
  }

  lemma FlattenCons<T>(b: seq<seq<T>>)
    requires b != []
    ensures Flatten(b) == b[0] + Flatten(b[1..])
  {
    assert b == [b[0]] + b[1..];
    FlattenAppend([b[0]], b[1..]);
    assert [b[0]][..0] == [];
  }

  /** makeBlock: consumes `data` row by row with `splice(0, blockWidth)`. */
  method MakeBlock<T>(data: seq<T>, blockWidth: int, blockHeight: int) returns (block: Matrix<T>)
    ensures block == Chunks(data, blockWidth, blockHeight)
    ensures |block| == if blockHeight < 0 then 0 else blockHeight
  {
    var rest := data;
    block := [];
    var i := 0;
    while i < blockHeight
      invariant 0 <= i && (blockHeight >= 0 ==> i <= blockHeight)
      invariant |block| == i
      invariant block + Chunks(rest, blockWidth, blockHeight - i) == Chunks(data, blockWidth, blockHeight)
    {
      var k := SpliceCount(|rest|, blockWidth);
      ghost var tail := Chunks(rest[k..], blockWidth, blockHeight - i - 1);
      assert Chunks(rest, blockWidth, blockHeight - i) == [rest[..k]] + tail;
      assert (block + [rest[..k]]) + tail == block + ([rest[..k]] + tail);
      block := block + [rest[..k]];
      rest := rest[k..];
      i := i + 1;
    }
  }

  /** makeVector: the rows one after the other. */
  method MakeVector<T>(block: Matrix<T>) returns (vector: seq<T>)
    ensures vector == Flatten(block)
    ensures |vector| == TotalLength(block)
  {
    vector := [];
    var i := 0;
    while i < |block|
      invariant 0 <= i <= |block|
      invariant vector == Flatten(block[..i])
    {
      assert block[..i + 1][..i] == block[..i];
      vector := vector + block[i];
      i := i + 1;
    }
    assert block[..|block|] == block;
    FlattenLength(block);
  }

  /** concat2dVertical: the matrices' rows one after the other. The source
      reads `arrays[0]` first, so an empty list throws (`None`). */
  method Concat2dVertical<T>(arrays: seq<Matrix<T>>) returns (r: Option<Matrix<T>>)
    ensures r.Some? <==> |arrays| > 0
    ensures r.Some? ==> r.value == Flatten(arrays) && |r.value| == TotalLength(arrays)
  {
    if |arrays| == 0 {
      return None;
    }
    var result := arrays[0];
    assert [arrays[0]][..0] == [];
    assert arrays[..1] == [arrays[0]];
    var k := 1;
    while k < |arrays|
      invariant 1 <= k <= |arrays|
      invariant result == Flatten(arrays[..k])
    {
      assert arrays[..k + 1][..k] == arrays[..k];
      result := result + arrays[k];
      k := k + 1;
    }
    assert arrays[..|arrays|] == arrays;
    FlattenLength(arrays);
    r := Some(result);
  }

  /** One round of concat2dHorizontal's inner loop: row i of `m` is appended
      to row i of `acc`, for each row `m` has. When `m` has more rows than
      `acc`, the source calls concat on an undefined row and throws. */
  function AppendColumns<T>(acc: Matrix<T>, m: Matrix<T>): Option<Matrix<T>>
  {
    if |m| > |acc| then None
    else Some(seq(|acc|, i requires 0 <= i < |acc| => if i < |m| then acc[i] + m[i] else acc[i]))
  }

  /** What concat2dHorizontal computes: the first matrix, with each later
      matrix appended to its rows. */
  function HConcat<T>(arrays: seq<Matrix<T>>): Option<Matrix<T>>
    decreases |arrays|
  {
    if |arrays| == 0 then None
    else if |arrays| == 1 then Some(arrays[0])
    else match HConcat(arrays[..|arrays| - 1])
      case None => None
      case Some(acc) => AppendColumns(acc, arrays[|arrays| - 1])
  }

  /** Horizontal concatenation succeeds exactly when no matrix is taller than
      the first, and then has the first one's height. */
  lemma {:induction false} HConcatDefined<T>(arrays: seq<Matrix<T>>)
    ensures HConcat(arrays).Some? <==>
              |arrays| > 0 && forall k :: 0 <= k < |arrays| ==> |arrays[k]| <= |arrays[0]|
    ensures HConcat(arrays).Some? ==> |HConcat(arrays).value| == |arrays[0]|
    decreases |arrays|
  {
    if |arrays| > 1 {
      var front := arrays[..|arrays| - 1];
      HConcatDefined(front);
      assert forall k :: 0 <= k < |front| ==> front[k] == arrays[k];
    }
  }

  /** Once a prefix fails, the whole concatenation fails. */
  lemma {:induction false} HConcatFailurePersists<T>(arrays: seq<Matrix<T>>, k: nat)
    requires 1 <= k <= |arrays| && HConcat(arrays[..k]) == None
    ensures HConcat(arrays) == None
    decreases |arrays|
  {
    if k < |arrays| {
      var front := arrays[..|arrays| - 1];
      assert front[..k] == arrays[..k];
      HConcatFailurePersists(front, k);
    } else {
      assert arrays[..k] == arrays;
    }
  }

  /** Row i of every matrix in the list. */
  function RowAcross<T>(arrays: seq<Matrix<T>>, i: nat): seq<seq<T>>
    requires forall k :: 0 <= k < |arrays| ==> i < |arrays[k]|
  {
    seq(|arrays|, k requires 0 <= k < |arrays| => arrays[k][i])
  }

  /** For matrices of one common height, row i of the horizontal
      concatenation is row i of each matrix, in order. */
  lemma {:induction false} HConcatEqualHeights<T>(arrays: seq<Matrix<T>>, height: nat)
    requires |arrays| > 0
    requires forall k :: 0 <= k < |arrays| ==> |arrays[k]| == height
    ensures HConcat(arrays).Some?
    ensures |HConcat(arrays).value| == height
    ensures forall i :: 0 <= i < height ==> HConcat(arrays).value[i] == Flatten(RowAcross(arrays, i))
    decreases |arrays|
  {
    if |arrays| == 1 {
      forall i | 0 <= i < height
        ensures HConcat(arrays).value[i] == Flatten(RowAcross(arrays, i))
      {
        assert RowAcross(arrays, i) == [arrays[0][i]];
        assert [arrays[0][i]][..0] == [];
      }
    } else {
      var front := arrays[..|arrays| - 1];
      HConcatEqualHeights(front, height);
      var acc, last := HConcat(front).value, arrays[|arrays| - 1];
      assert HConcat(arrays) == AppendColumns(acc, last);
      forall i | 0 <= i < height
        ensures HConcat(arrays).value[i] == Flatten(RowAcross(arrays, i))
      {
        var row := RowAcross(arrays, i);
        assert row[..|row| - 1] == RowAcross(front, i);
        assert Flatten(row) == Flatten(RowAcross(front, i)) + last[i];
      }
    }
  }

  /** concat2dHorizontal, loop for loop: copy the first matrix, then append
      each later matrix's rows to the rows of the result. */
  method Concat2dHorizontal<T>(arrays: seq<Matrix<T>>) returns (r: Option<Matrix<T>>)
    ensures r == HConcat(arrays)
    ensures r.Some? ==> |r.value| == |arrays[0]|
  {
    if |arrays| == 0 {
      return None;
    }
    var result := arrays[0];
    assert arrays[..1] == [arrays[0]];
    var k := 1;
    while k < |arrays|
      invariant 1 <= k <= |arrays|
      invariant HConcat(arrays[..k]) == Some(result)
      invariant |result| == |arrays[0]|
    {
      var next := arrays[k];
      ghost var acc := result;
      assert arrays[..k + 1][..k] == arrays[..k];
      var i := 0;
      while i < |next|
        invariant 0 <= i <= |next|
        invariant |result| == |acc|
        invariant i <= |acc|
        invariant forall row :: 0 <= row < |acc| ==>
                    result[row] == if row < i then acc[row] + next[row] else acc[row]
      {
        if i >= |result| {
          // resultArray[i] is undefined: the source throws
          assert HConcat(arrays[..k + 1]) == None;
          HConcatFailurePersists(arrays, k + 1);
          return None;
        }
        result := result[i := result[i] + next[i]];
        i := i + 1;
      }
      assert forall row :: 0 <= row < |acc| ==>
               result[row] == if row < |next| then acc[row] + next[row] else acc[row];
      assert AppendColumns(acc, next).value == result;
      k := k + 1;
    }
    assert arrays[..|arrays|] == arrays;
    r := Some(result);
  }

  /** concat2d: axis 0 stacks the matrices, axis 1 puts them side by side,
      any other axis gives an empty matrix. */
  method Concat2d<T>(arrays: seq<Matrix<T>>, axis: int := 0) returns (r: Option<Matrix<T>>)
    ensures axis == 0 ==> r == (if |arrays| > 0 then Some(Flatten(arrays)) else None)
    ensures axis == 1 ==> r == HConcat(arrays)
    ensures axis != 0 && axis != 1 ==> r == Some([])
  {
    if axis == 0 {
      r := Concat2dVertical(arrays);
    } else if axis == 1 {
      r := Concat2dHorizontal(arrays);
    } else {
      r := Some([]);
    }
  }
}
