/** Checks and names for a viewshed request (src/gdal/gdal_service.js):
    the elevation parameters must be usable, and every request gets a file
    name built from its parameters, which also serves as the key of the
    viewshed image cache. */
module ViewshedRequest {

  /** A JavaScript value, as far as the request checks look at it. */
  datatype JsValue = Undefined | Null | Bool(b: bool) | Number(n: real) | NaN | Text(s: string) | Object

  /** JavaScript truthiness. */
  predicate Truthy(v: JsValue)
  {
    match v
    case Undefined => false
    case Null => false
    case Bool(b) => b
    case Number(n) => n != 0.0
    case NaN => false
    case Text(s) => s != ""
    case Object => true
  }

  /** The elevations a request may carry: any number (zero included), true,
      a non-empty string or an object; NaN, undefined, null, false and the
      empty string are refused. */
  predicate UsableElevation(v: JsValue)
  {
    v.Number? || v == Bool(true) || (v.Text? && v.s != "") || v.Object?
  }

  /** checkParameterValidity: neither elevation may be falsy unless it is
      the number 0. */
  function CheckParameterValidity(z: JsValue, zt: JsValue): (valid: bool)
    ensures valid <==> UsableElevation(z) && UsableElevation(zt)
  {
    !((!Truthy(z) && z != Number(0.0)) || (!Truthy(zt) && zt != Number(0.0)))
  }

  // ---------------------------------------------------------------------
  // File names

  /** The parameters of a request, each as the text JavaScript renders the
      number as. */
  datatype ViewshedParams = ViewshedParams(
    x: string, y: string, z: string, xo: string, yo: string,
    xf: string, yf: string, zt: string, radius: string)

  /** The fixed text before each parameter in the file name template. */
  const Labels: seq<string> := ["vs_obs_", "_", "_", "_st_", "_", "_en_", "_", "_rd_", "_zt_"]

  /** The parameters in the order the template interpolates them. */
  function Fields(p: ViewshedParams): seq<string>
  {
    [p.x, p.y, p.z, p.xo, p.yo, p.xf, p.yf, p.radius, p.zt]
  }

  /** labels[0] + fields[0] + labels[1] + fields[1] + ... */
  function Interleave(labels: seq<string>, fields: seq<string>): string
    requires |labels| == |fields|
  {
    if labels == [] then "" else labels[0] + fields[0] + Interleave(labels[1..], fields[1..])
  }

  /** The template `vs_obs_${x}_${y}_${z}_st_${xo}_${yo}_en_${xf}_${yf}_rd_${radius}_zt_${zt}`. */
  function FileStem(p: ViewshedParams): string
  {
    Interleave(Labels, Fields(p))
  }

  /** `s.replace(/\./gi, c)`: every dot becomes c. generateFileName uses
      '_'; the corrected name below uses 'p', a letter no number is written
      with. */
  function ReplaceAllDots(s: string, c: char): (r: string)
    ensures |r| == |s|
    ensures forall k :: 0 <= k < |s| ==> r[k] == if s[k] == '.' then c else s[k]
  {
    if s == [] then [] else [if s[0] == '.' then c else s[0]] + ReplaceAllDots(s[1..], c)
  }

  /** The template with every dot replaced by `dot`, then the extension.
      generateFileName is the instance with '_'; `DistinctFileName` below
      is the one with 'p'. */
  function FileName(p: ViewshedParams, extension: string, dot: char): (name: string)
    ensures |name| == |FileStem(p)| + |extension| && name[|FileStem(p)|..] == extension
    ensures forall k :: 0 <= k < |FileStem(p)| ==>
              name[k] == if FileStem(p)[k] == '.' then dot else FileStem(p)[k]
    ensures dot != '.' ==> '.' !in name[..|FileStem(p)|]
  {
    ReplaceAllDots(FileStem(p), dot) + extension
  }

  /** generateFileName. */
  function GenerateFileName(p: ViewshedParams, extension: string): string
  {
    FileName(p, extension, '_')
  }

  /** The characters JavaScript writes a number with. */
  const NumberChars: set<char> := {'0', '1', '2', '3', '4', '5', '6', '7', '8', '9', '.', '-', '+', 'e', 'I', 'n', 'f', 'i', 't', 'y', 'N', 'a'}

  predicate NumberText(v: string)
  {
    forall k :: 0 <= k < |v| ==> v[k] in NumberChars
  }

  predicate NumberParams(p: ViewshedParams)
  {
    forall k :: 0 <= k < |Fields(p)| ==> NumberText(Fields(p)[k])
  }

  /** The two leading fields of the stem, and the rest. */
  lemma StemHead(p: ViewshedParams)
    ensures FileStem(p) == "vs_obs_" + (p.x + "_" + p.y) + Interleave(Labels[2..], Fields(p)[2..])
  {
    var f := Fields(p);
    assert Labels[1..][1..] == Labels[2..] && f[1..][1..] == f[2..];
    assert Interleave(Labels[1..], f[1..]) == "_" + p.y + Interleave(Labels[2..], f[2..]);
  }

  /** Two different requests of plain numbers get the same file name: the
      observer at longitude 1 and latitude 2.5, and the observer at
      longitude 1.2 and latitude 5, both map to "vs_obs_1_2_5_...". The
      second request is then answered with the first one's cached image. */
  lemma FileNamesCollide()
    ensures var p1 := ViewshedParams("1", "2.5", "0", "0", "0", "0", "0", "0", "0");
            var p2 := ViewshedParams("1.2", "5", "0", "0", "0", "0", "0", "0", "0");
            NumberParams(p1) && NumberParams(p2) && p1 != p2 &&
            GenerateFileName(p1, ".png") == GenerateFileName(p2, ".png")
  {
    var p1 := ViewshedParams("1", "2.5", "0", "0", "0", "0", "0", "0", "0");
    var p2 := ViewshedParams("1.2", "5", "0", "0", "0", "0", "0", "0", "0");
    CollidingParamsAreNumbers();
    CollidingHeads();
    SameNameWhenHeadsAgree(p1, p2, ".png");
  }

  /** Requests that agree from z onwards, and whose first two fields read
      alike once dots are replaced, share their file name. */
  lemma SameNameWhenHeadsAgree(p1: ViewshedParams, p2: ViewshedParams, extension: string)
    requires Fields(p1)[2..] == Fields(p2)[2..]
    requires ReplaceAllDots(p1.x + "_" + p1.y, '_') == ReplaceAllDots(p2.x + "_" + p2.y, '_')
    ensures GenerateFileName(p1, extension) == GenerateFileName(p2, extension)
  {
    StemHead(p1);
    StemHead(p2);
    var tail := Interleave(Labels[2..], Fields(p1)[2..]);
    var a1, a2 := p1.x + "_" + p1.y, p2.x + "_" + p2.y;
    ReplaceDotsAppend("vs_obs_" + a1, tail);
    ReplaceDotsAppend("vs_obs_" + a2, tail);
    ReplaceDotsAppend("vs_obs_", a1);
    ReplaceDotsAppend("vs_obs_", a2);
    assert ReplaceAllDots(FileStem(p1), '_') == ReplaceAllDots("vs_obs_", '_') + ReplaceAllDots(a1, '_') + ReplaceAllDots(tail, '_');
    assert ReplaceAllDots(FileStem(p2), '_') == ReplaceAllDots("vs_obs_", '_') + ReplaceAllDots(a2, '_') + ReplaceAllDots(tail, '_');
  }

  lemma CollidingHeads()
    ensures ReplaceAllDots("1" + "_" + "2.5", '_') == ReplaceAllDots("1.2" + "_" + "5", '_')
  {
    var a1: string, a2: string := ['1', '_', '2', '.', '5'], ['1', '.', '2', '_', '5'];
    assert "1" + "_" + "2.5" == a1;
    assert "1.2" + "_" + "5" == a2;
    var r: string := ['1', '_', '2', '_', '5'];
    SameReplacement(a1, r);
    SameReplacement(a2, r);
  }

  lemma SameReplacement(a: string, r: string)
    requires |a| == |r| && forall k :: 0 <= k < |a| ==> r[k] == if a[k] == '.' then '_' else a[k]
    ensures ReplaceAllDots(a, '_') == r
  {
  }

  lemma CollidingParamsAreNumbers()
    ensures NumberParams(ViewshedParams("1", "2.5", "0", "0", "0", "0", "0", "0", "0"))
    ensures NumberParams(ViewshedParams("1.2", "5", "0", "0", "0", "0", "0", "0", "0"))
  {
    var t0, t1, t5, t25, t12 := "0", "1", "5", "2.5", "1.2";
    assert NumberText(t0) && NumberText(t1) && NumberText(t5);
    assert NumberText(t25) by {
      assert t25 == ['2', '.', '5'];
    }
    assert NumberText(t12) by {
      assert t12 == ['1', '.', '2'];
    }
    assert Fields(ViewshedParams(t1, t25, t0, t0, t0, t0, t0, t0, t0)) == [t1, t25, t0, t0, t0, t0, t0, t0, t0];
    assert Fields(ViewshedParams(t12, t5, t0, t0, t0, t0, t0, t0, t0)) == [t12, t5, t0, t0, t0, t0, t0, t0, t0];
  }

  lemma {:induction false} ReplaceDotsAppend(a: string, b: string)
    ensures ReplaceAllDots(a + b, '_') == ReplaceAllDots(a, '_') + ReplaceAllDots(b, '_')
  {
    var whole, ra, rb := ReplaceAllDots(a + b, '_'), ReplaceAllDots(a, '_'), ReplaceAllDots(b, '_');
    forall k | 0 <= k < |whole|
      ensures whole[k] == (ra + rb)[k]
    {
      if k < |a| {
        assert (a + b)[k] == a[k];
      } else {
        assert (a + b)[k] == b[k - |a|];
      }
    }
  }

  // ---------------------------------------------------------------------
  // A file name that tells requests apart

  /** generateFileName with dots escaped to 'p' instead of '_', so that no
      parameter text can be mistaken for a separator. */
  function DistinctFileName(p: ViewshedParams, extension: string): string
  {
    FileName(p, extension, 'p')
  }

  /** Splitting at the first underscore: fields without underscores, each
      followed by nothing or by text starting with one, are recovered. */
  lemma SplitAtUnderscore(a: string, r1: string, b: string, r2: string)
    requires '_' !in a && '_' !in b
    requires r1 == [] || r1[0] == '_'
    requires r2 == [] || r2[0] == '_'
    requires a + r1 == b + r2
    ensures a == b && r1 == r2
  {
    assert a == (a + r1)[..|a|];
    assert b == (b + r2)[..|b|];
    assert r1 == (a + r1)[|a|..];
    assert r2 == (b + r2)[|b|..];
  }

  /** An interleaving whose labels after the first start with an
      underscore is empty or starts with an underscore itself. */
  lemma InterleaveHead(labels: seq<string>, fields: seq<string>)
    requires |labels| == |fields|
    requires forall k :: 0 <= k < |labels| ==> |labels[k]| > 0 && labels[k][0] == '_'
    ensures var r := Interleave(labels, fields); r == [] || r[0] == '_'
  {
    if labels != [] {
      assert Interleave(labels, fields)[0] == labels[0][0];
    }
  }

  /** With underscore-free fields and labels that start with an underscore
      (after the first), the interleaving determines the fields. */
  lemma {:induction false} InterleaveInjective(labels: seq<string>, f1: seq<string>, f2: seq<string>)
    requires |labels| == |f1| == |f2|
    requires forall k :: 1 <= k < |labels| ==> |labels[k]| > 0 && labels[k][0] == '_'
    requires forall k :: 0 <= k < |f1| ==> '_' !in f1[k]
    requires forall k :: 0 <= k < |f2| ==> '_' !in f2[k]
    requires Interleave(labels, f1) == Interleave(labels, f2)
    ensures f1 == f2
  {
    if labels != [] {
      var r1 := Interleave(labels[1..], f1[1..]);
      var r2 := Interleave(labels[1..], f2[1..]);
      var n := |labels[0]|;
      assert Interleave(labels, f1) == labels[0] + (f1[0] + r1);
      assert Interleave(labels, f2) == labels[0] + (f2[0] + r2);
      assert f1[0] + r1 == Interleave(labels, f1)[n..];
      assert f2[0] + r2 == Interleave(labels, f2)[n..];
      InterleaveHead(labels[1..], f1[1..]);
      InterleaveHead(labels[1..], f2[1..]);
      SplitAtUnderscore(f1[0], r1, f2[0], r2);
      InterleaveInjective(labels[1..], f1[1..], f2[1..]);
      assert f1 == [f1[0]] + f1[1..] && f2 == [f2[0]] + f2[1..];
    }
  }

  /** A character absent from every label and every field is absent from
      the interleaving. */
  lemma {:induction false} InterleaveAvoids(labels: seq<string>, fields: seq<string>, c: char)
    requires |labels| == |fields|
    requires forall k :: 0 <= k < |labels| ==> c !in labels[k] && c !in fields[k]
    ensures c !in Interleave(labels, fields)
  {
    if labels != [] {
      InterleaveAvoids(labels[1..], fields[1..], c);
    }
  }

  /** Escaping dots to a letter that does not occur is reversible. */
  lemma EscapeDotsInjective(s1: string, s2: string)
    requires 'p' !in s1 && 'p' !in s2
    requires ReplaceAllDots(s1, 'p') == ReplaceAllDots(s2, 'p')
    ensures s1 == s2
  {
    assert forall k :: 0 <= k < |s1| ==> s1[k] == s2[k] by {
      forall k | 0 <= k < |s1|
        ensures s1[k] == s2[k]
      {
        assert s1[k] != 'p' && s2[k] != 'p';
      }
    }
  }

  lemma NumberTextAvoids(v: string)
    requires NumberText(v)
    ensures 'p' !in v && '_' !in v
  {
    assert 'p' !in NumberChars && '_' !in NumberChars;
  }

  lemma LabelsShape()
    ensures forall k :: 0 <= k < |Labels| ==> 'p' !in Labels[k]
    ensures forall k :: 1 <= k < |Labels| ==> |Labels[k]| > 0 && Labels[k][0] == '_'
  {
  }

  /** Different requests of numbers get different escaped file names. */
  lemma DistinctFileNamesDiffer(p1: ViewshedParams, p2: ViewshedParams, extension: string)
    requires NumberParams(p1) && NumberParams(p2)
    requires DistinctFileName(p1, extension) == DistinctFileName(p2, extension)
    ensures p1 == p2
  {
    var s1, s2 := FileStem(p1), FileStem(p2);
    var e1, e2 := ReplaceAllDots(s1, 'p'), ReplaceAllDots(s2, 'p');
    assert e1 == (e1 + extension)[..|e1|];
    assert e2 == (e2 + extension)[..|e2|];
    var f1, f2 := Fields(p1), Fields(p2);
    forall k | 0 <= k < |f1|
      ensures 'p' !in f1[k] && '_' !in f1[k] && 'p' !in f2[k] && '_' !in f2[k]
    {
      NumberTextAvoids(f1[k]);
      NumberTextAvoids(f2[k]);
    }
    LabelsShape();
    InterleaveAvoids(Labels, f1, 'p');
    InterleaveAvoids(Labels, f2, 'p');
    EscapeDotsInjective(s1, s2);
    InterleaveInjective(Labels, f1, f2);
    assert f1[0] == p1.x && f2[0] == p2.x;
  }
}
