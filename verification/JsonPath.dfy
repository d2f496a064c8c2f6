/** The path language of item contexts: `queue.state`, `.history[0].state`. */
module JsonPath {
  import opened Text
  import opened Decimal

  datatype Json = Null | Bool(b: bool) | Number(n: int) | Str(s: string)
                | Array(elems: seq<Json>) | Object(fields: map<string, Json>)

  /** One step into a value: a segment that reads as an index only enters arrays, any other only objects. */
  function Get(v: Json, segment: string): Option<Json> {
    match ParseUsize(segment)
    case Some(i) => if v.Array? && i < |v.elems| then Some(v.elems[i]) else None
    case None => if v.Object? && segment in v.fields then Some(v.fields[segment]) else None
  }

  /** Step through the segments from the left, stopping at the first that is missing. */
  function Walk(v: Json, segments: seq<string>): Option<Json> {
    if segments == [] then Some(v)
    else
      match Get(v, segments[0])
      case None => None
      case Some(w) => Walk(w, segments[1..])
  }

  // ---- normalisation ------------------------------------------------------

  /** The loop's effect on a text: an opening bracket becomes a dot, a closing one vanishes. */
  function Unbracket(path: string): string {
    if path == "" then ""
    else
      var n := |path| - 1;
      Unbracket(path[..n]) + (if path[n] == '[' then "." else if path[n] == ']' then "" else [path[n]])
  }

  function Normalized(path: string): string {
    if '[' in path then Unbracket(path) else path
  }

  method NormalizePath(path: string) returns (result: string)
    ensures result == Normalized(path)
  {
    if '[' !in path {
      return path;
    }
    result := "";
    for i := 0 to |path|
      invariant result == Unbracket(path[..i])
    {
      assert path[..i + 1][..i] == path[..i];
      var ch := path[i];
      if ch == '[' {
        result := result + ".";
      } else if ch != ']' {
        result := result + [ch];
      }
    }
    assert path[..|path|] == path;
  }

  function StripDot(path: string): string {
    if path != "" && path[0] == '.' then path[1..] else path
  }

  function ExtractField(v: Json, path: string): Option<Json> {
    var p := StripDot(path);
    if p == "" then Some(v) else Walk(v, Split(Normalized(p), '.'))
  }

  // ---- laws ---------------------------------------------------------------

  lemma {:induction false} UnbracketConcat(a: string, b: string)
    ensures Unbracket(a + b) == Unbracket(a) + Unbracket(b)
    decreases |b|
  {
    if b == "" {
      assert a + b == a;
    } else {
      var n := |b| - 1;
      assert (a + b)[..|a + b| - 1] == a + b[..n];
      UnbracketConcat(a, b[..n]);
    }
  }

  lemma {:induction false} UnbracketPlain(p: string)
    requires '[' !in p && ']' !in p
    ensures Unbracket(p) == p
    decreases |p|
  {
    if p != "" {
      var front, last := p[..|p| - 1], p[|p| - 1];
      assert forall c :: c in front ==> c in p;
      UnbracketPlain(front);
      assert p == front + [last];
    }
  }

  /** A closing bracket never stands in a path without an opening one. Well-bracketed paths qualify. */
  predicate NoStrayClose(p: string) {
    ']' in p ==> '[' in p
  }

  /** On such paths the fast exit and the loop agree. */
  lemma NormalizedIsUnbracket(p: string)
    requires NoStrayClose(p)
    ensures Normalized(p) == Unbracket(p)
  {
    if '[' !in p {
      UnbracketPlain(p);
    }
  }

  lemma {:induction false} WalkConcat(v: Json, a: seq<string>, b: seq<string>)
    ensures Walk(v, a + b) == if Walk(v, a).Some? then Walk(Walk(v, a).value, b) else None
    decreases |a|
  {
    if a == [] {
      assert a + b == b;
    } else {
      assert (a + b)[1..] == a[1..] + b;
      if Get(v, a[0]).Some? {
        WalkConcat(Get(v, a[0]).value, a[1..], b);
      }
    }
  }

  lemma UnbracketDot(a: string, b: string)
    ensures Unbracket(a + "." + b) == Unbracket(a) + "." + Unbracket(b)
  {
    UnbracketConcat(a + ".", b);
    UnbracketConcat(a, ".");
    UnbracketPlain(".");
  }

  lemma UnbracketIndex(a: string, i: string)
    requires '[' !in i && ']' !in i
    ensures Unbracket(a + "[" + i + "]") == Unbracket(a) + "." + i
  {
    UnbracketConcat(a + "[" + i, "]");
    UnbracketConcat(a + "[", i);
    UnbracketConcat(a, "[");
    UnbracketPlain(i);
    assert "["[..0] == "" && Unbracket("[") == ".";
    assert "]"[..0] == "" && Unbracket("]") == "";
  }

  /** The segments of a path without stray brackets. */
  function Segments(p: string): seq<string> {
    Split(Unbracket(p), '.')
  }

  lemma SegmentsDot(a: string, b: string)
    ensures Segments(a + "." + b) == Segments(a) + Segments(b)
  {
    UnbracketDot(a, b);
    SplitConcat(Unbracket(a), '.', Unbracket(b));
    assert Unbracket(a) + "." + Unbracket(b) == Unbracket(a) + ['.'] + Unbracket(b);
  }

  lemma ExtractIsWalk(v: Json, p: string)
    requires NoStrayClose(p) && p != "" && p[0] != '.'
    ensures ExtractField(v, p) == Walk(v, Segments(p))
  {
    NormalizedIsUnbracket(p);
  }

  lemma ExtractStripped(v: Json, p: string)
    requires NoStrayClose(p) && StripDot(p) != ""
    ensures ExtractField(v, p) == Walk(v, Segments(StripDot(p)))
  {
    assert NoStrayClose(StripDot(p));
    NormalizedIsUnbracket(StripDot(p));
  }

  lemma StripDotPrefix(p: string, rest: string)
    requires p != ""
    ensures StripDot(p + rest) == StripDot(p) + rest
  {
  }

  lemma ExtractDot(v: Json, p: string, q: string)
    requires NoStrayClose(p) && NoStrayClose(q) && StripDot(p) != ""
    ensures ExtractField(v, p + "." + q) == Walk(v, Segments(StripDot(p) + "." + q))
  {
    var s, rest := StripDot(p), "." + q;
    StripDotPrefix(p, rest);
    assert p + "." + q == p + rest && s + "." + q == s + rest;
    assert NoStrayClose(p + rest);
    ExtractStripped(v, p + rest);
  }

  lemma SegmentsIndex(s: string, i: string)
    requires '[' !in i && ']' !in i
    ensures Segments(s + "[" + i + "]") == Segments(s + "." + i)
  {
    UnbracketIndex(s, i);
    UnbracketDot(s, i);
    UnbracketPlain(i);
  }

  lemma ExtractIndex(v: Json, p: string, i: string)
    requires p != ""
    ensures ExtractField(v, p + "[" + i + "]") == Walk(v, Segments(StripDot(p) + "[" + i + "]"))
  {
    var s, rest := StripDot(p), "[" + i + "]";
    StripDotPrefix(p, rest);
    assert p + "[" + i + "]" == p + rest && s + "[" + i + "]" == s + rest;
    assert (s + rest)[|s|] == '[';
    NormalizedIsUnbracket(s + rest);
  }

  lemma IndexAsDot(v: Json, p: string, i: string)
    requires p != "" && '[' !in i && ']' !in i
    ensures ExtractField(v, p + "[" + i + "]") == Walk(v, Segments(StripDot(p) + "." + i))
  {
    ExtractIndex(v, p, i);
    SegmentsIndex(StripDot(p), i);
  }

  lemma LoneDot(v: Json, p: string, i: string)
    requires p != "" && StripDot(p) == "" && '[' !in i && ']' !in i
    ensures ExtractField(v, p + "." + i) == Walk(v, Segments(StripDot(p) + "." + i))
  {
    var rest := "." + i;
    assert StripDot(p) + "." + i == rest && p + "." + i == p + rest;
    assert StripDot(p + rest) == rest;
    NormalizedIsUnbracket(rest);
  }

  lemma ExtractDotIndex(v: Json, p: string, i: string)
    requires NoStrayClose(p) && p != "" && '[' !in i && ']' !in i
    ensures ExtractField(v, p + "." + i) == Walk(v, Segments(StripDot(p) + "." + i))
  {
    if StripDot(p) != "" {
      ExtractDot(v, p, i);
    } else {
      LoneDot(v, p, i);
    }
  }

  /** Extracting `p[i]` is extracting `p.i`. */
  lemma BracketIsDot(v: Json, p: string, i: string)
    requires NoStrayClose(p) && p != "" && '[' !in i && ']' !in i
    ensures ExtractField(v, p + "[" + i + "]") == ExtractField(v, p + "." + i)
  {
    IndexAsDot(v, p, i);
    ExtractDotIndex(v, p, i);
  }

  // ---- written paths ------------------------------------------------------

  predicate IsSegment(s: string) {
    '.' !in s && '[' !in s && ']' !in s
  }

  /** A later segment of a path, and whether it is written in brackets. */
  datatype Later = Later(segment: string, bracketed: bool)

  function LaterText(l: Later): string {
    if l.bracketed then "[" + l.segment + "]" else "." + l.segment
  }

  function PathText(first: string, later: seq<Later>): string {
    if later == [] then first else PathText(first, later[..|later| - 1]) + LaterText(later[|later| - 1])
  }

  function PathSegments(first: string, later: seq<Later>): seq<string> {
    if later == [] then [first] else PathSegments(first, later[..|later| - 1]) + [later[|later| - 1].segment]
  }

  lemma DottedSegment(before: string, s: string)
    requires IsSegment(s) && NoStrayClose(before)
    ensures Segments(before + "." + s) == Segments(before) + [s] && NoStrayClose(before + "." + s)
  {
    UnbracketPlain(s);
    SplitWithoutSeparator(s, '.');
    SegmentsDot(before, s);
  }

  lemma BracketedSegment(before: string, s: string)
    requires IsSegment(s) && NoStrayClose(before)
    ensures Segments(before + "[" + s + "]") == Segments(before) + [s] && NoStrayClose(before + "[" + s + "]")
  {
    DottedSegment(before, s);
    SegmentsIndex(before, s);
    assert (before + "[" + s + "]")[|before|] == '[';
  }

  lemma LaterSegments(before: string, l: Later)
    requires IsSegment(l.segment) && NoStrayClose(before)
    ensures Segments(before + LaterText(l)) == Segments(before) + [l.segment]
    ensures NoStrayClose(before + LaterText(l))
  {
    if l.bracketed {
      BracketedSegment(before, l.segment);
      assert before + LaterText(l) == before + "[" + l.segment + "]";
    } else {
      DottedSegment(before, l.segment);
      assert before + LaterText(l) == before + "." + l.segment;
    }
  }

  lemma {:induction false} PathTextSegments(first: string, later: seq<Later>)
    requires IsSegment(first) && first != "" && forall i :: 0 <= i < |later| ==> IsSegment(later[i].segment)
    ensures var p := PathText(first, later);
            NoStrayClose(p) && p != "" && p[0] == first[0] && Segments(p) == PathSegments(first, later)
    decreases |later|
  {
    if later == [] {
      UnbracketPlain(first);
      SplitWithoutSeparator(first, '.');
    } else {
      var n := |later| - 1;
      PathTextSegments(first, later[..n]);
      LaterSegments(PathText(first, later[..n]), later[n]);
    }
  }

  /** However the later segments of a path are written, with dots or in brackets, with or without a
      leading dot, extraction walks exactly its segments. */
  lemma WrittenPath(v: Json, first: string, later: seq<Later>)
    requires IsSegment(first) && first != "" && forall i :: 0 <= i < |later| ==> IsSegment(later[i].segment)
    ensures ExtractField(v, PathText(first, later)) == Walk(v, PathSegments(first, later))
    ensures ExtractField(v, "." + PathText(first, later)) == Walk(v, PathSegments(first, later))
  {
    PathTextSegments(first, later);
    var p := PathText(first, later);
    assert first[0] in first;
    ExtractIsWalk(v, p);
    assert StripDot("." + p) == p;
  }
}
