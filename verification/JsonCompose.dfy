/** Composition of paths: exactly when extracting `p.q` is extracting `p` and then `q`. */
module JsonCompose {
  import opened Text
  import opened Decimal
  import opened JsonPath

  function Then(r: Option<Json>, path: string): Option<Json> {
    if r.Some? then ExtractField(r.value, path) else None
  }

  /** What a caller can check: a proper prefix and a proper rest, and no closing bracket that only
      the other path's opening bracket would remove. */
  predicate Composable(p: string, q: string) {
    if p == "" then q == "" || q[0] != '.'
    else
      && p != "." && q != "" && q[0] != '.'
      && ('[' in q && '[' !in p ==> ']' !in p)
      && ('[' in p && '[' !in q ==> ']' !in q)
  }

  /** The segments that extraction walks. */
  function Keys(path: string): seq<string> {
    var p := StripDot(path);
    if p == "" then [] else Split(Normalized(p), '.')
  }

  lemma ThenIsWalk(v: Json, p: string, q: string)
    ensures ExtractField(v, p) == Walk(v, Keys(p))
    ensures Then(ExtractField(v, p), q) == Walk(v, Keys(p) + Keys(q))
  {
    WalkConcat(v, Keys(p), Keys(q));
  }

  // ---- walks and segments -------------------------------------------------

  /** Segments that step alike: the same index, however it is written, or the same name. */
  predicate SameKey(a: string, b: string) {
    ParseUsize(a) == ParseUsize(b) && (ParseUsize(a).None? ==> a == b)
  }

  predicate SameKeys(a: seq<string>, b: seq<string>) {
    |a| == |b| && forall i :: 0 <= i < |a| ==> SameKey(a[i], b[i])
  }

  lemma SameKeysHead(a: seq<string>, b: seq<string>)
    requires a != [] && b != []
    ensures SameKeys(a, b) <==> SameKey(a[0], b[0]) && SameKeys(a[1..], b[1..])
  {
    assert forall i :: 1 <= i < |a| ==> a[i] == a[1..][i - 1];
    assert forall i :: 1 <= i < |b| ==> b[i] == b[1..][i - 1];
  }

  lemma {:induction false} SameWalk(v: Json, a: seq<string>, b: seq<string>)
    requires SameKeys(a, b)
    ensures Walk(v, a) == Walk(v, b)
    decreases |a|
  {
    if a != [] {
      SameKeysHead(a, b);
      assert Get(v, a[0]) == Get(v, b[0]);
      if Get(v, a[0]).Some? {
        SameWalk(Get(v, a[0]).value, a[1..], b[1..]);
      }
    }
  }

  /** A value in which one segment leads to `w`, and any other to nothing or to a dead end. */
  function Wrap(segment: string, w: Json): Json {
    match ParseUsize(segment)
    case Some(i) => Array(seq(i, _ => Bool(false)) + [w])
    case None => Object(map[segment := w])
  }

  lemma WrapGet(segment: string, w: Json, s: string)
    ensures SameKey(segment, s) ==> Get(Wrap(segment, w), s) == Some(w)
    ensures !SameKey(segment, s) ==> Get(Wrap(segment, w), s) in {None, Some(Bool(false))}
  {
  }

  /** A value whose null lies at the end of the given segments, and nowhere else. */
  function Nest(segments: seq<string>): Json {
    if segments == [] then Null else Wrap(segments[0], Nest(segments[1..]))
  }

  lemma DeadEnd(v: Json, segments: seq<string>)
    requires v == Null || v == Bool(false)
    ensures Walk(v, segments) == if segments == [] then Some(v) else None
  {
  }

  lemma {:induction false} NestSeparates(a: seq<string>, b: seq<string>)
    ensures Walk(Nest(a), b) == Some(Null) <==> SameKeys(a, b)
    decreases |a|
  {
    if a == [] {
      DeadEnd(Null, b);
    } else if b != [] {
      var w := Nest(a[1..]);
      WrapGet(a[0], w, b[0]);
      SameKeysHead(a, b);
      NestSeparates(a[1..], b[1..]);
      DeadEnd(Bool(false), b[1..]);
    }
  }

  /** Lists of segments that do not step alike part ways in some value. */
  lemma Separator(a: seq<string>, b: seq<string>) returns (v: Json)
    requires !SameKeys(a, b)
    ensures Walk(v, a) != Walk(v, b)
  {
    v := Nest(a);
    NestSeparates(a, b);
    NestSeparates(a, a);
  }

  // ---- counting segments --------------------------------------------------

  /** The separators of a path: dots and opening brackets. */
  function Separators(path: string): nat {
    if path == "" then 0
    else Separators(path[..|path| - 1]) + if path[|path| - 1] in ".[" then 1 else 0
  }

  lemma {:induction false} SeparatorsConcat(a: string, b: string)
    ensures Separators(a + b) == Separators(a) + Separators(b)
    decreases |b|
  {
    if b == "" {
      assert a + b == a;
    } else {
      assert (a + b)[..|a + b| - 1] == a + b[..|b| - 1];
      SeparatorsConcat(a, b[..|b| - 1]);
    }
  }

  lemma {:induction false} SplitLonger(a: string, c: char)
    ensures |Split(a + [c], '.')| == |Split(a, '.')| + if c == '.' then 1 else 0
    decreases |a|
  {
    if a == "" {
      assert a + [c] == [c] && [c][1..] == "";
    } else {
      assert (a + [c])[1..] == a[1..] + [c];
      SplitLonger(a[1..], c);
    }
  }

  lemma {:induction false} UnbracketCount(p: string)
    ensures |Split(Unbracket(p), '.')| == 1 + Separators(p)
    decreases |p|
  {
    if p != "" {
      var front, c := p[..|p| - 1], p[|p| - 1];
      UnbracketCount(front);
      if c == ']' {
        assert Unbracket(p) == Unbracket(front);
      } else {
        SplitLonger(Unbracket(front), if c == '[' then '.' else c);
        assert Unbracket(p) == Unbracket(front) + [if c == '[' then '.' else c];
      }
    }
  }

  lemma {:induction false} PlainCount(p: string)
    requires '[' !in p
    ensures |Split(p, '.')| == 1 + Separators(p)
    decreases |p|
  {
    if p != "" {
      var front, c := p[..|p| - 1], p[|p| - 1];
      assert forall x :: x in front ==> x in p;
      assert c in p;
      PlainCount(front);
      SplitLonger(front, c);
      assert p == front + [c];
    }
  }

  lemma NormalizedCount(p: string)
    ensures |Split(Normalized(p), '.')| == 1 + Separators(p)
  {
    if '[' in p {
      UnbracketCount(p);
    } else {
      PlainCount(p);
    }
  }

  /** A path has one segment more than separators, unless it is empty or starts with a dot. */
  lemma KeysCount(p: string)
    ensures p != "" && p[0] != '.' ==> |Keys(p)| == 1 + Separators(p)
    ensures p == "" || p[0] == '.' ==> |Keys(p)| <= Separators(p)
  {
    if p != "" && p[0] == '.' {
      SeparatorsConcat(".", p[1..]);
      assert "." + p[1..] == p;
      assert "."[..0] == "";
      NormalizedCount(p[1..]);
    } else {
      NormalizedCount(p);
    }
  }

  // ---- closing brackets ---------------------------------------------------

  lemma {:induction false} UnbracketRemoves(p: string)
    ensures ']' !in Unbracket(p)
    decreases |p|
  {
    if p != "" {
      UnbracketRemoves(p[..|p| - 1]);
    }
  }

  lemma {:induction false} PartsHold(s: string, c: char)
    requires c != '.'
    ensures c in s <==> exists i :: 0 <= i < |Split(s, '.')| && c in Split(s, '.')[i]
    decreases |s|
  {
    if s != "" {
      PartsHold(s[1..], c);
      var rest, parts := Split(s[1..], '.'), Split(s, '.');
      assert c in s <==> c == s[0] || c in s[1..];
      if s[0] == '.' {
        assert forall i :: 0 <= i < |rest| ==> parts[i + 1] == rest[i];
      } else {
        assert parts[0] == [s[0]] + rest[0];
        assert forall i :: 1 <= i < |rest| ==> parts[i] == rest[i];
        assert c in parts[0] <==> c == s[0] || c in rest[0];
      }
    }
  }

  lemma BracketIsNoIndex(s: string)
    requires ']' in s
    ensures ParseUsize(s) == None
  {
    var i :| 0 <= i < |s| && s[i] == ']';
    var digits := if s[0] == '+' then s[1..] else s;
    assert digits[if s[0] == '+' then i - 1 else i] == ']';
    assert !IsDigit(']');
  }

  /** Removing a closing bracket changes a segment. */
  lemma RemovalShows(p: string)
    requires '[' !in p
    ensures SameKeys(Split(Unbracket(p), '.'), Split(p, '.')) <==> ']' !in p
  {
    var a, b := Split(Unbracket(p), '.'), Split(p, '.');
    if ']' in p {
      PartsHold(p, ']');
      var i :| 0 <= i < |b| && ']' in b[i];
      UnbracketRemoves(p);
      PartsHold(Unbracket(p), ']');
      BracketIsNoIndex(b[i]);
      assert i < |a| ==> !SameKey(a[i], b[i]);
    } else {
      UnbracketPlain(p);
    }
  }

  // ---- composition --------------------------------------------------------

  lemma SameKeysFront(a: seq<string>, b: seq<string>, c: seq<string>)
    ensures SameKeys(a + b, a + c) <==> SameKeys(b, c)
  {
    assert forall i :: 0 <= i < |a| ==> (a + b)[i] == a[i] == (a + c)[i];
    assert forall i :: 0 <= i < |b| ==> (a + b)[|a| + i] == b[i];
    assert forall i :: 0 <= i < |c| ==> (a + c)[|a| + i] == c[i];
    if SameKeys(a + b, a + c) {
      forall i | 0 <= i < |b| ensures SameKey(b[i], c[i]) {
        assert SameKey((a + b)[|a| + i], (a + c)[|a| + i]);
      }
    }
  }

  lemma SameKeysBack(a: seq<string>, b: seq<string>, c: seq<string>)
    requires |a| == |b|
    ensures SameKeys(a + c, b + c) <==> SameKeys(a, b)
  {
    assert forall i :: 0 <= i < |a| ==> (a + c)[i] == a[i] && (b + c)[i] == b[i];
    assert forall i :: 0 <= i < |c| ==> (a + c)[|a| + i] == c[i] == (b + c)[|a| + i];
    if SameKeys(a + c, b + c) {
      forall i | 0 <= i < |a| ensures SameKey(a[i], b[i]) {
        assert SameKey((a + c)[i], (b + c)[i]);
      }
    }
  }

  lemma PlainDot(s: string, q: string)
    requires '[' !in s && '[' !in q
    ensures Split(Normalized(s + "." + q), '.') == Split(s, '.') + Split(q, '.')
  {
    SplitConcat(s, '.', q);
    assert s + "." + q == s + ['.'] + q;
  }

  lemma BracketedDot(s: string, q: string)
    requires '[' in s || '[' in q
    ensures Split(Normalized(s + "." + q), '.') == Segments(s) + Segments(q)
  {
    SegmentsDot(s, q);
    assert '[' in s + "." + q;
  }

  /** Between a proper prefix and a proper rest only closing brackets can make a difference. */
  lemma DotKeys(s: string, q: string)
    ensures SameKeys(Split(Normalized(s + "." + q), '.'), Split(Normalized(s), '.') + Split(Normalized(q), '.'))
            <==> ('[' in q && '[' !in s ==> ']' !in s) && ('[' in s && '[' !in q ==> ']' !in q)
  {
    var a, b := Split(Normalized(s), '.'), Split(Normalized(q), '.');
    if '[' !in s && '[' !in q {
      PlainDot(s, q);
    } else {
      BracketedDot(s, q);
      if '[' !in s {
        RemovalShows(s);
        UnbracketCount(s);
        PlainCount(s);
        SameKeysBack(Segments(s), a, b);
      } else if '[' !in q {
        RemovalShows(q);
        SameKeysFront(a, Segments(q), b);
      }
    }
  }

  lemma DottedKeys(p: string, q: string)
    requires p != "" && StripDot(p) != ""
    ensures Keys(p + "." + q) == Split(Normalized(StripDot(p) + "." + q), '.')
  {
    StripDotPrefix(p, "." + q);
    assert p + "." + q == p + ("." + q) && StripDot(p) + "." + q == StripDot(p) + ("." + q);
  }

  lemma StripKeepsBrackets(p: string)
    ensures '[' in StripDot(p) <==> '[' in p
    ensures ']' in StripDot(p) <==> ']' in p
  {
    if p != "" && p[0] == '.' {
      assert p == "." + p[1..];
    }
  }

  /** A rest that is empty or starts with a dot loses a segment when it stands alone. */
  lemma RestShrinks(p: string, q: string)
    requires p != "" && StripDot(p) != "" && (q == "" || q[0] == '.')
    ensures |Keys(p + "." + q)| > |Keys(p) + Keys(q)|
  {
    var s := StripDot(p);
    DottedKeys(p, q);
    NormalizedCount(s + "." + q);
    NormalizedCount(s);
    KeysCount(q);
    SeparatorsConcat(s + ".", q);
    SeparatorsConcat(s, ".");
    assert "."[..0] == "" && Separators(".") == 1;
  }

  lemma AloneShrinks(p: string, q: string)
    requires (p == "" && q != "" && q[0] == '.') || p == "."
    ensures |Keys(p + "." + q)| > |Keys(p) + Keys(q)|
  {
    KeysCount(q);
    assert StripDot(p + "." + q) == p + q;
    assert p + q != "";
    NormalizedCount(p + q);
    SeparatorsConcat(p, q);
    assert p == "." ==> p[..0] == "" && Separators(p) == 1;
  }

  /** The segments of `p.q` step like those of `p` followed by those of `q` exactly when the two compose. */
  lemma KeysComposeIff(p: string, q: string)
    ensures SameKeys(Keys(p + "." + q), Keys(p) + Keys(q)) <==> Composable(p, q)
  {
    if p == "" && (q == "" || q[0] != '.') {
      assert StripDot(p + "." + q) == q == StripDot(q);
      assert Keys(p) + Keys(q) == Keys(q);
    } else if p == "" || p == "." {
      AloneShrinks(p, q);
    } else if q == "" || q[0] == '.' {
      RestShrinks(p, q);
    } else {
      DottedKeys(p, q);
      DotKeys(StripDot(p), q);
      StripKeepsBrackets(p);
    }
  }

  /** Extracting `p.q` is extracting `p`, and then `q` from the result. */
  lemma PathComposition(v: Json, p: string, q: string)
    requires Composable(p, q)
    ensures ExtractField(v, p + "." + q) == Then(ExtractField(v, p), q)
  {
    KeysComposeIff(p, q);
    ThenIsWalk(v, p, q);
    ThenIsWalk(v, p + "." + q, "");
    SameWalk(v, Keys(p + "." + q), Keys(p) + Keys(q));
  }

  /** And no other paths compose: the law holds in every value if and only if they are composable. */
  lemma PathCompositionIff(p: string, q: string)
    ensures (forall v :: ExtractField(v, p + "." + q) == Then(ExtractField(v, p), q)) <==> Composable(p, q)
  {
    KeysComposeIff(p, q);
    if Composable(p, q) {
      forall v ensures ExtractField(v, p + "." + q) == Then(ExtractField(v, p), q) {
        PathComposition(v, p, q);
      }
    } else {
      var v := Separator(Keys(p + "." + q), Keys(p) + Keys(q));
      ThenIsWalk(v, p, q);
      ThenIsWalk(v, p + "." + q, "");
      assert ExtractField(v, p + "." + q) != Then(ExtractField(v, p), q);
    }
  }

  /** Bracket keys against dotted ones: only a stray closing bracket makes a difference. */
  lemma BracketKeys(p: string, i: string)
    requires p != "" && !NoStrayClose(p) && '[' !in i && ']' !in i
    ensures !SameKeys(Keys(p + "[" + i + "]"), Keys(p + "." + i))
  {
    var s := StripDot(p);
    StripKeepsBrackets(p);
    IndexedKeys(p, i);
    DottedKeys(p, i);
    PlainDot(s, i);
    SegmentsIndex(s, i);
    SegmentsDot(s, i);
    UnbracketPlain(i);
    RemovalShows(s);
    UnbracketCount(s);
    PlainCount(s);
    SameKeysBack(Segments(s), Split(s, '.'), Split(i, '.'));
  }

  lemma IndexedKeys(p: string, i: string)
    requires p != ""
    ensures Keys(p + "[" + i + "]") == Segments(StripDot(p) + "[" + i + "]")
  {
    var s, rest := StripDot(p), "[" + i + "]";
    StripDotPrefix(p, rest);
    assert p + "[" + i + "]" == p + rest && s + "[" + i + "]" == s + rest;
    assert (s + rest)[|s|] == '[';
  }

  lemma LoneBracketKeys(i: string)
    ensures |Keys("" + "[" + i + "]")| > |Keys("" + "." + i)|
  {
    var path := "[" + i + "]";
    assert "" + "[" + i + "]" == path && path[0] == '[' && "" + "." + i == "." + i;
    KeysCount(path);
    SeparatorsConcat("[" + i, "]");
    SeparatorsConcat("[", i);
    assert "["[..0] == "" && Separators("[") == 1;
    assert StripDot("." + i) == i;
    NormalizedCount(i);
  }

  /** Exactly when a bracketed index reads like a dotted one in every value. */
  lemma BracketIsDotIff(p: string, i: string)
    requires '[' !in i && ']' !in i
    ensures (forall v :: ExtractField(v, p + "[" + i + "]") == ExtractField(v, p + "." + i))
            <==> NoStrayClose(p) && p != ""
  {
    if NoStrayClose(p) && p != "" {
      forall v ensures ExtractField(v, p + "[" + i + "]") == ExtractField(v, p + "." + i) {
        BracketIsDot(v, p, i);
      }
    } else {
      if p == "" {
        LoneBracketKeys(i);
      } else {
        BracketKeys(p, i);
      }
      var v := Separator(Keys(p + "[" + i + "]"), Keys(p + "." + i));
      ThenIsWalk(v, p + "[" + i + "]", "");
      ThenIsWalk(v, p + "." + i, "");
      assert ExtractField(v, p + "[" + i + "]") != ExtractField(v, p + "." + i);
    }
  }
}
