/** What extraction finds, said of values alone: elements of arrays by index, fields of objects by name. */
module JsonLaws {
  import opened Text
  import opened Decimal
  import opened JsonPath

  /** The segment is an unsigned number of at most 64 bits. */
  ghost predicate ReadsAsIndex(segment: string, n: nat) {
    IsNumber(segment, n) && n <= 18446744073709551615
  }

  ghost predicate IsName(segment: string) {
    forall n: nat :: !ReadsAsIndex(segment, n)
  }

  /** One step: an index leads to that element of an array, a name to that field of an object, and
      nothing else leads anywhere. */
  ghost predicate Leads(v: Json, segment: string, w: Json) {
    || (v.Array? && exists n: nat :: ReadsAsIndex(segment, n) && n < |v.elems| && w == v.elems[n])
    || (v.Object? && IsName(segment) && segment in v.fields && w == v.fields[segment])
  }

  /** The segments lead, one after the other, from `v` to `w`. */
  ghost predicate Reaches(v: Json, segments: seq<string>, w: Json) {
    if segments == [] then v == w
    else exists u :: Leads(v, segments[0], u) && Reaches(u, segments[1..], w)
  }

  lemma IndexParsed(segment: string, n: nat)
    ensures ParseUsize(segment) == Some(n) <==> ReadsAsIndex(segment, n)
  {
    ParseMeaning(segment, USIZE_MAX, n);
  }

  lemma NameNotParsed(segment: string)
    ensures ParseUsize(segment) == None <==> IsName(segment)
  {
    if ParseUsize(segment).Some? {
      IndexParsed(segment, ParseUsize(segment).value);
    } else {
      forall n: nat ensures !ReadsAsIndex(segment, n) {
        IndexParsed(segment, n);
      }
    }
  }

  lemma StepLeads(v: Json, segment: string, w: Json)
    ensures Get(v, segment) == Some(w) <==> Leads(v, segment, w)
  {
    NameNotParsed(segment);
    if ParseUsize(segment).Some? {
      var i := ParseUsize(segment).value;
      IndexParsed(segment, i);
      forall n: nat | ReadsAsIndex(segment, n) ensures n == i {
        IndexParsed(segment, n);
      }
    }
  }

  lemma {:induction false} WalkReaches(v: Json, segments: seq<string>, w: Json)
    ensures Walk(v, segments) == Some(w) <==> Reaches(v, segments, w)
    decreases |segments|
  {
    if segments != [] {
      var next := Get(v, segments[0]);
      if next.Some? {
        StepLeads(v, segments[0], next.value);
        WalkReaches(next.value, segments[1..], w);
      }
      forall u | Leads(v, segments[0], u) ensures next == Some(u) {
        StepLeads(v, segments[0], u);
      }
    }
  }

  /** A path of one segment is one step. */
  lemma OneSegment(v: Json, segment: string)
    requires IsSegment(segment) && segment != ""
    ensures ExtractField(v, segment) == Get(v, segment)
  {
    SplitWithoutSeparator(segment, '.');
    assert segment[0] in segment;
    assert StripDot(segment) == segment && Normalized(segment) == segment;
    var found := Get(v, segment);
    assert [segment][1..] == [];
    assert found.Some? ==> Walk(found.value, []) == found;
  }

  /** An index enters arrays only, and finds exactly the element that it counts to. */
  lemma ExtractIndex(v: Json, n: nat)
    requires n <= 18446744073709551615
    ensures ExtractField(v, Numeral(n)) == if v.Array? && n < |v.elems| then Some(v.elems[n]) else None
  {
    NumeralLacks(n, '.');
    NumeralLacks(n, '[');
    NumeralLacks(n, ']');
    OneSegment(v, Numeral(n));
    NumeralRoundTrip(n, USIZE_MAX);
  }

  /** A name enters objects only, and finds exactly their field of that name. */
  lemma ExtractName(v: Json, name: string)
    requires IsSegment(name) && name != "" && IsName(name)
    ensures ExtractField(v, name) == if v.Object? && name in v.fields then Some(v.fields[name]) else None
  {
    NameNotParsed(name);
    OneSegment(v, name);
  }

  /** The empty path, or a lone dot, is the value itself. */
  lemma ExtractRoot(v: Json, path: string)
    requires path == "" || path == "."
    ensures ExtractField(v, path) == Some(v)
  {
  }

  /** However a path is written, it finds exactly what its segments lead to. */
  lemma PathReaches(v: Json, first: string, later: seq<Later>, w: Json)
    requires IsSegment(first) && first != "" && forall i :: 0 <= i < |later| ==> IsSegment(later[i].segment)
    ensures ExtractField(v, PathText(first, later)) == Some(w) <==> Reaches(v, PathSegments(first, later), w)
    ensures ExtractField(v, "." + PathText(first, later)) == Some(w) <==> Reaches(v, PathSegments(first, later), w)
  {
    WrittenPath(v, first, later);
    WalkReaches(v, PathSegments(first, later), w);
  }
}
