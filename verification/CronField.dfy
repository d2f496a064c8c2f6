/** One field of a schedule: comma-separated clauses such as `*`, `7`, `1-5`, `1-30/5`, expanded
    into the values they stand for. */
module CronField {
  import opened Text
  import opened Decimal
  import opened Sequences

  /** What a clause denotes: the values from `lo` to `hi` in strides of `step`. `stepped` records
      that the clause was written with `/`, which the expansion walks with 32-bit additions. */
  datatype Stride = Stride(lo: nat, hi: nat, step: nat, stepped: bool) {
    predicate Valid() {
      lo <= U32_MAX && hi <= U32_MAX && 1 <= step <= U32_MAX && (!stepped ==> step == 1)
    }

    predicate Has(v: nat)
      requires Valid()
    {
      lo <= v <= hi && (v - lo) % step == 0
    }

    /** The walk ends by stepping past `hi`; it fails when that last addition leaves 32 bits. */
    predicate Overflows()
      requires Valid()
    {
      stepped && lo <= hi && WalkLast(lo, hi, step) + step > U32_MAX
    }
  }

  /** The last value of a walk from `lo` to `hi`. */
  function WalkLast(lo: nat, hi: nat, step: nat): (last: nat)
    requires step > 0 && lo <= hi
    ensures lo <= last <= hi < last + step
    decreases hi - lo
  {
    if lo + step <= hi then WalkLast(lo + step, hi, step) else lo
  }

  /** The outcome of expanding a field: its values, where a malformed field has none, or a 32-bit
      addition out of range. */
  datatype Expansion = Values(vals: seq<nat>) | Overflow

  function ParseBoth(a: string, b: string): (r: Option<(nat, nat)>)
    ensures r.Some? ==> r.value.0 <= U32_MAX && r.value.1 <= U32_MAX
  {
    var lo, hi := ParseU32(a), ParseU32(b);
    if lo.Some? && hi.Some? then Some((lo.value, hi.value)) else None
  }

  function ParseStepped(range: string, step: nat, max: nat): (r: Option<Stride>)
    requires max <= U32_MAX && 1 <= step <= U32_MAX
    ensures r.Some? ==> r.value.Valid()
  {
    if range == "*" then Some(Stride(0, max, step, true))
    else
      match SplitOnce(range, '-')
      case Some((a, b)) =>
        var span := ParseBoth(a, b);
        if span.Some? then Some(Stride(span.value.0, span.value.1, step, true)) else None
      case None =>
        var start := ParseU32(range);
        if start.Some? then Some(Stride(start.value, max, step, true)) else None
  }

  function ParseUnstepped(part: string, max: nat): (r: Option<Stride>)
    requires max <= U32_MAX
    ensures r.Some? ==> r.value.Valid()
  {
    if part == "*" then Some(Stride(0, max, 1, false))
    else
      match SplitOnce(part, '-')
      case Some((a, b)) =>
        var span := ParseBoth(a, b);
        if span.Some? then Some(Stride(span.value.0, span.value.1, 1, false)) else None
      case None =>
        var v := ParseU32(part);
        if v.Some? then Some(Stride(v.value, v.value, 1, false)) else None
  }

  function ParseClause(part: string, max: nat): (r: Option<Stride>)
    requires max <= U32_MAX
    ensures r.Some? ==> r.value.Valid()
  {
    match SplitOnce(part, '/')
    case Some((range, stepText)) =>
      var step := ParseU32(stepText);
      if step.Some? && step.value > 0 then ParseStepped(range, step.value, max) else None
    case None => ParseUnstepped(part, max)
  }

  /** The values of a walk from `lo` to `hi`, in order. */
  function Progression(lo: nat, hi: nat, step: nat): seq<nat>
    requires step > 0
    decreases if lo <= hi then hi + 1 - lo else 0
  {
    if lo <= hi then [lo] + Progression(lo + step, hi, step) else []
  }

  /** A clause as parsed: nothing when it is malformed. */
  type Parsed = p: Option<Stride> | p.Some? ==> p.value.Valid() witness None

  function ParseAll(parts: seq<string>, max: nat): (ps: seq<Parsed>)
    requires max <= U32_MAX
    ensures |ps| == |parts| && forall i :: 0 <= i < |parts| ==> ps[i] == ParseClause(parts[i], max)
  {
    seq(|parts|, i requires 0 <= i < |parts| => ParseClause(parts[i], max))
  }

  /** Clause by clause: a malformed clause empties the field, a walk out of range breaks it. */
  function Expand(ps: seq<Parsed>, acc: seq<nat>): Expansion {
    if ps == [] then Values(acc)
    else
      match ps[0]
      case None => Values([])
      case Some(c) => if c.Overflows() then Overflow else Expand(ps[1..], acc + Progression(c.lo, c.hi, c.step))
  }

  function ExpandField(field: string, max: nat): Expansion
    requires max <= U32_MAX
  {
    Expand(ParseAll(Split(field, ','), max), [])
  }

  // ---- the declarative reading --------------------------------------------

  predicate AllParse(ps: seq<Parsed>) {
    forall i :: 0 <= i < |ps| ==> ps[i].Some?
  }

  /** The walk of clause `i` leaves 32 bits, with nothing malformed at or before it. */
  predicate FailsAt(ps: seq<Parsed>, i: nat)
    requires i < |ps|
  {
    (forall j :: 0 <= j <= i ==> ps[j].Some?) && ps[i].value.Overflows()
  }

  ghost predicate SomeFails(ps: seq<Parsed>) {
    exists i :: 0 <= i < |ps| && FailsAt(ps, i)
  }

  /** Some clause denotes `v`. */
  ghost predicate SomeHas(ps: seq<Parsed>, v: nat) {
    exists i :: 0 <= i < |ps| && ps[i].Some? && ps[i].value.Has(v)
  }

  // ---- strides and remainders ---------------------------------------------

  lemma ProductAtLeast(s: int, k: int)
    requires s >= 0 && k >= 1
    ensures s * k >= s
  {
    assert s * k == s + s * (k - 1);
  }

  lemma RemainderUnique(a: int, s: int, q: int, r: int)
    requires s > 0 && a == s * q + r && 0 <= r < s
    ensures a % s == r
  {
    var q', r' := a / s, a % s;
    assert s * (q - q') == r' - r && s * (q' - q) == r - r';
    if q > q' {
      ProductAtLeast(s, q - q');
    } else if q' > q {
      ProductAtLeast(s, q' - q);
    }
  }

  lemma RemainderAfterMultiple(a: int, d: int, s: int)
    requires s > 0 && a % s == 0
    ensures (a + d) % s == d % s
  {
    assert a + d == s * (a / s + d / s) + d % s;
    RemainderUnique(a + d, s, a / s + d / s, d % s);
  }

  lemma SmallRemainder(a: int, s: int)
    requires 0 <= a < s
    ensures a % s == a
  {
    RemainderUnique(a, s, 0, a);
  }

  // ---- the expansion loops ------------------------------------------------

  /** The `while v <= end` walk of a stepped clause, in 32-bit additions. */
  method PushWalk(result: seq<nat>, c: Stride) returns (r: Expansion)
    requires c.Valid() && c.stepped
    ensures r == if c.Overflows() then Overflow else Values(result + Progression(c.lo, c.hi, c.step))
  {
    var out: seq<nat> := result;
    var v: nat := c.lo;
    while v <= c.hi
      invariant out + Progression(v, c.hi, c.step) == result + Progression(c.lo, c.hi, c.step)
      invariant v <= c.hi ==> c.lo <= c.hi && WalkLast(v, c.hi, c.step) == WalkLast(c.lo, c.hi, c.step)
      invariant c.lo <= c.hi < v ==> !c.Overflows()
      decreases if v <= c.hi then c.hi + 1 - v else 0
    {
      out := out + [v];
      if v + c.step > U32_MAX {
        return Overflow;
      }
      v := v + c.step;
    }
    return Values(out);
  }

  /** The `for v in lo..=hi` loop of a clause without a step. */
  method PushRange(result: seq<nat>, lo: nat, hi: nat) returns (out: seq<nat>)
    ensures out == result + Progression(lo, hi, 1)
  {
    out := result;
    var v := lo;
    while v <= hi
      invariant out + Progression(v, hi, 1) == result + Progression(lo, hi, 1)
      decreases if v <= hi then hi + 1 - v else 0
    {
      out := out + [v];
      v := v + 1;
    }
  }

  /** Expand a single field into its values, clause by clause. */
  method ExpandCronField(field: string, max: nat) returns (r: Expansion)
    requires max <= U32_MAX
    ensures r == ExpandField(field, max)
  {
    var parts := Split(field, ',');
    ghost var ps := ParseAll(parts, max);
    var result: seq<nat> := [];
    for i := 0 to |parts|
      invariant Expand(ps[i..], result) == Expand(ps, [])
    {
      var clause := ParseClause(parts[i], max);
      assert ps[i..][0] == clause && ps[i..][1..] == ps[i + 1..];
      if clause.None? {
        return Values([]);
      }
      var c := clause.value;
      if c.stepped {
        var walked := PushWalk(result, c);
        if walked.Overflow? {
          return Overflow;
        }
        result := walked.vals;
      } else {
        result := PushRange(result, c.lo, c.hi);
      }
    }
    return Values(result);
  }

  // ---- what the expansion means -------------------------------------------

  lemma StrideLater(lo: nat, step: nat, v: nat)
    requires step > 0 && lo <= v
    ensures (v - lo) % step == 0 <==> v == lo || (lo + step <= v && (v - (lo + step)) % step == 0)
  {
    RemainderUnique(0, step, 0, 0);
    if v < lo + step {
      SmallRemainder(v - lo, step);
    } else {
      RemainderUnique(step, step, 1, 0);
      RemainderAfterMultiple(step, v - (lo + step), step);
    }
  }

  lemma {:induction false} ProgressionHas(lo: nat, hi: nat, step: nat, v: nat)
    requires step > 0
    ensures v in Progression(lo, hi, step) <==> lo <= v <= hi && (v - lo) % step == 0
    decreases if lo <= hi then hi + 1 - lo else 0
  {
    if lo <= hi {
      ProgressionHas(lo + step, hi, step, v);
      if lo <= v {
        StrideLater(lo, step, v);
      }
    }
  }

  /** A walk lists, in increasing order, exactly the values its clause denotes. */
  lemma {:induction false} ProgressionMeaning(lo: nat, hi: nat, step: nat)
    requires step > 0
    ensures Increasing(Progression(lo, hi, step))
    ensures forall v: nat :: v in Progression(lo, hi, step) <==> lo <= v <= hi && (v - lo) % step == 0
    decreases if lo <= hi then hi + 1 - lo else 0
  {
    if lo <= hi {
      var rest := Progression(lo + step, hi, step);
      ProgressionMeaning(lo + step, hi, step);
      assert forall i :: 0 <= i < |rest| ==> rest[i] in rest;
    }
    forall v: nat ensures v in Progression(lo, hi, step) <==> lo <= v <= hi && (v - lo) % step == 0 {
      ProgressionHas(lo, hi, step, v);
    }
  }

  lemma FailsLater(ps: seq<Parsed>)
    requires ps != [] && ps[0].Some?
    ensures SomeFails(ps) <==> ps[0].value.Overflows() || SomeFails(ps[1..])
  {
    assert FailsAt(ps, 0) <==> ps[0].value.Overflows();
    if SomeFails(ps[1..]) {
      var i :| 0 <= i < |ps| - 1 && FailsAt(ps[1..], i);
      assert forall j :: 1 <= j <= i + 1 ==> ps[j] == ps[1..][j - 1];
      assert FailsAt(ps, i + 1);
    }
    if SomeFails(ps) && !ps[0].value.Overflows() {
      var i :| 0 <= i < |ps| && FailsAt(ps, i);
      assert FailsAt(ps[1..], i - 1);
    }
  }

  lemma HasLater(ps: seq<Parsed>, v: nat)
    requires ps != []
    ensures SomeHas(ps, v) <==> (ps[0].Some? && ps[0].value.Has(v)) || SomeHas(ps[1..], v)
  {
    assert forall i :: 1 <= i < |ps| ==> ps[1..][i - 1] == ps[i];
  }

  /** A field is all or nothing. It breaks exactly when some walk, with nothing malformed at or
      before it, leaves 32 bits. Otherwise its values are exactly the union of its clauses'
      meanings when every clause parses, and there are none when one does not. */
  lemma {:induction false} FieldDenotation(ps: seq<Parsed>, acc: seq<nat>, v: nat)
    ensures var r := Expand(ps, acc);
            && (r.Overflow? <==> SomeFails(ps))
            && (r.Values? && AllParse(ps) ==> (v in r.vals <==> v in acc || SomeHas(ps, v)))
            && (r.Values? && !AllParse(ps) ==> r.vals == [])
    decreases |ps|
  {
    if ps != [] && ps[0].Some? {
      var c := ps[0].value;
      FailsLater(ps);
      HasLater(ps, v);
      ProgressionMeaning(c.lo, c.hi, c.step);
      FieldDenotation(ps[1..], acc + Progression(c.lo, c.hi, c.step), v);
      assert ps == [ps[0]] + ps[1..];
    }
  }

  // ---- the clauses as a grammar -------------------------------------------

  datatype Base = Star | Single(v: nat) | Span(a: nat, b: nat)

  /** A clause as a person means it: a base, and possibly a stride through it. */
  datatype Clause = Clause(base: Base, stride: Option<nat>) {
    predicate Valid() {
      && (base.Single? ==> base.v <= U32_MAX)
      && (base.Span? ==> base.a <= U32_MAX && base.b <= U32_MAX)
      && (stride.Some? ==> 1 <= stride.value <= U32_MAX)
    }

    /** The values meant: a lone value stands for itself, but with a stride it starts an open range. */
    predicate Means(max: nat, v: nat)
      requires Valid()
    {
      match (base, stride)
      case (Star, None) => v <= max
      case (Single(w), None) => v == w
      case (Span(a, b), None) => a <= v <= b
      case (Star, Some(s)) => v <= max && v % s == 0
      case (Single(w), Some(s)) => w <= v <= max && (v - w) % s == 0
      case (Span(a, b), Some(s)) => a <= v <= b && (v - a) % s == 0
    }

    /** Some value meant is too large to be stepped from. */
    ghost predicate Overflows(max: nat)
      requires Valid()
    {
      stride.Some? && exists v: nat :: Means(max, v) && v + stride.value > U32_MAX
    }

    function BaseText(): string {
      match base
      case Star => "*"
      case Single(v) => Numeral(v)
      case Span(a, b) => Numeral(a) + "-" + Numeral(b)
    }

    function Text(): string {
      if stride.None? then BaseText() else BaseText() + "/" + Numeral(stride.value)
    }
  }

  predicate Plain(text: string) {
    forall i :: 0 <= i < |text| ==> text[i] != ',' && text[i] != '/' && !IsWhitespace(text[i])
  }

  lemma SpanText(a: nat, b: nat)
    ensures SplitOnce(Numeral(a) + "-" + Numeral(b), '-') == Some((Numeral(a), Numeral(b)))
  {
    NumeralLacks(a, '-');
    SplitOnceAt(Numeral(a), '-', Numeral(b));
  }

  lemma BasePlain(c: Clause)
    requires c.Valid()
    ensures Plain(c.BaseText())
  {
    var base := c.BaseText();
    forall i | 0 <= i < |base| ensures base[i] in "*-" || IsDigit(base[i]) {
    }
  }

  lemma UnsteppedRoundTrip(c: Clause, max: nat)
    requires max <= U32_MAX && c.Valid()
    ensures ParseUnstepped(c.BaseText(), max)
            == match c.base {
                 case Star => Some(Stride(0, max, 1, false))
                 case Single(v) => Some(Stride(v, v, 1, false))
                 case Span(a, b) => Some(Stride(a, b, 1, false))
               }
  {
    match c.base {
      case Star =>
      case Single(v) =>
        NumeralRoundTrip(v, U32_MAX);
        NumeralLacks(v, '-');
        SplitOnceMissing(Numeral(v), '-');
        assert IsDigit(Numeral(v)[0]);
      case Span(a, b) =>
        NumeralRoundTrip(a, U32_MAX);
        NumeralRoundTrip(b, U32_MAX);
        SpanText(a, b);
        assert IsDigit(c.BaseText()[0]);
    }
  }

  lemma SteppedRoundTrip(c: Clause, max: nat, step: nat)
    requires max <= U32_MAX && c.Valid() && 1 <= step <= U32_MAX
    ensures ParseStepped(c.BaseText(), step, max)
            == match c.base {
                 case Star => Some(Stride(0, max, step, true))
                 case Single(v) => Some(Stride(v, max, step, true))
                 case Span(a, b) => Some(Stride(a, b, step, true))
               }
  {
    match c.base {
      case Star =>
      case Single(v) =>
        NumeralRoundTrip(v, U32_MAX);
        NumeralLacks(v, '-');
        SplitOnceMissing(Numeral(v), '-');
        assert IsDigit(Numeral(v)[0]);
      case Span(a, b) =>
        NumeralRoundTrip(a, U32_MAX);
        NumeralRoundTrip(b, U32_MAX);
        SpanText(a, b);
        assert IsDigit(c.BaseText()[0]);
    }
  }

  lemma ClauseIsWord(c: Clause)
    requires c.Valid()
    ensures ',' !in c.Text() && IsWord(c.Text())
  {
    var base, text := c.BaseText(), c.Text();
    BasePlain(c);
    if c.stride.Some? {
      var step := Numeral(c.stride.value);
      forall i | 0 <= i < |text| ensures text[i] != ',' && !IsWhitespace(text[i]) {
        assert i < |base| || i == |base| || IsDigit(step[i - |base| - 1]);
      }
    }
  }

  /** The written form of a clause is read back as the values it means. */
  lemma ClauseRoundTrip(c: Clause, max: nat)
    requires max <= U32_MAX && c.Valid()
    ensures ParseClause(c.Text(), max).Some?
    ensures forall v :: ParseClause(c.Text(), max).value.Has(v) <==> c.Means(max, v)
  {
    var base := c.BaseText();
    BasePlain(c);
    if c.stride.None? {
      UnsteppedRoundTrip(c, max);
      SplitOnceMissing(base, '/');
      assert forall x: nat :: x % 1 == 0;
    } else {
      var step := c.stride.value;
      SteppedRoundTrip(c, max, step);
      NumeralRoundTrip(step, U32_MAX);
      SplitOnceAt(base, '/', Numeral(step));
    }
  }

  lemma {:induction false} LastOfWalk(lo: nat, hi: nat, step: nat)
    requires step > 0 && lo <= hi
    ensures Progression(lo, hi, step) != []
    ensures Progression(lo, hi, step)[|Progression(lo, hi, step)| - 1] == WalkLast(lo, hi, step)
    decreases hi - lo
  {
    var next := lo + step;
    if next <= hi {
      LastOfWalk(next, hi, step);
    } else {
      assert Progression(next, hi, step) == [];
    }
  }

  /** A walk overflows exactly when some value it denotes is too large to be stepped from. */
  lemma OverflowMeaning(c: Stride)
    requires c.Valid()
    ensures c.Overflows() <==> c.stepped && exists v: nat :: c.Has(v) && v + c.step > U32_MAX
  {
    var walk := Progression(c.lo, c.hi, c.step);
    ProgressionMeaning(c.lo, c.hi, c.step);
    if c.lo <= c.hi {
      LastOfWalk(c.lo, c.hi, c.step);
      var last := walk[|walk| - 1];
      assert c.Has(last) by { assert last in walk; }
      forall v: nat | c.Has(v) ensures v <= last {
        assert v in walk;
      }
    }
  }

  lemma {:induction false} WalkLastClosed(lo: nat, hi: nat, step: nat)
    requires step > 0 && lo <= hi
    ensures WalkLast(lo, hi, step) == hi - (hi - lo) % step
    decreases hi - lo
  {
    RemainderUnique(step, step, 1, 0);
    if lo + step <= hi {
      WalkLastClosed(lo + step, hi, step);
      RemainderAfterMultiple(step, hi - (lo + step), step);
    } else {
      SmallRemainder(hi - lo, step);
    }
  }

  /** The same from the clause's bounds alone: the last value is the end less the odd remainder. */
  lemma OverflowClosed(c: Stride)
    requires c.Valid()
    ensures c.Overflows() <==> c.stepped && c.lo <= c.hi && c.hi - (c.hi - c.lo) % c.step + c.step > U32_MAX
  {
    if c.lo <= c.hi {
      WalkLastClosed(c.lo, c.hi, c.step);
    }
  }

  lemma ClauseOverflow(c: Clause, max: nat)
    requires max <= U32_MAX && c.Valid()
    ensures ParseClause(c.Text(), max).Some?
    ensures ParseClause(c.Text(), max).value.Overflows() <==> c.Overflows(max)
  {
    ClauseRoundTrip(c, max);
    var s := ParseClause(c.Text(), max).value;
    OverflowMeaning(s);
    if c.stride.None? {
      UnsteppedRoundTrip(c, max);
      BasePlain(c);
      SplitOnceMissing(c.BaseText(), '/');
    } else {
      BasePlain(c);
      SteppedRoundTrip(c, max, c.stride.value);
      NumeralRoundTrip(c.stride.value, U32_MAX);
      SplitOnceAt(c.BaseText(), '/', Numeral(c.stride.value));
      assert s.stepped && s.step == c.stride.value;
      forall v: nat ensures s.Has(v) && v + s.step > U32_MAX <==> c.Means(max, v) && v + c.stride.value > U32_MAX {
      }
    }
  }

  function Texts(cs: seq<Clause>): (ts: seq<string>)
    ensures |ts| == |cs| && forall i :: 0 <= i < |cs| ==> ts[i] == cs[i].Text()
  {
    if cs == [] then [] else [cs[0].Text()] + Texts(cs[1..])
  }

  function FieldText(cs: seq<Clause>): string {
    Join(Texts(cs), ",")
  }

  /** Some clause means `v`. */
  ghost predicate SomeMeans(cs: seq<Clause>, max: nat, v: nat) {
    exists i :: 0 <= i < |cs| && cs[i].Valid() && cs[i].Means(max, v)
  }

  lemma TextParses(cs: seq<Clause>, max: nat, i: nat)
    requires max <= U32_MAX && i < |cs| && cs[i].Valid()
    ensures var ps := ParseAll(Texts(cs), max);
            && ps[i].Some? && (forall v :: ps[i].value.Has(v) <==> cs[i].Means(max, v))
            && (ps[i].value.Overflows() <==> cs[i].Overflows(max))
  {
    ClauseRoundTrip(cs[i], max);
    ClauseOverflow(cs[i], max);
  }

  lemma TextsParse(cs: seq<Clause>, max: nat, v: nat)
    requires max <= U32_MAX && forall i :: 0 <= i < |cs| ==> cs[i].Valid()
    ensures var ps := ParseAll(Texts(cs), max);
            && AllParse(ps)
            && (SomeHas(ps, v) <==> SomeMeans(cs, max, v))
            && (SomeFails(ps) <==> exists i :: 0 <= i < |cs| && cs[i].Overflows(max))
  {
    var ps := ParseAll(Texts(cs), max);
    forall i | 0 <= i < |cs|
      ensures ps[i].Some? && (ps[i].value.Has(v) <==> cs[i].Means(max, v))
      ensures ps[i].value.Overflows() <==> cs[i].Overflows(max)
    {
      TextParses(cs, max, i);
    }
    assert forall i :: 0 <= i < |cs| ==> (FailsAt(ps, i) <==> cs[i].Overflows(max));
  }

  lemma FieldTextParts(cs: seq<Clause>)
    requires cs != [] && forall i :: 0 <= i < |cs| ==> cs[i].Valid()
    ensures Split(FieldText(cs), ',') == Texts(cs)
  {
    forall i | 0 <= i < |cs| ensures ',' !in Texts(cs)[i] {
      ClauseIsWord(cs[i]);
    }
    SplitJoin(Texts(cs), ',');
    SplitEachClean(Texts(cs), ',');
  }

  /** A written list of clauses expands to exactly the values that some clause means; it fails to
      exactly when a clause with a stride means a value too large to be stepped from. */
  lemma FieldRoundTrip(cs: seq<Clause>, max: nat, v: nat)
    requires max <= U32_MAX && cs != [] && forall i :: 0 <= i < |cs| ==> cs[i].Valid()
    ensures var r := ExpandField(FieldText(cs), max);
            && (r.Values? ==> (v in r.vals <==> SomeMeans(cs, max, v)))
            && (r.Overflow? <==> exists i :: 0 <= i < |cs| && cs[i].Overflows(max))
  {
    FieldTextParts(cs);
    TextsParse(cs, max, v);
    FieldDenotation(ParseAll(Texts(cs), max), [], v);
  }

  lemma NumeralDigit(n: nat, front: string, d: nat)
    requires n > 0 && Numeral(n) == front && d < 10
    ensures Numeral(10 * n + d) == front + [DigitChar(d)]
  {
  }

  lemma WideNumeral(top: nat)
    requires top == U32_MAX
    ensures Numeral(top) == "4294967295"
  {
    assert Numeral(42949) == "42949";
    NumeralDigit(42949, "42949", 6);
    NumeralDigit(429496, "429496", 7);
    NumeralDigit(4294967, "4294967", 2);
    NumeralDigit(42949672, "42949672", 9);
    NumeralDigit(429496729, "429496729", 5);
  }

  lemma SpanClauseText(c: Clause, a: string, b: string, step: string)
    requires c.base.Span? && Numeral(c.base.a) == a && Numeral(c.base.b) == b
    requires c.stride.Some? && Numeral(c.stride.value) == step
    ensures c.Text() == a + "-" + b + "/" + step
  {
  }

  lemma LoneFieldOverflows(c: Clause, max: nat)
    requires max <= U32_MAX && c.Valid() && c.Overflows(max)
    ensures ExpandField(c.Text(), max) == Overflow
  {
    var cs := [c];
    assert cs[0].Overflows(max);
    FieldRoundTrip(cs, max, 0);
    assert Texts(cs) == [c.Text()];
  }

  lemma WideClause(c: Clause, top: nat, max: nat)
    requires c == Clause(Span(0, top), Some(2)) && top == U32_MAX
    ensures c.Valid() && c.Overflows(max)
  {
    assert c.Means(max, top - 1);
  }

  lemma WideText(text: string, top: string)
    requires text == "0-4294967295/2" && top == "4294967295"
    ensures "0" + "-" + top + "/" + "2" == text
  {
  }

  /** A field that breaks: every second value of the whole 32-bit range. */
  lemma FieldOverflowExample(text: string, top: nat, max: nat)
    requires text == "0-4294967295/2" && top == U32_MAX && max <= U32_MAX
    ensures ExpandField(text, max) == Overflow
  {
    var c := Clause(Span(0, top), Some(2));
    WideNumeral(top);
    SpanClauseText(c, "0", Numeral(top), "2");
    WideText(text, Numeral(top));
    WideClause(c, top, max);
    LoneFieldOverflows(c, max);
  }
}
