/** Schedule fields as anyone may write them: which texts are clauses, and what a field of any text means. */
module CronGrammar {
  import opened Text
  import opened Decimal
  import opened CronField

  /** A star, one unsigned number, or two around a dash. */
  ghost predicate SpellsBase(text: string, base: Base) {
    match base
    case Star => text == "*"
    case Single(v) => IsNumber(text, v)
    case Span(a, b) => exists x, y :: IsNumber(x, a) && IsNumber(y, b) && text == x + "-" + y
  }

  /** A base, possibly followed by a slash and an unsigned number. */
  ghost predicate SpellsClause(text: string, c: Clause) {
    if c.stride.None? then SpellsBase(text, c.base)
    else exists b, s :: SpellsBase(b, c.base) && IsNumber(s, c.stride.value) && text == b + "/" + s
  }

  /** Some clause, with 32-bit values and a positive stride, is spelled by the text. */
  ghost predicate IsClauseText(text: string) {
    exists c: Clause :: c.Valid() && SpellsClause(text, c)
  }

  ghost predicate TextMeans(text: string, max: nat, v: nat) {
    exists c: Clause :: c.Valid() && SpellsClause(text, c) && c.Means(max, v)
  }

  ghost predicate TextOverflows(text: string, max: nat) {
    exists c: Clause :: c.Valid() && SpellsClause(text, c) && c.Overflows(max)
  }

  /** A number may be written with a sign or a zero in front. */
  lemma OtherSpellings(n: nat)
    ensures IsNumber(Numeral(n), n) && IsNumber("+" + Numeral(n), n) && IsNumber("0" + Numeral(n), n)
  {
    ValueOfNumeral(n);
    LeadingZero(Numeral(n));
    assert ("+" + Numeral(n))[1..] == Numeral(n);
  }

  // ---- bases --------------------------------------------------------------

  function BaseEnd(base: Base, max: nat, stepped: bool): nat {
    match base
    case Star => max
    case Single(v) => if stepped then max else v
    case Span(_, b) => b
  }

  function BaseStart(base: Base): nat {
    match base
    case Star => 0
    case Single(v) => v
    case Span(a, _) => a
  }

  /** What a valid clause denotes. */
  function StrideOf(c: Clause, max: nat): (s: Stride)
    requires c.Valid() && max <= U32_MAX
    ensures s.Valid()
  {
    Stride(BaseStart(c.base), BaseEnd(c.base, max, c.stride.Some?),
           if c.stride.Some? then c.stride.value else 1, c.stride.Some?)
  }

  lemma NumberLacks(s: string, n: nat, c: char)
    requires IsNumber(s, n) && !IsDigit(c) && c != '+'
    ensures c !in s && s != ""
  {
    NumberChars(s, n);
  }

  lemma SpanSplits(x: string, a: nat, y: string)
    requires IsNumber(x, a)
    ensures SplitOnce(x + "-" + y, '-') == Some((x, y)) && x + "-" + y != "*"
  {
    NumberLacks(x, a, '-');
    NumberLacks(x, a, '*');
    SplitOnceAt(x, '-', y);
    assert (x + "-" + y)[0] == x[0];
  }

  lemma SingleStays(text: string, v: nat)
    requires IsNumber(text, v)
    ensures SplitOnce(text, '-') == None && text != "*"
  {
    NumberLacks(text, v, '-');
    NumberLacks(text, v, '*');
    SplitOnceMissing(text, '-');
  }

  lemma BaseSpelled(text: string, c: Clause, max: nat)
    requires c.Valid() && max <= U32_MAX && SpellsBase(text, c.base)
    ensures c.stride.None? ==> ParseUnstepped(text, max) == Some(StrideOf(c, max))
    ensures c.stride.Some? ==> ParseStepped(text, c.stride.value, max) == Some(StrideOf(c, max))
    ensures '/' !in text
  {
    match c.base {
      case Star =>
      case Single(v) =>
        SingleStays(text, v);
        NumberLacks(text, v, '/');
        ParseMeaning(text, U32_MAX, v);
      case Span(a, b) =>
        var x, y :| IsNumber(x, a) && IsNumber(y, b) && text == x + "-" + y;
        SpanSplits(x, a, y);
        NumberLacks(x, a, '/');
        NumberLacks(y, b, '/');
        ParseMeaning(x, U32_MAX, a);
        ParseMeaning(y, U32_MAX, b);
    }
  }

  function BaseFrom(text: string): Option<Base> {
    if text == "*" then Some(Star)
    else
      match SplitOnce(text, '-')
      case Some((x, y)) =>
        var span := ParseBoth(x, y);
        if span.Some? then Some(Span(span.value.0, span.value.1)) else None
      case None =>
        var v := ParseU32(text);
        if v.Some? then Some(Single(v.value)) else None
  }

  lemma BaseFromSpells(text: string)
    requires BaseFrom(text).Some?
    ensures SpellsBase(text, BaseFrom(text).value)
    ensures Clause(BaseFrom(text).value, None).Valid()
  {
    if text != "*" {
      SplitOnceMeaning(text, '-');
      match SplitOnce(text, '-') {
        case Some((x, y)) =>
          ParseMeaning(x, U32_MAX, ParseU32(x).value);
          ParseMeaning(y, U32_MAX, ParseU32(y).value);
          assert text == x + "-" + y;
        case None =>
          ParseMeaning(text, U32_MAX, ParseU32(text).value);
      }
    }
  }

  lemma ParsedHasBase(text: string, step: nat, max: nat)
    requires max <= U32_MAX && 1 <= step <= U32_MAX
    ensures ParseUnstepped(text, max).Some? <==> BaseFrom(text).Some?
    ensures ParseStepped(text, step, max).Some? <==> BaseFrom(text).Some?
  {
  }

  // ---- clauses ------------------------------------------------------------

  /** However a clause is spelled, with signs and leading zeros, it is read as what it denotes. */
  lemma ClauseSpelled(text: string, c: Clause, max: nat)
    requires c.Valid() && max <= U32_MAX && SpellsClause(text, c)
    ensures ParseClause(text, max) == Some(StrideOf(c, max))
  {
    if c.stride.None? {
      BaseSpelled(text, c, max);
      SplitOnceMissing(text, '/');
    } else {
      var b, s :| SpellsBase(b, c.base) && IsNumber(s, c.stride.value) && text == b + "/" + s;
      BaseSpelled(b, c, max);
      SplitOnceAt(b, '/', s);
      ParseMeaning(s, U32_MAX, c.stride.value);
    }
  }

  /** Whatever is read as a clause spells one. */
  lemma ParsedSpells(text: string, max: nat) returns (c: Clause)
    requires max <= U32_MAX && ParseClause(text, max).Some?
    ensures c.Valid() && SpellsClause(text, c)
  {
    SplitOnceMeaning(text, '/');
    match SplitOnce(text, '/') {
      case Some((b, s)) =>
        var step := ParseU32(s).value;
        ParseMeaning(s, U32_MAX, step);
        ParsedHasBase(b, step, max);
        BaseFromSpells(b);
        c := Clause(BaseFrom(b).value, Some(step));
        assert text == b + "/" + s;
      case None =>
        ParsedHasBase(text, 1, max);
        BaseFromSpells(text);
        c := Clause(BaseFrom(text).value, None);
    }
  }

  lemma StrideMeans(c: Clause, max: nat)
    requires c.Valid() && max <= U32_MAX
    ensures forall v :: StrideOf(c, max).Has(v) <==> c.Means(max, v)
    ensures StrideOf(c, max).Overflows() <==> c.Overflows(max)
  {
    var s := StrideOf(c, max);
    assert forall x: nat :: x % 1 == 0;
    OverflowMeaning(s);
    if s.Overflows() {
      var v: nat :| s.Has(v) && v + s.step > U32_MAX;
      assert c.Means(max, v);
    }
  }

  /** A part of a field is accepted exactly when it spells a clause, and then read as all it can mean. */
  lemma PartMeaning(text: string, max: nat)
    requires max <= U32_MAX
    ensures ParseClause(text, max).Some? <==> IsClauseText(text)
    ensures var r := ParseClause(text, max);
            r.Some? ==> && (forall v :: r.value.Has(v) <==> TextMeans(text, max, v))
                        && (r.value.Overflows() <==> TextOverflows(text, max))
  {
    if IsClauseText(text) {
      var c: Clause :| c.Valid() && SpellsClause(text, c);
      ClauseSpelled(text, c, max);
    }
    var r := ParseClause(text, max);
    if r.Some? {
      var c := ParsedSpells(text, max);
      ClauseSpelled(text, c, max);
      StrideMeans(c, max);
      forall d: Clause | d.Valid() && SpellsClause(text, d)
        ensures forall v :: d.Means(max, v) <==> r.value.Has(v)
        ensures d.Overflows(max) <==> r.value.Overflows()
      {
        ClauseSpelled(text, d, max);
        StrideMeans(d, max);
      }
    }
  }

  // ---- fields -------------------------------------------------------------

  /** Every part up to the `i`-th is a clause, and that one breaks. */
  ghost predicate BreaksAt(parts: seq<string>, max: nat, i: nat)
    requires i < |parts|
  {
    (forall j :: 0 <= j <= i ==> IsClauseText(parts[j])) && TextOverflows(parts[i], max)
  }

  ghost predicate AllClauseTexts(parts: seq<string>) {
    forall i :: 0 <= i < |parts| ==> IsClauseText(parts[i])
  }

  ghost predicate SomeBreaks(parts: seq<string>, max: nat) {
    exists i :: 0 <= i < |parts| && BreaksAt(parts, max, i)
  }

  ghost predicate SomeTextMeans(parts: seq<string>, max: nat, v: nat) {
    exists i :: 0 <= i < |parts| && TextMeans(parts[i], max, v)
  }

  lemma PartsMeaning(parts: seq<string>, max: nat, v: nat)
    requires max <= U32_MAX
    ensures var ps := ParseAll(parts, max);
            && (AllParse(ps) <==> AllClauseTexts(parts))
            && (SomeFails(ps) <==> SomeBreaks(parts, max))
            && (SomeHas(ps, v) <==> SomeTextMeans(parts, max, v))
  {
    var ps := ParseAll(parts, max);
    forall i | 0 <= i < |parts|
      ensures ps[i].Some? <==> IsClauseText(parts[i])
      ensures ps[i].Some? && ps[i].value.Has(v) <==> TextMeans(parts[i], max, v)
      ensures ps[i].Some? ==> (ps[i].value.Overflows() <==> TextOverflows(parts[i], max))
    {
      PartMeaning(parts[i], max);
    }
    forall i | 0 <= i < |parts| ensures FailsAt(ps, i) <==> BreaksAt(parts, max, i) {
    }
  }

  /** For any text: the field breaks exactly when a clause does that has nothing but clauses before
      it; otherwise, when every comma part spells a clause, its values are exactly those that some
      part means, and when one does not, it has none. */
  lemma FieldTextMeaning(field: string, max: nat, v: nat)
    requires max <= U32_MAX
    ensures var parts, r := Split(field, ','), ExpandField(field, max);
            && (r.Overflow? <==> SomeBreaks(parts, max))
            && (r.Values? && AllClauseTexts(parts) ==> (v in r.vals <==> SomeTextMeans(parts, max, v)))
            && (r.Values? && !AllClauseTexts(parts) ==> r.vals == [])
  {
    PartsMeaning(Split(field, ','), max, v);
    FieldDenotation(ParseAll(Split(field, ','), max), [], v);
  }

  /** A text with a letter in it spells no clause. */
  lemma LettersSpellNothing(text: string, i: nat)
    requires i < |text| && text[i] !in "+*-/" && !IsDigit(text[i])
    ensures !IsClauseText(text)
  {
    forall c: Clause | c.Valid() && SpellsClause(text, c) ensures false {
      if c.stride.None? {
        BaseChars(text, c.base);
      } else {
        var b, s :| SpellsBase(b, c.base) && IsNumber(s, c.stride.value) && text == b + "/" + s;
        BaseChars(b, c.base);
        NumberChars(s, c.stride.value);
      }
    }
  }

  lemma BaseChars(text: string, base: Base)
    requires SpellsBase(text, base)
    ensures forall i :: 0 <= i < |text| ==> text[i] in "+*-" || IsDigit(text[i])
  {
    match base {
      case Star =>
      case Single(v) => NumberChars(text, v);
      case Span(a, b) =>
        var x, y :| IsNumber(x, a) && IsNumber(y, b) && text == x + "-" + y;
        NumberChars(x, a);
        NumberChars(y, b);
    }
  }

  /** Names of days and months are not understood. */
  lemma NamesExample(field: string, max: nat)
    requires field == "MON" && max <= U32_MAX
    ensures ExpandField(field, max) == Values([])
  {
    SplitWithoutSeparator(field, ',');
    LettersSpellNothing(field, 0);
    FieldTextMeaning(field, max, 0);
    assert !IsClauseText([field][0]);
  }
}
