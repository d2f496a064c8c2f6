/** Numbers with comma separators, as the status report prints them. */
module FmtNum {
  import opened Text
  import opened Decimal

  /** A numeral in groups of three digits, counted from the right. */
  function Group(s: string): string {
    if |s| <= 3 then s else Group(s[..|s| - 3]) + "," + s[|s| - 3..]
  }

  function Reverse(s: string): (r: string)
    ensures |r| == |s|
  {
    if s == "" then "" else Reverse(s[1..]) + [s[0]]
  }

  lemma {:induction false} ReverseAppend(s: string, c: char)
    ensures Reverse(s + [c]) == [c] + Reverse(s)
    decreases |s|
  {
    if s == "" {
      assert s + [c] == [c] && Reverse([c][1..]) == "";
    } else {
      assert (s + [c])[1..] == s[1..] + [c];
      ReverseAppend(s[1..], c);
    }
  }

  /** One more digit in front opens a new group exactly after every third. */
  lemma {:induction false} GroupPrepend(c: char, t: string)
    ensures Group([c] + t) == if |t| > 0 && |t| % 3 == 0 then [c] + "," + Group(t) else [c] + Group(t)
    decreases |t|
  {
    if |t| > 3 {
      var front, last := t[..|t| - 3], t[|t| - 3..];
      GroupPrepend(c, front);
      ThreeLess(|t|);
      PrependGroup(c, front, last);
      assert t == front + last;
    } else if |t| == 3 {
      GroupSplit([c], t);
    }
  }

  lemma PrependGroup(c: char, front: string, last: string)
    requires front != "" && |last| == 3
    ensures Group([c] + (front + last)) == Group([c] + front) + "," + last
    ensures Group(front + last) == Group(front) + "," + last
  {
    GroupSplit([c] + front, last);
    GroupSplit(front, last);
    assert [c] + (front + last) == [c] + front + last;
  }

  lemma ThreeLess(n: nat)
    requires n >= 3
    ensures (n - 3) % 3 == n % 3
  {
  }

  lemma GroupSplit(front: string, last: string)
    requires front != "" && |last| == 3
    ensures Group(front + last) == Group(front) + "," + last
  {
    var s := front + last;
    assert s[..|s| - 3] == front && s[|s| - 3..] == last;
  }

  lemma ShortNumeral(n: nat)
    requires n < 1000
    ensures |Numeral(n)| <= 3
  {
    assert n >= 10 ==> |Numeral(n / 10)| <= 2;
  }

  lemma PushDigit(result: string, s: string, i: nat)
    requires i < |s| && Reverse(result) == Group(s[|s| - i..])
    ensures var c := s[|s| - 1 - i];
            Reverse(if i > 0 && i % 3 == 0 then result + [','] + [c] else result + [c]) == Group(s[|s| - 1 - i..])
  {
    var c, t := s[|s| - 1 - i], s[|s| - i..];
    assert s[|s| - 1 - i..] == [c] + t;
    GroupPrepend(c, t);
    ReverseAppend(result, ',');
    ReverseAppend(result + [','], c);
    ReverseAppend(result, c);
    assert [c] + ([','] + Group(t)) == [c] + "," + Group(t);
  }

  /** Push the digits from the right, with a comma before every third but the first; then reverse. */
  method FmtNum(n: nat) returns (r: string)
    ensures r == Group(Numeral(n))
  {
    if n < 1000 {
      ShortNumeral(n);
      return Numeral(n);
    }
    var s := Numeral(n);
    var result := "";
    for i := 0 to |s|
      invariant Reverse(result) == Group(s[|s| - i..])
    {
      var c := s[|s| - 1 - i];
      PushDigit(result, s, i);
      if i > 0 && i % 3 == 0 {
        result := result + [','];
      }
      result := result + [c];
    }
    assert s[0..] == s;
    r := Reverse(result);
  }

  // ---- laws ---------------------------------------------------------------

  function WithoutCommas(s: string): string {
    if s == "" then ""
    else
      var n := |s| - 1;
      WithoutCommas(s[..n]) + if s[n] == ',' then "" else [s[n]]
  }

  lemma {:induction false} WithoutCommasConcat(a: string, b: string)
    ensures WithoutCommas(a + b) == WithoutCommas(a) + WithoutCommas(b)
    decreases |b|
  {
    if b == "" {
      assert a + b == a;
    } else {
      var n := |b| - 1;
      assert (a + b)[..|a + b| - 1] == a + b[..n];
      WithoutCommasConcat(a, b[..n]);
    }
  }

  lemma {:induction false} WithoutCommasPlain(s: string)
    requires ',' !in s
    ensures WithoutCommas(s) == s
    decreases |s|
  {
    if s != "" {
      var front, last := s[..|s| - 1], s[|s| - 1];
      assert forall c :: c in front ==> c in s;
      WithoutCommasPlain(front);
      assert s == front + [last];
    }
  }

  lemma CommaErases(a: string, b: string)
    ensures WithoutCommas(a + "," + b) == WithoutCommas(a) + WithoutCommas(b)
  {
    WithoutCommasConcat(a + ",", b);
    assert (a + ",")[..|a|] == a;
  }

  lemma {:induction false} GroupErases(s: string)
    requires ',' !in s
    ensures WithoutCommas(Group(s)) == s
    decreases |s|
  {
    if |s| <= 3 {
      WithoutCommasPlain(s);
    } else {
      var a, b := s[..|s| - 3], s[|s| - 3..];
      GroupErases(a);
      WithoutCommasPlain(b);
      CommaErases(Group(a), b);
      assert s == a + b;
    }
  }

  /** The groups between the commas: the first has one to three digits, every later one three. */
  predicate IsGrouping(groups: seq<string>) {
    && |groups| >= 1 && 1 <= |groups[0]| <= 3
    && forall i :: 1 <= i < |groups| ==> |groups[i]| == 3
  }

  lemma {:induction false} GroupShape(s: string)
    requires s != "" && ',' !in s
    ensures IsGrouping(Split(Group(s), ','))
    ensures |Group(s)| == |s| + (|s| - 1) / 3
    decreases |s|
  {
    if |s| <= 3 {
      SplitWithoutSeparator(s, ',');
    } else {
      var n := |s| - 3;
      GroupShape(s[..n]);
      SplitConcat(Group(s[..n]), ',', s[n..]);
      SplitWithoutSeparator(s[n..], ',');
    }
  }

  /** For every number: without its commas the text is the decimal numeral, the groups have the right
      sizes, and d digits take d + (d-1)/3 characters. */
  lemma FmtNumMeaning(n: nat)
    ensures var d, r := |Numeral(n)|, Group(Numeral(n));
            WithoutCommas(r) == Numeral(n) && IsGrouping(Split(r, ',')) && |r| == d + (d - 1) / 3
  {
    NumeralLacks(n, ',');
    GroupErases(Numeral(n));
    GroupShape(Numeral(n));
  }

  /** Different numbers print differently. */
  lemma FmtNumInjective(m: nat, n: nat)
    requires Group(Numeral(m)) == Group(Numeral(n))
    ensures m == n
  {
    FmtNumMeaning(m);
    FmtNumMeaning(n);
    NumeralInjective(m, n);
  }
}
