/** The textual form of an escalation policy: a map from strings to actions, in which numerals stand
    for failure counts and `terminal` for the timeout action. */
module PolicyText {
  import opened Text
  import opened Decimal
  import opened Escalation
  import opened Sequences

  type Entry = (string, Action)

  const TERMINAL: string := "terminal"

  /** A policy, or the key that is neither `terminal` nor a 32-bit number. */
  datatype Outcome = Read(policy: Policy) | BadKey(key: string)

  // ---- orders -------------------------------------------------------------

  predicate IsLeast(m: nat, s: set<nat>) {
    m in s && forall j :: j in s ==> m <= j
  }

  lemma {:induction false} LeastExists(s: set<nat>) returns (m: nat)
    requires s != {}
    ensures IsLeast(m, s)
    decreases |s|
  {
    var k :| k in s;
    m := k;
    if s != {k} {
      var n := LeastExists(s - {k});
      m := if n <= k then n else k;
      forall j | j in s ensures m <= j {
        assert j == k || j in s - {k};
      }
    }
  }

  function Least(s: set<nat>): (m: nat)
    requires s != {}
    ensures IsLeast(m, s)
  {
    assert exists m :: IsLeast(m, s) by {
      var m := LeastExists(s);
    }
    var m :| IsLeast(m, s);
    m
  }

  /** The order in which an ordered map visits its string keys. */
  predicate LexLe(a: string, b: string) {
    a == "" || (b != "" && (a[0] < b[0] || (a[0] == b[0] && LexLe(a[1..], b[1..]))))
  }

  lemma {:induction false} LexTotal(a: string, b: string)
    ensures LexLe(a, b) || LexLe(b, a)
    ensures LexLe(a, b) && LexLe(b, a) ==> a == b
    decreases |a|
  {
    if a != "" && b != "" && a[0] == b[0] {
      LexTotal(a[1..], b[1..]);
      assert a == [a[0]] + a[1..] && b == [b[0]] + b[1..];
    }
  }

  /** Dictionary order: a beginning comes first, and otherwise the first difference decides. */
  lemma {:induction false} LexMeaning(a: string, b: string)
    ensures LexLe(a, b) <==> a <= b || exists i :: 0 <= i < |a| && i < |b| && a[..i] == b[..i] && a[i] < b[i]
    decreases |a|
  {
    if a != "" && b != "" {
      var x, y := a[1..], b[1..];
      assert a == [a[0]] + x && b == [b[0]] + y;
      if a[0] == b[0] {
        LexMeaning(x, y);
        assert a <= b <==> x <= y;
        forall i | 0 <= i < |x| && i < |y| ensures x[..i] == y[..i] <==> a[..i + 1] == b[..i + 1] {
          assert a[..i + 1] == [a[0]] + x[..i] && b[..i + 1] == [b[0]] + y[..i];
          assert a[..i + 1][1..] == x[..i] && b[..i + 1][1..] == y[..i];
        }
        if exists i :: 0 <= i < |x| && i < |y| && x[..i] == y[..i] && x[i] < y[i] {
          var i :| 0 <= i < |x| && i < |y| && x[..i] == y[..i] && x[i] < y[i];
          assert a[..i + 1] == b[..i + 1] && a[i + 1] < b[i + 1];
        }
        forall i | 0 <= i < |a| && i < |b| && a[..i] == b[..i] && a[i] < b[i]
          ensures i > 0 && x[..i - 1] == y[..i - 1] && x[i - 1] < y[i - 1]
        {
        }
      } else {
        assert a[..0] == b[..0];
        forall i | 0 < i < |a| && i < |b| ensures a[..i] != b[..i] {
          assert a[..i][0] == a[0] && b[..i][0] == b[0];
        }
      }
    }
  }

  lemma {:induction false} LexTransitive(a: string, b: string, c: string)
    requires LexLe(a, b) && LexLe(b, c)
    ensures LexLe(a, c)
    decreases |a|
  {
    if a != "" && a[0] == b[0] == c[0] {
      LexTransitive(a[1..], b[1..], c[1..]);
    }
  }

  predicate IsLexLeast(k: string, s: set<string>) {
    k in s && forall j :: j in s ==> LexLe(k, j)
  }

  lemma {:induction false} LexLeastExists(s: set<string>) returns (k: string)
    requires s != {}
    ensures IsLexLeast(k, s)
    decreases |s|
  {
    var some :| some in s;
    if s == {some} {
      k := some;
      LexTotal(k, k);
    } else {
      var m := LexLeastExists(s - {some});
      LexTotal(m, some);
      k := if LexLe(m, some) then m else some;
      forall j | j in s ensures LexLe(k, j) {
        LexTotal(j, j);
        if j != some && k == some {
          LexTransitive(some, m, j);
        }
      }
    }
  }

  // ---- writing ------------------------------------------------------------

  function Sorted(keys: set<nat>): seq<nat>
    decreases |keys|
  {
    if keys == {} then [] else [Least(keys)] + Sorted(keys - {Least(keys)})
  }

  function RuleEntries(rules: map<nat, Action>, keys: seq<nat>): seq<Entry>
    requires forall k :: k in keys ==> k in rules
  {
    if keys == [] then [] else [(Numeral(keys[0]), rules[keys[0]])] + RuleEntries(rules, keys[1..])
  }

  lemma {:induction false} SortedHas(keys: set<nat>)
    ensures forall k :: k in Sorted(keys) <==> k in keys
    decreases |keys|
  {
    if keys != {} {
      SortedHas(keys - {Least(keys)});
    }
  }

  /** The rules are written in numeric order, each once. */
  lemma {:induction false} SortedIncreases(keys: set<nat>)
    ensures Increasing(Sorted(keys))
    decreases |keys|
  {
    if keys != {} {
      var rest := keys - {Least(keys)};
      SortedIncreases(rest);
      SortedHas(rest);
      assert forall i :: 0 <= i < |Sorted(rest)| ==> Sorted(rest)[i] in rest;
    }
  }

  function Serialized(p: Policy): seq<Entry> {
    SortedHas(p.rules.Keys);
    RuleEntries(p.rules, Sorted(p.rules.Keys)) + if p.terminal.Some? then [(TERMINAL, p.terminal.value)] else []
  }

  lemma {:induction false} RuleEntriesMeaning(rules: map<nat, Action>, keys: seq<nat>)
    requires forall k :: k in keys ==> k in rules
    ensures |RuleEntries(rules, keys)| == |keys|
    ensures forall i :: 0 <= i < |keys| ==> RuleEntries(rules, keys)[i] == (Numeral(keys[i]), rules[keys[i]])
    decreases |keys|
  {
    if keys != [] {
      RuleEntriesMeaning(rules, keys[1..]);
      assert forall i :: 1 <= i < |keys| ==> keys[i] == keys[1..][i - 1];
    }
  }

  /** The written form: for each rule, in numeric order, its key as a numeral and its action, and then
      the terminal action, if there is one, under the key `terminal`. */
  lemma SerializedMeaning(p: Policy)
    ensures var keys, entries := Sorted(p.rules.Keys), Serialized(p);
            && Increasing(keys) && (forall k :: k in keys <==> k in p.rules)
            && |entries| == |keys| + (if p.terminal.Some? then 1 else 0)
            && (forall i :: 0 <= i < |keys| ==>
                  keys[i] in p.rules && entries[i] == (Numeral(keys[i]), p.rules[keys[i]]))
            && (p.terminal.Some? ==> entries[|keys|] == ("terminal", p.terminal.value))
  {
    var keys := Sorted(p.rules.Keys);
    SortedIncreases(p.rules.Keys);
    SortedHas(p.rules.Keys);
    RuleEntriesMeaning(p.rules, keys);
    var written := RuleEntries(p.rules, keys);
    LastEntry(written, p.terminal);
    forall i | 0 <= i < |keys| ensures keys[i] in p.rules && written[i] == (Numeral(keys[i]), p.rules[keys[i]]) {
      assert keys[i] in keys;
    }
  }

  lemma LastEntry(written: seq<Entry>, terminal: Option<Action>)
    ensures var entries := written + if terminal.Some? then [(TERMINAL, terminal.value)] else [];
            && |entries| == |written| + (if terminal.Some? then 1 else 0)
            && (forall i :: 0 <= i < |written| ==> entries[i] == written[i])
            && (terminal.Some? ==> entries[|written|] == ("terminal", terminal.value))
  {
  }

  /** Write the rules in key order, then the terminal action. */
  method Serialize(p: Policy) returns (entries: seq<Entry>)
    ensures entries == Serialized(p)
  {
    var keys := p.rules.Keys;
    SortedHas(p.rules.Keys);
    entries := [];
    while keys != {}
      invariant keys <= p.rules.Keys
      invariant forall k :: k in Sorted(keys) ==> k in p.rules
      invariant entries + RuleEntries(p.rules, Sorted(keys)) == RuleEntries(p.rules, Sorted(p.rules.Keys))
      decreases keys
    {
      var k := Least(keys);
      assert Sorted(keys)[0] == k && Sorted(keys)[1..] == Sorted(keys - {k});
      entries := entries + [(Numeral(k), p.rules[k])];
      keys := keys - {k};
    }
    if p.terminal.Some? {
      entries := entries + [(TERMINAL, p.terminal.value)];
    }
  }

  // ---- reading ------------------------------------------------------------

  /** The ordered map of the raw entries: a repeated key keeps its last action. */
  function Raw(entries: seq<Entry>): map<string, Action> {
    if entries == [] then map[] else Raw(entries[..|entries| - 1])[entries[|entries| - 1].0 := entries[|entries| - 1].1]
  }

  predicate IsBad(k: string) {
    k != TERMINAL && ParseU32(k).None?
  }

  predicate Spells(k: string, n: nat) {
    k != TERMINAL && ParseU32(k) == Some(n)
  }

  /** The rule for `n` comes from the last spelling of `n` in string order. */
  predicate IsLastSpelling(k: string, seen: set<string>, n: nat) {
    k in seen && Spells(k, n) && forall j :: j in seen && Spells(j, n) ==> LexLe(j, k)
  }

  /** `a` is what the last spelling of `n` maps to. */
  ghost predicate HasRule(raw: map<string, Action>, seen: set<string>, n: nat, a: Action)
    requires seen <= raw.Keys
  {
    exists k :: IsLastSpelling(k, seen, n) && a == raw[k]
  }

  ghost predicate IsRead(raw: map<string, Action>, seen: set<string>, p: Policy)
    requires seen <= raw.Keys
  {
    && (forall k :: k in seen ==> !IsBad(k))
    && (forall k, n :: k in seen && Spells(k, n) ==> n in p.rules)
    && (forall n :: n in p.rules ==> HasRule(raw, seen, n, p.rules[n]))
    && p.terminal == if TERMINAL in seen then Some(raw[TERMINAL]) else None
  }

  /** What reading the raw map gives: the first bad key in string order, or the policy it spells. */
  ghost predicate IsOutcome(raw: map<string, Action>, r: Outcome) {
    match r
    case Read(p) => IsRead(raw, raw.Keys, p)
    case BadKey(k) => k in raw && IsBad(k) && forall j :: j in raw && IsBad(j) ==> LexLe(k, j)
  }

  lemma RuleStays(raw: map<string, Action>, seen: set<string>, n: nat, a: Action, k: string)
    requires seen <= raw.Keys && k in raw && HasRule(raw, seen, n, a) && !Spells(k, n)
    ensures HasRule(raw, seen + {k}, n, a)
  {
    var j :| IsLastSpelling(j, seen, n) && a == raw[j];
    assert IsLastSpelling(j, seen + {k}, n);
  }

  lemma RuleMoves(raw: map<string, Action>, seen: set<string>, n: nat, k: string)
    requires seen <= raw.Keys && k in raw && Spells(k, n) && forall j :: j in seen ==> LexLe(j, k)
    ensures HasRule(raw, seen + {k}, n, raw[k])
  {
    LexTotal(k, k);
    assert IsLastSpelling(k, seen + {k}, n);
  }

  lemma ReadRule(raw: map<string, Action>, seen: set<string>, p: Policy, k: string, n: nat)
    requires seen <= raw.Keys && IsRead(raw, seen, p) && k in raw && Spells(k, n)
    requires forall j :: j in seen ==> LexLe(j, k)
    ensures IsRead(raw, seen + {k}, p.(rules := p.rules[n := raw[k]]))
  {
    var rules := p.rules[n := raw[k]];
    RuleMoves(raw, seen, n, k);
    forall m | m in rules ensures HasRule(raw, seen + {k}, m, rules[m]) {
      if m != n {
        RuleStays(raw, seen, m, rules[m], k);
      }
    }
  }

  lemma ReadTerminal(raw: map<string, Action>, seen: set<string>, p: Policy)
    requires seen <= raw.Keys && IsRead(raw, seen, p) && TERMINAL in raw
    ensures IsRead(raw, seen + {TERMINAL}, p.(terminal := Some(raw[TERMINAL])))
  {
    forall m | m in p.rules ensures HasRule(raw, seen + {TERMINAL}, m, p.rules[m]) {
      RuleStays(raw, seen, m, p.rules[m], TERMINAL);
    }
  }

  lemma SeenMore(all: set<string>, keys: set<string>, k: string)
    requires keys <= all && k in keys
    ensures all - (keys - {k}) == all - keys + {k}
  {
  }

  method CollectRaw(entries: seq<Entry>) returns (raw: map<string, Action>)
    ensures raw == Raw(entries)
  {
    raw := map[];
    for i := 0 to |entries|
      invariant raw == Raw(entries[..i])
    {
      assert entries[..i + 1][..i] == entries[..i];
      raw := raw[entries[i].0 := entries[i].1];
    }
    assert entries[..|entries|] == entries;
  }

  /** The keys still to visit come after the ones visited. */
  ghost predicate Visited(raw: map<string, Action>, keys: set<string>) {
    keys <= raw.Keys && forall j, k :: j in raw.Keys - keys && k in keys ==> LexLe(j, k)
  }

  lemma VisitLeast(raw: map<string, Action>, keys: set<string>, k: string)
    requires Visited(raw, keys) && IsLexLeast(k, keys)
    ensures Visited(raw, keys - {k}) && raw.Keys - (keys - {k}) == raw.Keys - keys + {k}
  {
    SeenMore(raw.Keys, keys, k);
  }

  /** Read the entries back, key by key in string order. */
  method Deserialize(entries: seq<Entry>) returns (r: Outcome)
    ensures IsOutcome(Raw(entries), r)
  {
    var raw := CollectRaw(entries);
    var policy := Policy(map[], None);
    var keys := raw.Keys;
    while keys != {}
      invariant Visited(raw, keys) && IsRead(raw, raw.Keys - keys, policy)
      decreases keys
    {
      ghost var least := LexLeastExists(keys);
      var k :| IsLexLeast(k, keys);
      VisitLeast(raw, keys, k);
      ghost var seen := raw.Keys - keys;
      if k == TERMINAL {
        ReadTerminal(raw, seen, policy);
        policy := policy.(terminal := Some(raw[k]));
      } else {
        var key := ParseU32(k);
        if key.None? {
          FirstBad(raw, keys, k, policy);
          return BadKey(k);
        }
        ReadRule(raw, seen, policy, k, key.value);
        policy := policy.(rules := policy.rules[key.value := raw[k]]);
      }
      keys := keys - {k};
    }
    assert raw.Keys - {} == raw.Keys;
    return Read(policy);
  }

  lemma FirstBad(raw: map<string, Action>, keys: set<string>, k: string, p: Policy)
    requires Visited(raw, keys) && IsRead(raw, raw.Keys - keys, p) && IsLexLeast(k, keys) && IsBad(k)
    ensures IsOutcome(raw, BadKey(k))
  {
    forall j | j in raw && IsBad(j) ensures LexLe(k, j) {
      assert j in keys || j in raw.Keys - keys;
    }
  }

  /** The entries determine the outcome. */
  lemma OutcomeUnique(raw: map<string, Action>, r: Outcome, q: Outcome)
    requires IsOutcome(raw, r) && IsOutcome(raw, q)
    ensures r == q
  {
    if r.BadKey? && q.BadKey? {
      LexTotal(r.key, q.key);
    } else if r.Read? && q.Read? {
      ReadUnique(raw, r.policy, q.policy);
    }
  }

  lemma ReadUnique(raw: map<string, Action>, p: Policy, q: Policy)
    requires IsRead(raw, raw.Keys, p) && IsRead(raw, raw.Keys, q)
    ensures p == q
  {
    forall n | n in p.rules ensures n in q.rules && q.rules[n] == p.rules[n] {
      var j :| IsLastSpelling(j, raw.Keys, n) && p.rules[n] == raw[j];
      var k :| IsLastSpelling(k, raw.Keys, n) && q.rules[n] == raw[k];
      LexTotal(j, k);
    }
    forall n | n in q.rules ensures n in p.rules {
      var k :| IsLastSpelling(k, raw.Keys, n) && q.rules[n] == raw[k];
    }
    assert p.rules == q.rules;
  }

  // ---- round trip ---------------------------------------------------------

  lemma {:induction false} RawAppend(a: seq<Entry>, b: seq<Entry>)
    ensures forall k :: k in Raw(a + b) <==> k in Raw(a) || k in Raw(b)
    ensures forall k :: k in Raw(b) ==> Raw(a + b)[k] == Raw(b)[k]
    ensures forall k :: k in Raw(a) && k !in Raw(b) ==> Raw(a + b)[k] == Raw(a)[k]
    decreases |b|
  {
    if b == [] {
      assert a + b == a;
    } else {
      assert (a + b)[..|a + b| - 1] == a + b[..|b| - 1];
      RawAppend(a, b[..|b| - 1]);
    }
  }

  lemma {:induction false} RawRules(rules: map<nat, Action>, keys: seq<nat>)
    requires forall n :: n in keys ==> n in rules
    ensures var raw := Raw(RuleEntries(rules, keys));
            && (forall n :: n in keys ==> Numeral(n) in raw && raw[Numeral(n)] == rules[n])
            && (forall k :: k in raw ==> exists n :: n in keys && k == Numeral(n))
    decreases |keys|
  {
    if keys != [] {
      var rest := RuleEntries(rules, keys[1..]);
      var first := [(Numeral(keys[0]), rules[keys[0]])];
      RawRules(rules, keys[1..]);
      RawAppend(first, rest);
      assert first[..0] == [] && Raw(first) == map[Numeral(keys[0]) := rules[keys[0]]];
      var raw := Raw(RuleEntries(rules, keys));
      forall n | n in keys ensures Numeral(n) in raw && raw[Numeral(n)] == rules[n] {
        if n !in keys[1..] && Numeral(n) in Raw(rest) {
          var m :| m in keys[1..] && Numeral(n) == Numeral(m);
          NumeralInjective(m, n);
        }
      }
    }
  }

  /** The raw map of a written policy: its numerals, and `terminal` if it has a timeout action. */
  lemma RawOfSerialized(p: Policy)
    ensures var raw := Raw(Serialized(p));
            && (forall n :: n in p.rules ==> Numeral(n) in raw && raw[Numeral(n)] == p.rules[n])
            && (forall k :: k in raw && k != TERMINAL ==> exists n :: n in p.rules && k == Numeral(n))
            && (TERMINAL in raw <==> p.terminal.Some?)
            && (TERMINAL in raw ==> raw[TERMINAL] == p.terminal.value)
  {
    var keys := Sorted(p.rules.Keys);
    SortedHas(p.rules.Keys);
    var entries := RuleEntries(p.rules, keys);
    var last := if p.terminal.Some? then [(TERMINAL, p.terminal.value)] else [];
    RawRules(p.rules, keys);
    RawAppend(entries, last);
    assert p.terminal.Some? ==> last[..0] == [] && Raw(last) == map[TERMINAL := p.terminal.value];
    forall n: nat ensures Numeral(n) != TERMINAL {
      NumeralLacks(n, 't');
      assert TERMINAL[0] == 't';
    }
  }

  /** Reading a written policy gives the same rules and terminal action, for every policy. */
  lemma PolicyRoundTrip(p: Policy, r: Outcome)
    requires p.Valid() && IsOutcome(Raw(Serialized(p)), r)
    ensures r == Read(p)
  {
    var raw := Raw(Serialized(p));
    RawOfSerialized(p);
    forall k | k in raw && k != TERMINAL
      ensures exists n :: n in p.rules && k == Numeral(n) && Spells(k, n)
    {
      var n :| n in p.rules && k == Numeral(n);
      NumeralRoundTrip(n, U32_MAX);
    }
    forall n | n in p.rules ensures HasRule(raw, raw.Keys, n, p.rules[n]) {
      NumeralRoundTrip(n, U32_MAX);
      LexTotal(Numeral(n), Numeral(n));
      assert IsLastSpelling(Numeral(n), raw.Keys, n);
    }
    assert IsRead(raw, raw.Keys, p);
    OutcomeUnique(raw, r, Read(p));
  }
}
