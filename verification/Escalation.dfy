/** The escalation policy: which action a number of failures calls for, and its textual form. */
module Escalation {
  import opened Text
  import opened Decimal

  datatype Action = Retry | RetryWithComment | Hitl | Skip | Replan

  /** Rules by failure count, and the action for a timed-out HITL item. */
  datatype Policy = Policy(rules: map<nat, Action>, terminal: Option<Action>) {
    predicate Valid() {
      forall k :: k in rules ==> k <= U32_MAX
    }
  }

  // ---- lookup -------------------------------------------------------------

  /** The greatest key up to `count`. */
  function Floor(rules: map<nat, Action>, count: nat): (k: Option<nat>)
    ensures k.Some? ==> k.value in rules && k.value <= count
    ensures forall j :: j in rules && j <= count ==> k.Some? && j <= k.value
  {
    if count in rules then Some(count) else if count == 0 then None else Floor(rules, count - 1)
  }

  /** The action for a failure count: an exact hit, or the rule just below, or a silent retry. */
  function Resolve(p: Policy, count: nat): Action {
    if p.rules == map[] then Retry
    else if count in p.rules then p.rules[count]
    else
      match Floor(p.rules, count)
      case Some(k) => p.rules[k]
      case None => Retry
  }

  function DefaultPolicy(): Policy {
    Policy(map[1 := Retry, 2 := RetryWithComment, 3 := Hitl], Some(Skip))
  }

  /** `resolve` returns the action at the greatest key not above the count, or a retry when there is none. */
  lemma ResolveIsFloor(p: Policy, count: nat)
    ensures (exists k :: k in p.rules && k <= count)
            ==> exists k :: k in p.rules && k <= count && Resolve(p, count) == p.rules[k]
                            && forall j :: j in p.rules && j <= count ==> j <= k
    ensures (forall k :: k in p.rules ==> k > count) ==> Resolve(p, count) == Retry
  {
    var k := Floor(p.rules, count);
    if k.Some? {
      assert k.value in p.rules && Resolve(p, count) == p.rules[k.value];
    }
  }

  /** Severity as a caller ranks it, with a silent retry at the bottom. */
  ghost predicate RetryIsLowest(severity: Action -> nat) {
    forall a :: severity(Retry) <= severity(a)
  }

  ghost predicate NeverMilder(p: Policy, severity: Action -> nat) {
    forall j, k :: j in p.rules && k in p.rules && j <= k ==> severity(p.rules[j]) <= severity(p.rules[k])
  }

  /** More failures never call for a milder action. */
  lemma ResolveMonotone(p: Policy, severity: Action -> nat, m: nat, n: nat)
    requires RetryIsLowest(severity) && NeverMilder(p, severity) && m <= n
    ensures severity(Resolve(p, m)) <= severity(Resolve(p, n))
  {
    var j, k := Floor(p.rules, m), Floor(p.rules, n);
    if j.Some? {
      assert j.value in p.rules && k.Some? && j.value <= k.value;
    }
  }

  // ---- history ------------------------------------------------------------

  datatype HistoryStatus = Running | Done | Failed | Skipped | InHitl

  datatype HistoryEntry = HistoryEntry(state: string, status: HistoryStatus, attempt: nat)

  predicate IsFailure(e: HistoryEntry, state: string) {
    e.state == state && e.status.Failed?
  }

  function Failures(history: seq<HistoryEntry>, state: string): nat {
    if history == [] then 0
    else
      var n := |history| - 1;
      Failures(history[..n], state) + if IsFailure(history[n], state) then 1 else 0
  }

  /** The entries of a state that failed. */
  function FailedAt(history: seq<HistoryEntry>, state: string): set<nat> {
    set i | 0 <= i < |history| && history[i].state == state && history[i].status == Failed
  }

  /** The count is the number of failed entries of the state asked for, and of no others. */
  lemma {:induction false} FailuresMeaning(history: seq<HistoryEntry>, state: string)
    ensures Failures(history, state) == |FailedAt(history, state)|
    decreases |history|
  {
    if history != [] {
      var n := |history| - 1;
      var front, e := FailedAt(history[..n], state), history[n];
      FailuresMeaning(history[..n], state);
      assert FailedAt(history, state) == front + if e.state == state && e.status == Failed then {n} else {};
    }
  }

  /** The count as it is reported: a 32-bit number, cut off above. */
  function FailureCount(history: seq<HistoryEntry>, state: string): nat {
    Failures(history, state) % (U32_MAX + 1)
  }

  /** The highest attempt recorded for a state. */
  function MaxAttempt(history: seq<HistoryEntry>, state: string): (m: nat)
    ensures forall i :: 0 <= i < |history| && history[i].state == state ==> history[i].attempt <= m
    ensures m == 0 || exists i :: 0 <= i < |history| && history[i].state == state && history[i].attempt == m
  {
    if history == [] then 0
    else
      var n := |history| - 1;
      var m := MaxAttempt(history[..n], state);
      assert forall i :: 0 <= i < n ==> history[..n][i] == history[i];
      if history[n].state == state && history[n].attempt > m then history[n].attempt else m
  }

  lemma {:induction false} FailuresGrow(history: seq<HistoryEntry>, more: seq<HistoryEntry>, state: string)
    ensures Failures(history, state) <= Failures(history + more, state) <= Failures(history, state) + |more|
    decreases |more|
  {
    if more == [] {
      assert history + more == history;
    } else {
      var n := |more| - 1;
      assert (history + more)[..|history + more| - 1] == history + more[..n];
      FailuresGrow(history, more[..n], state);
    }
  }

  /** As an append-only history grows within 32 bits of failures, the action never gets milder. */
  lemma EscalationNeverDrops(p: Policy, severity: Action -> nat, history: seq<HistoryEntry>,
                             more: seq<HistoryEntry>, state: string)
    requires RetryIsLowest(severity) && NeverMilder(p, severity)
    requires Failures(history + more, state) <= U32_MAX
    ensures severity(Resolve(p, FailureCount(history, state)))
            <= severity(Resolve(p, FailureCount(history + more, state)))
  {
    FailuresGrow(history, more, state);
    ResolveMonotone(p, severity, FailureCount(history, state), FailureCount(history + more, state));
  }

  /** Exactly when one more entry makes the action milder: a failure on top of a full 32-bit count,
      under a policy that treats no failures more mildly than that count. */
  lemma EscalationDropsIff(p: Policy, severity: Action -> nat, history: seq<HistoryEntry>, e: HistoryEntry,
                           state: string)
    requires RetryIsLowest(severity) && NeverMilder(p, severity)
    ensures severity(Resolve(p, FailureCount(history + [e], state)))
            < severity(Resolve(p, FailureCount(history, state)))
            <==> && FailureCount(history, state) == U32_MAX && IsFailure(e, state)
                 && severity(Resolve(p, 0)) < severity(Resolve(p, U32_MAX))
  {
    var before, after := FailureCount(history, state), FailureCount(history + [e], state);
    assert (history + [e])[..|history|] == history;
    if before == U32_MAX && IsFailure(e, state) {
      assert after == 0;
    } else {
      assert after == before + if IsFailure(e, state) then 1 else 0;
      ResolveMonotone(p, severity, before, after);
    }
  }

  lemma {:induction false} RepeatedFailures(e: HistoryEntry, n: nat, state: string)
    requires IsFailure(e, state)
    ensures Failures(seq(n, _ => e), state) == n
    decreases n
  {
    if n > 0 {
      assert seq(n, _ => e)[..n - 1] == seq(n - 1, _ => e);
      RepeatedFailures(e, n - 1, state);
    }
  }

  lemma DefaultResolves(n: nat)
    ensures DefaultPolicy().terminal == Some(Skip)
    ensures Resolve(DefaultPolicy(), n) == if n < 2 then Retry else if n == 2 then RetryWithComment else Hitl
  {
    var p := DefaultPolicy();
    var k := Floor(p.rules, n);
    assert n >= 1 ==> 1 in p.rules;
    assert n >= 3 ==> 3 in p.rules;
  }

  /** Such a history exists: after 2^32 - 1 failures the default policy asks for a human, and one
      failure later for a silent retry. */
  lemma EscalationDropExample(e: HistoryEntry, n: nat, history: seq<HistoryEntry>)
    requires e.status.Failed? && n == U32_MAX && history == seq(n, _ => e)
    ensures Resolve(DefaultPolicy(), FailureCount(history, e.state)) == Hitl
    ensures Resolve(DefaultPolicy(), FailureCount(history + [e], e.state)) == Retry
  {
    RepeatedFailures(e, n, e.state);
    assert (history + [e])[..|history|] == history;
    DefaultResolves(FailureCount(history, e.state));
    DefaultResolves(FailureCount(history + [e], e.state));
  }
}
