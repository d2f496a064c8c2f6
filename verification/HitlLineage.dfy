/** Where replan items come from, and how many there can be. */
module HitlLineage {
  import opened Decimal
  import opened Phase
  import opened Queue
  import opened Hitl
  import opened HitlRuns

  /** The id a replan item was derived from. */
  function ParentId(id: string, count: nat): string {
    var suffix := ":replan-" + Numeral(count);
    if |suffix| <= |id| then id[..|id| - |suffix|] else ""
  }

  lemma ParentOfReplan(id: string, count: nat)
    ensures ParentId(ReplanId(id, count), count) == id
  {
    var suffix := ":replan-" + Numeral(count);
    assert ReplanId(id, count) == id + suffix;
  }

  /** Counts stay within the limit, and an item with a positive count was derived from a stored item
      whose count is one less. */
  predicate Derived(items: Items, id: string)
    requires id in items
  {
    var count := items[id].replanCount;
    && count <= MAX_REPLAN
    && (count > 0 ==>
          var parent := ParentId(id, count);
          parent in items && items[parent].replanCount == count - 1 && id == ReplanId(parent, count))
  }

  predicate LineageKept(items: Items) {
    forall id :: id in items ==> Derived(items, id)
  }

  lemma ReplanKeepsLineage(items: Items, id: string)
    requires LineageKept(items) && Responded(items, id, Replan).1 == Moved(QueuePhase.Pending)
    ensures LineageKept(Responded(items, id, Replan).0)
  {
    var after := Responded(items, id, Replan).0;
    var count := items[id].replanCount + 1;
    ParentOfReplan(id, count);
    forall other | other in after ensures Derived(after, other) {
      if other != ReplanId(id, count) {
        assert Derived(items, other);
      }
    }
  }

  /** Stored items keep their counts, and new ones are originals. */
  lemma CountsKeepLineage(items: Items, after: Items)
    requires LineageKept(items)
    requires forall id :: id in items ==> id in after && after[id].replanCount == items[id].replanCount
    requires forall id :: id in after && id !in items ==> after[id].replanCount == 0
    ensures LineageKept(after)
  {
    forall id | id in after ensures Derived(after, id) {
      if id in items {
        assert Derived(items, id);
      }
    }
  }

  lemma StepKeepsLineage(items: Items, s: Step)
    requires LineageKept(items)
    ensures LineageKept(Apply(items, s))
  {
    if s.Answer? && s.action.Replan? && Responded(items, s.id, s.action).1 == Moved(QueuePhase.Pending) {
      ReplanKeepsLineage(items, s.id);
    } else {
      CountsKeepLineage(items, Apply(items, s));
    }
  }

  /** In every reachable store no count exceeds the limit and every replan item has its parent. */
  lemma {:induction false} RunKeepsLineage(steps: seq<Step>)
    ensures LineageKept(Run(map[], steps))
    decreases |steps|
  {
    if steps != [] {
      RunKeepsLineage(steps[..|steps| - 1]);
      StepKeepsLineage(Run(map[], steps[..|steps| - 1]), steps[|steps| - 1]);
    }
  }

  /** The id of the `n`-th replan derived from an original. */
  function LineageId(original: string, n: nat): string {
    if n == 0 then original else ReplanId(LineageId(original, n - 1), n)
  }

  lemma {:induction false} LineageInjective(a: string, b: string, n: nat)
    requires LineageId(a, n) == LineageId(b, n)
    ensures a == b
  {
    if n > 0 {
      ParentOfReplan(LineageId(a, n - 1), n);
      ParentOfReplan(LineageId(b, n - 1), n);
      LineageInjective(a, b, n - 1);
    }
  }

  /** Every item descends from exactly one original, at the depth its count says. */
  lemma {:induction false} OriginOf(items: Items, id: string) returns (original: string)
    requires LineageKept(items) && id in items
    ensures original in items && items[original].replanCount == 0
    ensures id == LineageId(original, items[id].replanCount)
    ensures forall other :: id == LineageId(other, items[id].replanCount) ==> other == original
    decreases items[id].replanCount
  {
    var count := items[id].replanCount;
    assert Derived(items, id);
    if count == 0 {
      original := id;
    } else {
      original := OriginOf(items, ParentId(id, count));
    }
    forall other | id == LineageId(other, count) ensures other == original {
      LineageInjective(other, original, count);
    }
  }

  function Level(items: Items, n: nat): set<string> {
    set id | id in items && items[id].replanCount == n
  }

  /** The items that descend from an original. */
  function Family(items: Items, original: string): set<string> {
    set id | id in items && id == LineageId(original, items[id].replanCount)
  }

  lemma {:induction false} ParentsBound(children: set<string>, parents: set<string>, n: nat)
    requires forall id :: id in children ==> ParentId(id, n) in parents && id == ReplanId(ParentId(id, n), n)
    ensures |children| <= |parents|
    decreases |children|
  {
    if children != {} {
      var id :| id in children;
      var parent := ParentId(id, n);
      ParentsBound(children - {id}, parents - {parent}, n);
    }
  }

  lemma LevelsShrink(items: Items, n: nat)
    requires LineageKept(items)
    ensures |Level(items, n + 1)| <= |Level(items, n)|
  {
    var parents, children := Level(items, n), Level(items, n + 1);
    forall id | id in children
      ensures ParentId(id, n + 1) in parents && id == ReplanId(ParentId(id, n + 1), n + 1)
    {
      assert Derived(items, id);
    }
    ParentsBound(children, parents, n + 1);
  }

  function Below(items: Items, n: nat): set<string> {
    set id | id in items && items[id].replanCount < n
  }

  lemma BelowStep(items: Items, n: nat, below: set<string>, level: set<string>)
    requires below == Below(items, n) && level == Level(items, n)
    ensures |Below(items, n + 1)| == |below| + |level|
  {
    assert Below(items, n + 1) == below + level && below !! level;
  }

  /** A store holds at most four items per original: the original and its three replans. */
  lemma StoreBound(items: Items)
    requires LineageKept(items)
    ensures |items| <= 4 * |Level(items, 0)|
  {
    for n := 0 to 4
      invariant |Below(items, n)| <= n * |Level(items, 0)|
      invariant |Level(items, n)| <= |Level(items, 0)|
    {
      BelowStep(items, n, Below(items, n), Level(items, n));
      LevelsShrink(items, n);
    }
    forall id | id in items ensures items[id].replanCount < 4 {
      assert Derived(items, id);
    }
    assert items.Keys == Below(items, 4);
  }

  function FamilyIds(original: string, n: nat): (ids: seq<string>)
    ensures |ids| == n && forall k :: 0 <= k < n ==> ids[k] == LineageId(original, k)
  {
    seq(n, k requires 0 <= k < n => LineageId(original, k))
  }

  lemma FamilyBound(items: Items, original: string)
    requires LineageKept(items)
    ensures |Family(items, original)| <= 4
  {
    var ids := FamilyIds(original, 4);
    forall id | id in Family(items, original) ensures id in ids {
      assert Derived(items, id);
      assert id == ids[items[id].replanCount];
    }
    FewMembers(Family(items, original), ids);
  }

  lemma {:induction false} FewMembers(s: set<string>, ids: seq<string>)
    requires forall id :: id in s ==> id in ids
    ensures |s| <= |ids|
    decreases |ids|
  {
    if ids != [] {
      var rest := s - {ids[0]};
      forall id | id in rest ensures id in ids[1..] {
        var i :| 0 <= i < |ids| && ids[i] == id;
        assert ids[1..][i - 1] == id;
      }
      FewMembers(rest, ids[1..]);
    }
  }

  /** Every store that a run reaches: counts are at most three, every item is the replan, at the
      depth its count says, of a stored original, and there are at most four items per original. */
  lemma ReachableStore(steps: seq<Step>)
    ensures var items := Run(map[], steps);
            && (forall id :: id in items ==> items[id].replanCount <= 3)
            && (forall id :: id in items ==>
                  exists original :: original in Level(items, 0) && id == LineageId(original, items[id].replanCount))
            && |items| <= 4 * |Level(items, 0)|
  {
    var items := Run(map[], steps);
    RunKeepsLineage(steps);
    StoreBound(items);
    forall id | id in items
      ensures items[id].replanCount <= MAX_REPLAN
      ensures exists original :: original in Level(items, 0) && id == LineageId(original, items[id].replanCount)
    {
      assert Derived(items, id);
      var original := OriginOf(items, id);
      assert original in Level(items, 0);
    }
  }

  /** In every store that a run reaches, a replan always answers: the item fails exactly when its
      count is three, and otherwise goes back to Pending, with a new item exactly when that item's id
      is free. */
  lemma ReplanOutcome(steps: seq<Step>, id: string)
    requires var items := Run(map[], steps); id in items && items[id].phase.Hitl?
    ensures var items := Run(map[], steps);
            var (after, reply) := Responded(items, id, Replan);
            var next := ReplanId(id, items[id].replanCount + 1);
            && (after[id].phase.Failed? <==> items[id].replanCount == 3)
            && (after[id].phase.Pending? <==> items[id].replanCount < 3)
            && (reply == Moved(QueuePhase.Pending) <==> items[id].replanCount < 3 && next !in items)
            && (reply == Duplicate <==> items[id].replanCount < 3 && next in items)
  {
    RunKeepsLineage(steps);
    assert Derived(Run(map[], steps), id);
    ReplanBranches(Run(map[], steps), id);
  }

  // ---- rollbacks of one item ----------------------------------------------

  /** A replan that takes the item out of HITL back to Pending. */
  predicate RollsBack(items: Items, s: Step, id: string) {
    && s == Answer(id, Replan) && id in items && items[id].phase.Hitl?
    && id in Apply(items, s) && Apply(items, s)[id].phase.Pending?
  }

  /** How often replans roll an item back during a run. */
  function Rollbacks(items: Items, steps: seq<Step>, id: string): nat {
    if steps == [] then 0
    else
      var n := |steps| - 1;
      Rollbacks(items, steps[..n], id) + if RollsBack(Run(items, steps[..n]), steps[n], id) then 1 else 0
  }

  /** An item's way into HITL and, by a replan, back. */
  function Lap(id: string): seq<Step> {
    [Move(id, Ready)] + [Move(id, QueuePhase.Hitl)] + [Answer(id, Replan)]
  }

  function RollbackRun(row: Row, k: nat): seq<Step> {
    if k == 0 then [Create(row)] else RollbackRun(row, k - 1) + Lap(row.workId)
  }

  lemma OneMoreStep(items: Items, steps: seq<Step>, s: Step, id: string)
    ensures Run(items, steps + [s]) == Apply(Run(items, steps), s)
    ensures Rollbacks(items, steps + [s], id)
            == Rollbacks(items, steps, id) + if RollsBack(Run(items, steps), s, id) then 1 else 0
  {
    assert (steps + [s])[..|steps|] == steps;
  }

  lemma LapRollsBack(items: Items, steps: seq<Step>, row: Row)
    requires var id := row.workId; id in Run(items, steps) && Run(items, steps)[id] == row
    requires row.phase.Pending? && row.replanCount == 0
    ensures var id := row.workId;
            var later := Run(items, steps + Lap(id));
            && id in later && later[id] == row && ReplanId(id, 1) in later
            && Rollbacks(items, steps + Lap(id), id) == Rollbacks(items, steps, id) + 1
  {
    var id := row.workId;
    var s1 := steps + [Move(id, Ready)];
    var s2 := s1 + [Move(id, QueuePhase.Hitl)];
    OneMoreStep(items, steps, Move(id, Ready), id);
    OneMoreStep(items, s1, Move(id, QueuePhase.Hitl), id);
    OneMoreStep(items, s2, Answer(id, Replan), id);
    assert steps + Lap(id) == s2 + [Answer(id, Replan)];
    assert Run(items, s2) == WithPhase(Run(items, steps), id, QueuePhase.Hitl);
  }

  /** The limit on replans does not limit how often one item is rolled back: for every k, some run
      from the empty store rolls a new item back k times, and leaves it as it was created. From the
      second time on its replan item is stored already. */
  lemma {:induction false} RollbacksUnbounded(row: Row, k: nat)
    requires row.phase.Pending? && row.replanCount == 0
    ensures var items := Run(map[], RollbackRun(row, k));
            && row.workId in items && items[row.workId] == row
            && Rollbacks(map[], RollbackRun(row, k), row.workId) == k
            && (k > 0 ==> ReplanId(row.workId, 1) in items)
    decreases k
  {
    if k == 0 {
      assert [Create(row)][..0] == [];
    } else {
      RollbacksUnbounded(row, k - 1);
      LapRollsBack(map[], RollbackRun(row, k - 1), row);
    }
  }
}
