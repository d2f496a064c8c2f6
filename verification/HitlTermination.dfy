/** Without new items waiting for a human, responses run out. */
module HitlTermination {
  import opened Phase
  import opened Queue
  import opened Hitl
  import opened HitlRuns

  /** How many responses an item waiting in HITL may still cause. */
  function Weight(row: Row): nat {
    if !row.phase.Hitl? then 0 else if row.replanCount <= MAX_REPLAN then MAX_REPLAN + 1 - row.replanCount else 1
  }

  ghost function WeightOver(items: Items, ids: set<string>): nat
    requires ids <= items.Keys
  {
    if ids == {} then 0
    else
      var id :| id in ids;
      Weight(items[id]) + WeightOver(items, ids - {id})
  }

  ghost function TotalWeight(items: Items): nat {
    WeightOver(items, items.Keys)
  }

  lemma {:induction false} WeightPick(items: Items, ids: set<string>, id: string)
    requires ids <= items.Keys && id in ids
    ensures WeightOver(items, ids) == Weight(items[id]) + WeightOver(items, ids - {id})
    decreases |ids|
  {
    var first :| first in ids && WeightOver(items, ids) == Weight(items[first]) + WeightOver(items, ids - {first});
    if first != id {
      WeightPick(items, ids - {first}, id);
      WeightPick(items, ids - {id}, first);
      assert ids - {first} - {id} == ids - {id} - {first};
    }
  }

  lemma {:induction false} WeightFrame(a: Items, b: Items, ids: set<string>)
    requires ids <= a.Keys && ids <= b.Keys && forall id :: id in ids ==> a[id] == b[id]
    ensures WeightOver(a, ids) == WeightOver(b, ids)
    decreases |ids|
  {
    if ids != {} {
      var id :| id in ids;
      WeightFrame(a, b, ids - {id});
      WeightPick(a, ids, id);
      WeightPick(b, ids, id);
    }
  }

  /** Storing a row changes the total by the weight it adds, less the weight it replaces. */
  lemma WeightStore(items: Items, id: string, row: Row)
    ensures TotalWeight(items[id := row]) + (if id in items then Weight(items[id]) else 0)
            == TotalWeight(items) + Weight(row)
  {
    var after := items[id := row];
    var others := items.Keys - {id};
    WeightPick(after, after.Keys, id);
    assert after.Keys - {id} == others;
    WeightFrame(items, after, others);
    if id in items {
      WeightPick(items, items.Keys, id);
    } else {
      assert items.Keys == others;
    }
  }

  /** Every response that is acted on strictly lowers the total weight of the items in HITL. */
  lemma ResponseLowersWeight(items: Items, id: string, action: RespondAction)
    requires Accepted(Responded(items, id, action).1)
    ensures TotalWeight(Responded(items, id, action).0) < TotalWeight(items)
  {
    var (after, reply) := Responded(items, id, action);
    var moved := WithPhase(items, id, after[id].phase);
    WeightStore(items, id, moved[id]);
    var next := ReplanId(id, items[id].replanCount + 1);
    if action.Replan? && reply == Moved(QueuePhase.Pending) {
      WeightStore(moved, next, ReplanRow(items[id], id, items[id].replanCount + 1));
    }
  }

  /** The responses acted on during a run. */
  function Responses(items: Items, steps: seq<Step>): nat {
    if steps == [] then 0
    else
      var n := |steps| - 1;
      var before := Run(items, steps[..n]);
      var last := steps[n];
      Responses(items, steps[..n])
      + if last.Answer? && Accepted(Responded(before, last.id, last.action).1) then 1 else 0
  }

  /** Does this step bring an item into HITL other than by a response? */
  predicate EntersHitl(items: Items, s: Step) {
    match s
    case Answer(_, _) => false
    case Create(row) => Apply(items, s) != items && row.phase.Hitl?
    case Move(id, to) => Apply(items, s) != items && to.Hitl?
    case Force(id, to) => Apply(items, s) != items && to.Hitl?
  }

  function HitlEntries(items: Items, steps: seq<Step>): nat {
    if steps == [] then 0
    else
      var n := |steps| - 1;
      HitlEntries(items, steps[..n]) + if EntersHitl(Run(items, steps[..n]), steps[n]) then 1 else 0
  }

  lemma StepWeight(items: Items, s: Step)
    ensures TotalWeight(Apply(items, s))
            + (if s.Answer? && Accepted(Responded(items, s.id, s.action).1) then 1 else 0)
            <= TotalWeight(items) + if EntersHitl(items, s) then 4 else 0
  {
    match s {
      case Answer(id, action) =>
        ResponseIsTransition(items, id, action);
        if Accepted(Responded(items, id, action).1) {
          ResponseLowersWeight(items, id, action);
        }
      case Create(row) =>
        if Apply(items, s) != items {
          WeightStore(items, row.workId, row);
        }
      case Move(id, to) =>
        if Apply(items, s) != items {
          WeightStore(items, id, items[id].(phase := to));
        }
      case Force(id, to) =>
        if Apply(items, s) != items {
          WeightStore(items, id, items[id].(phase := to));
        }
    }
  }

  /** Over any run, from any store, the responses acted on number at most the initial weight plus
      four for every item that otherwise entered HITL: without new entries they run out. */
  lemma {:induction false} ResponsesRunOut(items: Items, steps: seq<Step>)
    ensures Responses(items, steps) + TotalWeight(Run(items, steps))
            <= TotalWeight(items) + 4 * HitlEntries(items, steps)
    decreases |steps|
  {
    if steps != [] {
      var n := |steps| - 1;
      ResponsesRunOut(items, steps[..n]);
      StepWeight(Run(items, steps[..n]), steps[n]);
    }
  }
}
