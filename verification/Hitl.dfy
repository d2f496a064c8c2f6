/** Responding to an item that waits for a human, and what every run of responses keeps. */
module Hitl {
  import opened Text
  import opened Decimal
  import opened Phase
  import opened Queue
  import Dependency

  datatype RespondAction = Finish | Retry | Skip | Replan

  datatype Reply = Moved(phase: QueuePhase) | NotFound | NotInHitl | CountOverflow | Duplicate

  const MAX_REPLAN: nat := 3

  function ReplanId(id: string, count: nat): string {
    id + ":replan-" + Numeral(count)
  }

  /** The item that asks for a spec modification. */
  function ReplanRow(row: Row, id: string, count: nat): Row {
    Row(ReplanId(id, count), row.sourceId, row.workspaceId, row.state, QueuePhase.Hitl,
        Some("spec-modification-proposed (replan #" + Numeral(count) + ")"),
        Some(SpecModificationProposed),
        Some("Claw replan delegation (attempt " + Numeral(count) + "): "
             + (if row.hitlNotes.Some? then row.hitlNotes.value else "unknown failure")),
        count)
  }

  function TargetPhase(action: RespondAction): QueuePhase
    requires !action.Replan?
  {
    match action
    case Finish => Done
    case Retry => QueuePhase.Pending
    case Skip => Skipped
  }

  /** A response's effect on the items. */
  function Responded(items: Items, id: string, action: RespondAction): (Items, Reply) {
    if id !in items then (items, NotFound)
    else if !items[id].phase.Hitl? then (items, NotInHitl)
    else if !action.Replan? then (WithPhase(items, id, TargetPhase(action)), Moved(TargetPhase(action)))
    else if items[id].replanCount >= U32_MAX then (items, CountOverflow)
    else
      var count := items[id].replanCount + 1;
      if count > MAX_REPLAN then (WithPhase(items, id, QueuePhase.Failed), Moved(QueuePhase.Failed))
      else
        var rolledBack := WithPhase(items, id, QueuePhase.Pending);
        if ReplanId(id, count) in items then (rolledBack, Duplicate)
        else (rolledBack[ReplanId(id, count) := ReplanRow(items[id], id, count)], Moved(QueuePhase.Pending))
  }

  /** A response's effect on the specs: answering a completion review settles the spec. */
  function SettledSpecs(specs: Specs, items: Items, id: string, action: RespondAction): Specs {
    if id !in items || !items[id].phase.Hitl? || action.Replan? || items[id].state != "spec_completion" then specs
    else
      var specId := items[id].sourceId;
      if specId !in specs then specs
      else specs[specId := specs[specId].(status := if action.Finish? then Dependency.Completed else Dependency.Active)]
  }

  /** The replan branch: roll the item back and ask for a spec modification, or give up on it. */
  method RespondReplan(db: Database, id: string, item: Row) returns (r: Reply)
    requires id in db.items && db.items[id] == item && item.phase.Hitl?
    modifies db`items
    ensures (db.items, r) == Responded(old(db.items), id, Replan)
  {
    if item.replanCount >= U32_MAX {
      return CountOverflow;
    }
    var newCount := item.replanCount + 1;
    if newCount > MAX_REPLAN {
      var _ := db.UpdatePhase(id, QueuePhase.Failed);
      return Moved(QueuePhase.Failed);
    }
    var _ := db.UpdatePhase(id, QueuePhase.Pending);
    var failureReason := if item.hitlNotes.Some? then item.hitlNotes.value else "unknown failure";
    var replanWorkId := id + ":replan-" + Numeral(newCount);
    var replanItem := new QueueItem(replanWorkId, item.sourceId, item.workspaceId, item.state);
    replanItem.SetPhaseUnchecked(QueuePhase.Hitl);
    replanItem.hitlReason := Some(SpecModificationProposed);
    replanItem.hitlNotes := Some("Claw replan delegation (attempt " + Numeral(newCount) + "): " + failureReason);
    replanItem.title := Some("spec-modification-proposed (replan #" + Numeral(newCount) + ")");
    replanItem.replanCount := newCount;
    var inserted := db.InsertItem(replanItem);
    return if inserted then Moved(QueuePhase.Pending) else Duplicate;
  }

  /** `belt hitl respond`. Each step commits before the next, so an item whose replan item cannot be
      inserted has already left HITL. */
  method Respond(db: Database, id: string, action: RespondAction) returns (r: Reply)
    modifies db
    ensures (db.items, r) == Responded(old(db.items), id, action)
    ensures db.specs == SettledSpecs(old(db.specs), old(db.items), id, action)
  {
    var found := db.GetItem(id);
    if found.None? {
      return NotFound;
    }
    var item := found.value;
    if !item.phase.Hitl? {
      return NotInHitl;
    }
    if action.Replan? {
      r := RespondReplan(db, id, item);
      return;
    }
    var target := TargetPhase(action);
    var _ := db.UpdatePhase(id, target);
    if item.state == "spec_completion" {
      var status := if action.Finish? then Dependency.Completed else Dependency.Active;
      var _ := db.UpdateSpecStatus(item.sourceId, status);
    }
    return Moved(target);
  }
}
