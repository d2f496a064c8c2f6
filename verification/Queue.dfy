/** Queue items and the database that stores them. */
module Queue {
  import opened Text
  import opened Phase
  import Dependency

  datatype HitlReason = EvaluateFailure | RetryMaxExceeded | Timeout | ManualEscalation | SpecConflict
                      | StagnationDetected | SpecCompletionReview | SpecModificationProposed

  /** A stored queue item. */
  datatype Row = Row(workId: string, sourceId: string, workspaceId: string, state: string, phase: QueuePhase,
                     title: Option<string>, hitlReason: Option<HitlReason>, hitlNotes: Option<string>,
                     replanCount: nat)

  /** A work item under construction or in the daemon's hands. */
  class QueueItem {
    var workId: string
    var sourceId: string
    var workspaceId: string
    var state: string
    var phase: QueuePhase
    var title: Option<string>
    var hitlReason: Option<HitlReason>
    var hitlNotes: Option<string>
    var replanCount: nat

    function ToRow(): Row
      reads this
    {
      Row(workId, sourceId, workspaceId, state, phase, title, hitlReason, hitlNotes, replanCount)
    }

    constructor (workId: string, sourceId: string, workspaceId: string, state: string)
      ensures ToRow() == Row(workId, sourceId, workspaceId, state, Pending, None, None, None, 0)
    {
      this.workId := workId;
      this.sourceId := sourceId;
      this.workspaceId := workspaceId;
      this.state := state;
      this.phase := Pending;
      this.title := None;
      this.hitlReason := None;
      this.hitlNotes := None;
      this.replanCount := 0;
    }

    /** Validate and perform a phase transition; an invalid one changes nothing. */
    method Transit(to: QueuePhase) returns (r: Result<QueuePhase, TransitionError>)
      modifies this`phase
      ensures r == if IsValidTransition(old(phase), to) then Ok(old(phase)) else Err(Invalid(old(phase), to))
      ensures phase == if r.Ok? then to else old(phase)
    {
      var from := phase;
      if !IsValidTransition(from, to) {
        return Err(Invalid(from, to));
      }
      phase := to;
      return Ok(from);
    }

    /** Force the phase without validation, as hydration from storage does. */
    method SetPhaseUnchecked(p: QueuePhase)
      modifies this`phase
      ensures phase == p
    {
      phase := p;
    }
  }

  type Items = map<string, Row>
  type Specs = map<string, Dependency.Spec>

  /** Move a stored item to a phase. */
  function WithPhase(items: Items, id: string, phase: QueuePhase): Items
    requires id in items
  {
    items[id := items[id].(phase := phase)]
  }

  /** The two tables the handlers work on. Each statement commits on its own. */
  class Database {
    var items: Items
    var specs: Specs

    constructor ()
      ensures items == map[] && specs == map[]
    {
      items, specs := map[], map[];
    }

    method GetItem(id: string) returns (row: Option<Row>)
      ensures row == if id in items then Some(items[id]) else None
    {
      row := if id in items then Some(items[id]) else None;
    }

    /** An id that is already stored is rejected. */
    method InsertItem(item: QueueItem) returns (ok: bool)
      modifies this`items
      ensures ok == (item.workId !in old(items))
      ensures items == if ok then old(items)[item.workId := item.ToRow()] else old(items)
    {
      ok := item.workId !in items;
      if ok {
        items := items[item.workId := item.ToRow()];
      }
    }

    method UpdatePhase(id: string, phase: QueuePhase) returns (ok: bool)
      modifies this`items
      ensures ok == (id in old(items))
      ensures items == if ok then WithPhase(old(items), id, phase) else old(items)
    {
      ok := id in items;
      if ok {
        items := items[id := items[id].(phase := phase)];
      }
    }

    method InsertSpec(spec: Dependency.Spec) returns (ok: bool)
      modifies this`specs
      ensures ok == (spec.id !in old(specs))
      ensures specs == if ok then old(specs)[spec.id := spec] else old(specs)
    {
      ok := spec.id !in specs;
      if ok {
        specs := specs[spec.id := spec];
      }
    }

    method UpdateSpecStatus(id: string, status: Dependency.SpecStatus) returns (ok: bool)
      modifies this`specs
      ensures ok == (id in old(specs))
      ensures specs == if ok then old(specs)[id := old(specs)[id].(status := status)] else old(specs)
    {
      ok := id in specs;
      if ok {
        specs := specs[id := specs[id].(status := status)];
      }
    }
  }
}
