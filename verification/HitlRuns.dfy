/** What holds over every run of the store: items are created, move through their phases, wait for
    human responses, and have their phases overwritten by commands. */
module HitlRuns {
  import opened Text
  import opened Decimal
  import opened Phase
  import opened Queue
  import opened Hitl
  import Dependency

  /** One event: a human response, a new original item, any valid transition of a stored item, or a
      command that writes a phase over a stored item's, whatever that is. */
  datatype Step = Answer(id: string, action: RespondAction) | Create(row: Row)
                | Move(id: string, to: QueuePhase) | Force(id: string, to: QueuePhase)

  function Apply(items: Items, s: Step): Items {
    match s
    case Answer(id, action) => Responded(items, id, action).0
    case Create(row) => if row.replanCount == 0 && row.workId !in items then items[row.workId := row] else items
    case Move(id, to) =>
      if id in items && IsValidTransition(items[id].phase, to) then WithPhase(items, id, to) else items
    case Force(id, to) => if id in items then WithPhase(items, id, to) else items
  }

  function Run(items: Items, steps: seq<Step>): Items {
    if steps == [] then items else Apply(Run(items, steps[..|steps| - 1]), steps[|steps| - 1])
  }

  lemma RunOneMore(items: Items, steps: seq<Step>, s: Step)
    ensures Run(items, steps + [s]) == Apply(Run(items, steps), s)
  {
    assert (steps + [s])[..|steps|] == steps;
  }

  // ---- single responses ---------------------------------------------------

  /** Was the response acted on? */
  predicate Accepted(reply: Reply) {
    reply.Moved? || reply.Duplicate?
  }

  /** Every phase change a response makes is a transition of the lifecycle, it touches no other
      stored item, and a response that is not acted on changes nothing. */
  lemma ResponseIsTransition(items: Items, id: string, action: RespondAction)
    ensures var (after, reply) := Responded(items, id, action);
            && (Accepted(reply)
                <==> id in items && items[id].phase.Hitl? && !(action.Replan? && items[id].replanCount >= U32_MAX))
            && (Accepted(reply) ==>
                  && id in after && after[id] == items[id].(phase := after[id].phase)
                  && IsValidTransition(items[id].phase, after[id].phase))
            && (!Accepted(reply) ==> after == items)
            && (forall other :: other in items && other != id ==> other in after && after[other] == items[other])
  {
  }

  /** An answer other than a replan sends the item, and nothing else, where its name says. */
  lemma AnswerMeaning(items: Items, id: string, action: RespondAction)
    requires id in items && items[id].phase.Hitl? && !action.Replan?
    ensures var (after, reply) := Responded(items, id, action);
            var phase := if action.Finish? then Done else if action.Retry? then QueuePhase.Pending else Skipped;
            && reply == Moved(phase)
            && after.Keys == items.Keys && after[id] == items[id].(phase := phase)
            && forall other :: other in items && other != id ==> after[other] == items[other]
  {
  }

  /** A retried item can be worked on again, and come back to wait exactly as it did. */
  lemma RetriedComesBack(items: Items, id: string)
    requires id in items && items[id].phase.Hitl?
    ensures var retried := Responded(items, id, RespondAction.Retry).0;
            var again := [Move(id, Ready)] + [Move(id, Running)] + [Move(id, Completed)] + [Move(id, QueuePhase.Hitl)];
            && id in retried && retried[id].phase == QueuePhase.Pending
            && retried[id].replanCount == items[id].replanCount
            && Run(retried, again) == items
  {
    var retried := Responded(items, id, RespondAction.Retry).0;
    var s1 := [Move(id, Ready)];
    var s2 := s1 + [Move(id, Running)];
    var s3 := s2 + [Move(id, Completed)];
    assert s1[..0] == [];
    RunOneMore(retried, s1, Move(id, Running));
    RunOneMore(retried, s2, Move(id, Completed));
    RunOneMore(retried, s3, Move(id, QueuePhase.Hitl));
    assert Run(retried, s1) == WithPhase(items, id, Ready);
    assert Run(retried, s2) == WithPhase(items, id, Running);
    assert Run(retried, s3) == WithPhase(items, id, Completed);
    assert Run(retried, s3 + [Move(id, QueuePhase.Hitl)]) == WithPhase(items, id, QueuePhase.Hitl);
    assert WithPhase(items, id, QueuePhase.Hitl) == items;
  }

  /** The item that a successful replan stores: it waits for a human in its turn, to have the spec
      modified, with a count one higher and what it was derived from in its id and note. */
  lemma ReplanStores(items: Items, id: string)
    requires id in items && Responded(items, id, Replan).1 == Moved(QueuePhase.Pending)
    ensures var after := Responded(items, id, Replan).0;
            var number := Numeral(items[id].replanCount + 1);
            var next := id + ":replan-" + number;
            && next !in items && after.Keys == items.Keys + {next}
            && after[id] == items[id].(phase := QueuePhase.Pending)
            && after[next].workId == next && after[next].phase == QueuePhase.Hitl
            && after[next].hitlReason == Some(SpecModificationProposed)
            && after[next].replanCount == items[id].replanCount + 1 <= 3
            && after[next].sourceId == items[id].sourceId && after[next].workspaceId == items[id].workspaceId
            && after[next].state == items[id].state
            && after[next].title == Some("spec-modification-proposed (replan #" + number + ")")
            && after[next].hitlNotes
               == Some("Claw replan delegation (attempt " + number + "): "
                       + if items[id].hitlNotes.None? then "unknown failure" else items[id].hitlNotes.value)
            && forall other :: other in items && other != id ==> after[other] == items[other]
  {
  }

  /** A response settles a spec only by answering its completion review: finished completes it, and
      retried or skipped makes it active again; nothing else about the specs changes. */
  lemma SettlingMeaning(specs: Specs, items: Items, id: string, action: RespondAction)
    ensures var after := SettledSpecs(specs, items, id, action);
            && after.Keys == specs.Keys
            && forall s :: s in specs ==>
                 if id in items && items[id].phase.Hitl? && items[id].state == "spec_completion"
                    && items[id].sourceId == s && !action.Replan?
                 then
                   after[s] == specs[s].(status := if action.Finish? then Dependency.Completed else Dependency.Active)
                 else after[s] == specs[s]
  {
  }

  /** A replan gives the item up exactly from the limit on, and creates its item exactly when the
      count is below the limit and the item is not stored yet. */
  lemma ReplanBranches(items: Items, id: string)
    requires id in items && items[id].phase.Hitl?
    ensures var (after, reply) := Responded(items, id, Replan);
            var count := items[id].replanCount;
            && (after[id].phase.Failed? <==> MAX_REPLAN <= count < U32_MAX)
            && (after[id].phase.Pending? <==> count < MAX_REPLAN)
            && (reply == Moved(QueuePhase.Pending) <==> count < MAX_REPLAN && ReplanId(id, count + 1) !in items)
  {
  }

  // ---- counts and lineage -------------------------------------------------

  lemma {:induction false} StoredForGood(items: Items, steps: seq<Step>, id: string)
    requires id in items
    ensures id in Run(items, steps) && Run(items, steps)[id].replanCount == items[id].replanCount
    decreases |steps|
  {
    if steps != [] {
      StoredForGood(items, steps[..|steps| - 1], id);
    }
  }

  /** One item gets at most one replan item: after a first success, whatever happens in between,
      replanning the item again only takes it out of HITL and reports a duplicate. */
  lemma ReplanSucceedsOnce(items: Items, id: string, steps: seq<Step>)
    requires Responded(items, id, Replan).1 == Moved(QueuePhase.Pending)
    ensures var later := Run(Responded(items, id, Replan).0, steps);
            && id in later
            && (later[id].phase.Hitl?
                ==> Responded(later, id, Replan) == (WithPhase(later, id, QueuePhase.Pending), Duplicate))
  {
    var after := Responded(items, id, Replan).0;
    StoredForGood(after, steps, id);
    StoredForGood(after, steps, ReplanId(id, items[id].replanCount + 1));
  }

  // ---- final answers ------------------------------------------------------

  /** Phases from which no transition leads back to a human. */
  predicate IsOver(p: QueuePhase) {
    IsTerminal(p) || p.Failed?
  }

  predicate IsForced(s: Step, id: string) {
    s.Force? && s.id == id
  }

  /** No command writes another phase over `p`. */
  predicate NeverForcedFrom(steps: seq<Step>, id: string, p: QueuePhase) {
    forall i :: 0 <= i < |steps| && IsForced(steps[i], id) ==> steps[i].to == p
  }

  /** No command takes the item out of the phases that are over. */
  predicate NeverForcedBack(steps: seq<Step>, id: string) {
    forall i :: 0 <= i < |steps| && IsForced(steps[i], id) ==> IsOver(steps[i].to)
  }

  /** The item is the same all along a run. */
  predicate StaysAsIs(items: Items, steps: seq<Step>, id: string)
    requires id in items
  {
    forall n :: 0 <= n <= |steps| ==> id in Run(items, steps[..n]) && Run(items, steps[..n])[id] == items[id]
  }

  /** The item is over all along a run. */
  predicate StaysOver(items: Items, steps: seq<Step>, id: string) {
    forall n :: 0 <= n <= |steps| ==> id in Run(items, steps[..n]) && IsOver(Run(items, steps[..n])[id].phase)
  }

  /** One event changes a terminal item exactly when it is a command that writes another phase. */
  lemma TerminalStep(items: Items, s: Step, id: string)
    requires id in items && IsTerminal(items[id].phase)
    ensures id in Apply(items, s)
    ensures Apply(items, s)[id] != items[id] <==> IsForced(s, id) && s.to != items[id].phase
  {
  }

  lemma {:induction false} Unforced(items: Items, steps: seq<Step>, id: string)
    requires id in items
    ensures id in Run(items, steps)
    ensures IsTerminal(items[id].phase) && NeverForcedFrom(steps, id, items[id].phase) ==>
              Run(items, steps)[id] == items[id]
    ensures IsOver(items[id].phase) && NeverForcedBack(steps, id) ==> IsOver(Run(items, steps)[id].phase)
    decreases |steps|
  {
    if steps != [] {
      Unforced(items, steps[..|steps| - 1], id);
    }
  }

  lemma ForcedAt(items: Items, steps: seq<Step>, id: string, i: nat)
    requires id in items && i < |steps| && IsForced(steps[i], id)
    ensures id in Run(items, steps[..i + 1]) && Run(items, steps[..i + 1])[id].phase == steps[i].to
  {
    StoredForGood(items, steps[..i], id);
    assert steps[..i + 1][..i] == steps[..i];
  }

  /** Over any run a terminal item stays as it is exactly when no command writes another phase over it. */
  lemma TerminalForGoodIff(items: Items, steps: seq<Step>, id: string)
    requires id in items && IsTerminal(items[id].phase)
    ensures StaysAsIs(items, steps, id) <==> NeverForcedFrom(steps, id, items[id].phase)
  {
    if NeverForcedFrom(steps, id, items[id].phase) {
      forall n | 0 <= n <= |steps| ensures id in Run(items, steps[..n]) && Run(items, steps[..n])[id] == items[id] {
        Unforced(items, steps[..n], id);
      }
    } else {
      var i :| 0 <= i < |steps| && IsForced(steps[i], id) && steps[i].to != items[id].phase;
      ForcedAt(items, steps, id, i);
    }
  }

  /** Over any run a failed or terminal item stays failed or terminal, and so never waits for a
      human again, exactly when no command writes any other phase over it. */
  lemma OverForGood(items: Items, steps: seq<Step>, id: string)
    requires id in items && IsOver(items[id].phase)
    ensures StaysOver(items, steps, id) <==> NeverForcedBack(steps, id)
  {
    if NeverForcedBack(steps, id) {
      forall n | 0 <= n <= |steps| ensures id in Run(items, steps[..n]) && IsOver(Run(items, steps[..n])[id].phase) {
        Unforced(items, steps[..n], id);
      }
    } else {
      var i :| 0 <= i < |steps| && IsForced(steps[i], id) && !IsOver(steps[i].to);
      ForcedAt(items, steps, id, i);
    }
  }

  /** How final an answer is: a finished item stays done, and a skipped one skipped, exactly as long
      as no command writes another phase; an item whose replans are used up stays failed or terminal
      exactly as long as no command takes it back. */
  lemma AnswerIsFinal(items: Items, id: string, action: RespondAction, steps: seq<Step>)
    requires id in items && items[id].phase.Hitl?
    ensures var after := Responded(items, id, action).0;
            && id in after
            && (action.Finish? ==>
                  after[id].phase.Done? && (StaysAsIs(after, steps, id) <==> NeverForcedFrom(steps, id, Done)))
            && (action.Skip? ==>
                  after[id].phase.Skipped? && (StaysAsIs(after, steps, id) <==> NeverForcedFrom(steps, id, Skipped)))
            && (action.Replan? && MAX_REPLAN <= items[id].replanCount < U32_MAX ==>
                  after[id].phase.Failed? && (StaysOver(after, steps, id) <==> NeverForcedBack(steps, id)))
  {
    var after := Responded(items, id, action).0;
    if IsTerminal(after[id].phase) {
      TerminalForGoodIff(after, steps, id);
    }
    if IsOver(after[id].phase) {
      OverForGood(after, steps, id);
    }
  }

  /** `belt queue hitl` puts a finished item back in front of a human. */
  lemma ForcedBackExample(items: Items, id: string)
    requires id in items && items[id].phase.Hitl?
    ensures var finished := Responded(items, id, Finish).0;
            && id in finished && finished[id].phase.Done?
            && Run(finished, [Force(id, QueuePhase.Hitl)]) == items
  {
    var finished := Responded(items, id, Finish).0;
    assert [Force(id, QueuePhase.Hitl)][..0] == [];
    assert finished[id := finished[id].(phase := QueuePhase.Hitl)] == items;
  }
}
