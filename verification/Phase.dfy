/** The lifecycle of a queue item: eight phases and seventeen transitions. */
module Phase {

  datatype QueuePhase = Pending | Ready | Running | Completed | Done | Hitl | Failed | Skipped

  datatype Result<+T, +E> = Ok(value: T) | Err(error: E)

  datatype TransitionError = SamePhase(phase: QueuePhase) | Invalid(from: QueuePhase, to: QueuePhase)

  predicate IsTerminal(p: QueuePhase) {
    p.Done? || p.Skipped?
  }

  predicate IsValidTransition(from: QueuePhase, to: QueuePhase) {
    match from
    case Pending => to.Ready?
    case Ready => to.Running? || to.Done? || to.Hitl?
    case Running => to.Completed? || to.Skipped? || to.Failed? || to.Pending?
    case Completed => to.Done? || to.Hitl? || to.Failed?
    case Hitl => to.Done? || to.Skipped? || to.Failed? || to.Pending?
    case Failed => to.Done? || to.Skipped?
    case Done => false
    case Skipped => false
  }

  function Transit(from: QueuePhase, to: QueuePhase): (r: Result<(), TransitionError>)
    ensures r.Ok? <==> IsValidTransition(from, to)
    ensures r == Err(SamePhase(from)) <==> from == to
  {
    if from == to then Err(SamePhase(from))
    else if IsValidTransition(from, to) then Ok(())
    else Err(Invalid(from, to))
  }

  /** The terminal phases are exactly the ones nothing leaves. */
  lemma TerminalIffStuck(p: QueuePhase)
    ensures IsTerminal(p) <==> forall q :: !IsValidTransition(p, q)
  {
    if !IsTerminal(p) {
      assert IsValidTransition(p, Ready) || IsValidTransition(p, Skipped) || IsValidTransition(p, Done);
    }
  }

  /** The seventeen pairs of the lifecycle. */
  function Lifecycle(): seq<(QueuePhase, QueuePhase)> {
    [(Pending, Ready), (Ready, Running), (Ready, Done), (Ready, Hitl),
     (Running, Completed), (Running, Skipped), (Running, Failed), (Running, Pending),
     (Completed, Done), (Completed, Hitl), (Completed, Failed),
     (Hitl, Done), (Hitl, Skipped), (Hitl, Failed), (Hitl, Pending),
     (Failed, Done), (Failed, Skipped)]
  }

  lemma ListedAreValid(k: nat)
    requires k < |Lifecycle()|
    ensures IsValidTransition(Lifecycle()[k].0, Lifecycle()[k].1)
  {
  }

  lemma ValidAreListed(p: QueuePhase, q: QueuePhase)
    requires IsValidTransition(p, q)
    ensures (p, q) in Lifecycle()
  {
    var all := Lifecycle();
    match p {
      case Pending => assert all[0] == (p, Ready);
      case Ready => assert all[1] == (p, Running) && all[2] == (p, Done) && all[3] == (p, Hitl);
      case Running =>
        assert all[4] == (p, Completed) && all[5] == (p, Skipped) && all[6] == (p, Failed) && all[7] == (p, Pending);
      case Completed => assert all[8] == (p, Done) && all[9] == (p, Hitl) && all[10] == (p, Failed);
      case Hitl =>
        assert all[11] == (p, Done) && all[12] == (p, Skipped) && all[13] == (p, Failed) && all[14] == (p, Pending);
      case Failed => assert all[15] == (p, Done) && all[16] == (p, Skipped);
    }
  }

  lemma TransitionsListed(p: QueuePhase, q: QueuePhase)
    ensures IsValidTransition(p, q) <==> (p, q) in Lifecycle()
  {
    if IsValidTransition(p, q) {
      ValidAreListed(p, q);
    }
    if (p, q) in Lifecycle() {
      var k :| 0 <= k < |Lifecycle()| && Lifecycle()[k] == (p, q);
      ListedAreValid(k);
    }
  }

  // ---- whole runs ---------------------------------------------------------

  /** A run: the phases an item passes through from its creation. */
  predicate IsRun(run: seq<QueuePhase>) {
    && run != [] && run[0].Pending?
    && forall i :: 0 < i < |run| ==> IsValidTransition(run[i - 1], run[i])
  }

  /** The two ways back: a shutdown rollback, and a retry or replan out of HITL. */
  predicate IsBack(from: QueuePhase, to: QueuePhase) {
    (from.Running? || from.Hitl?) && to.Pending?
  }

  function BackEdges(run: seq<QueuePhase>): nat {
    if |run| <= 1 then 0
    else
      var n := |run| - 1;
      BackEdges(run[..n]) + if IsBack(run[n - 1], run[n]) then 1 else 0
  }

  /** How often a run enters a phase, its first phase not counted. */
  function Entries(run: seq<QueuePhase>, p: QueuePhase): nat {
    if |run| <= 1 then 0
    else
      var n := |run| - 1;
      Entries(run[..n], p) + if run[n] == p then 1 else 0
  }

  /** The longest way forward from a phase, without going back. */
  function Slack(p: QueuePhase): nat {
    match p
    case Pending => 6
    case Ready => 5
    case Running => 4
    case Completed => 3
    case Hitl => 2
    case Failed => 1
    case Done => 0
    case Skipped => 0
  }

  lemma {:induction false} RunBudget(run: seq<QueuePhase>)
    requires IsRun(run)
    ensures |run| - 1 + Slack(run[|run| - 1]) <= 6 + 5 * BackEdges(run)
    ensures Entries(run, Running) + (if Slack(run[|run| - 1]) >= 5 then 1 else 0) <= BackEdges(run) + 1
    decreases |run|
  {
    var n := |run| - 1;
    if n > 0 {
      RunBudget(run[..n]);
      assert IsValidTransition(run[n - 1], run[n]);
    }
  }

  /** A run that goes back `k` times has at most 6 + 5k transitions and starts work at most k + 1 times. */
  lemma RunLength(run: seq<QueuePhase>, k: nat)
    requires IsRun(run) && BackEdges(run) == k
    ensures |run| - 1 <= 6 + 5 * k
    ensures Entries(run, Running) <= k + 1
  {
    RunBudget(run);
  }

  // The bound is attained for every k.

  const LAP: seq<QueuePhase> := [Pending, Ready, Running, Completed, Hitl]

  function Laps(k: nat): seq<QueuePhase> {
    if k == 0 then LAP else Laps(k - 1) + LAP
  }

  function LongestRun(k: nat): seq<QueuePhase> {
    Laps(k) + [Failed] + [Done]
  }

  lemma RunExtend(run: seq<QueuePhase>, p: QueuePhase)
    requires IsRun(run) && IsValidTransition(run[|run| - 1], p)
    ensures IsRun(run + [p])
    ensures BackEdges(run + [p]) == BackEdges(run) + if IsBack(run[|run| - 1], p) then 1 else 0
    ensures Entries(run + [p], Running) == Entries(run, Running) + if p.Running? then 1 else 0
  {
    assert (run + [p])[..|run|] == run;
  }

  /** From Pending through the work to a human. */
  lemma WorkExtend(run: seq<QueuePhase>)
    requires IsRun(run) && run[|run| - 1].Pending?
    ensures var r := run + [Ready] + [Running] + [Completed] + [Hitl];
            IsRun(r) && BackEdges(r) == BackEdges(run) && Entries(r, Running) == Entries(run, Running) + 1
  {
    RunExtend(run, Ready);
    RunExtend(run + [Ready], Running);
    RunExtend(run + [Ready] + [Running], Completed);
    RunExtend(run + [Ready] + [Running] + [Completed], Hitl);
  }

  lemma LapExtend(run: seq<QueuePhase>)
    requires IsRun(run) && run[|run| - 1].Hitl?
    ensures IsRun(run + LAP)
    ensures BackEdges(run + LAP) == BackEdges(run) + 1
    ensures Entries(run + LAP, Running) == Entries(run, Running) + 1
  {
    RunExtend(run, Pending);
    WorkExtend(run + [Pending]);
    assert run + LAP == run + [Pending] + [Ready] + [Running] + [Completed] + [Hitl];
  }

  lemma {:induction false} LapsRun(k: nat)
    ensures IsRun(Laps(k)) && |Laps(k)| == 5 * (k + 1) && Laps(k)[|Laps(k)| - 1].Hitl?
    ensures BackEdges(Laps(k)) == k && Entries(Laps(k), Running) == k + 1
  {
    if k == 0 {
      var start := [Pending];
      assert IsRun(start) && BackEdges(start) == 0 && Entries(start, Running) == 0;
      WorkExtend(start);
      assert Laps(0) == start + [Ready] + [Running] + [Completed] + [Hitl];
    } else {
      LapsRun(k - 1);
      LapExtend(Laps(k - 1));
    }
  }

  /** For every k some run goes back k times and takes exactly 6 + 5k transitions. */
  lemma RunLengthAttained(k: nat)
    ensures IsRun(LongestRun(k)) && BackEdges(LongestRun(k)) == k
    ensures |LongestRun(k)| - 1 == 6 + 5 * k
    ensures Entries(LongestRun(k), Running) == k + 1
  {
    LapsRun(k);
    RunExtend(Laps(k), Failed);
    RunExtend(Laps(k) + [Failed], Done);
  }
}
