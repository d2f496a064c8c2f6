/** Adding a spec: conflicts with existing specs become dependencies or go to a human. */
module SpecAdd {
  import opened Text
  import opened Phase
  import opened Queue
  import opened Dependency

  /** The outcome of the command. A rejected item insert leaves the spec stored as a draft. */
  datatype Reply = Added | DuplicateSpec | DuplicateItem

  /** What the command is given: the spec's own fields, and the conflicts found with existing specs,
      which count only when the spec names entry points. */
  datatype Request = Request(id: string, workspaceId: string, name: string, dependsOn: Option<string>,
                             entryPoint: Option<string>, detected: seq<SpecConflict>, conflictsJson: string)
  {
    function Conflicts(): seq<SpecConflict> {
      if entryPoint.Some? then detected else []
    }
  }

  function AutoDependencies(conflicts: seq<SpecConflict>): seq<string> {
    if conflicts == [] then []
    else
      var n := |conflicts| - 1;
      AutoDependencies(conflicts[..n])
      + if conflicts[n].overlap.ModuleOverlap? then [conflicts[n].existingSpecId] else []
  }

  predicate HasFileOverlap(conflicts: seq<SpecConflict>) {
    exists i :: 0 <= i < |conflicts| && conflicts[i].overlap.FileOverlap?
  }

  /** The dependencies the new spec is stored with. */
  function StoredDependencies(req: Request): Option<string> {
    var autoIds := AutoDependencies(req.Conflicts());
    if autoIds == [] then req.dependsOn else Appended(req.dependsOn, autoIds)
  }

  function StoredSpec(req: Request, status: SpecStatus): Spec {
    Spec(req.id, req.workspaceId, req.name, status, StoredDependencies(req), req.entryPoint)
  }

  function ReviewId(id: string): string {
    "spec-conflict:" + id + ":review"
  }

  function ReviewRow(req: Request): Row {
    Row(ReviewId(req.id), "spec:" + req.id, req.workspaceId, "review", QueuePhase.Hitl,
        Some("Spec conflict detected for '" + req.name + "'"), Some(HitlReason.SpecConflict),
        Some("spec-conflict-detected: " + req.conflictsJson), 0)
  }

  /** Split the resolutions into automatic dependencies and escalations. */
  method CollectActions(conflicts: seq<SpecConflict>) returns (autoDepIds: seq<string>, hasHitlConflicts: bool)
    ensures autoDepIds == AutoDependencies(conflicts)
    ensures hasHitlConflicts == HasFileOverlap(conflicts)
  {
    var resolutions := ResolveConflicts(conflicts);
    autoDepIds, hasHitlConflicts := [], false;
    for i := 0 to |resolutions|
      invariant autoDepIds == AutoDependencies(conflicts[..i])
      invariant hasHitlConflicts == HasFileOverlap(conflicts[..i])
    {
      assert conflicts[..i + 1][..i] == conflicts[..i];
      assert forall j :: 0 <= j < i ==> conflicts[..i + 1][j] == conflicts[..i][j];
      match resolutions[i] {
        case AutoDependency(specId) =>
          autoDepIds := autoDepIds + [specId];
        case Escalate(_) =>
          assert conflicts[..i + 1][i].overlap.FileOverlap?;
          hasHitlConflicts := true;
      }
    }
    assert conflicts[..|conflicts|] == conflicts;
  }

  /** The draft to store, with its automatic dependencies; and whether there are conflicts, and
      conflicts for a human. */
  method PrepareSpec(req: Request) returns (spec: Spec, hasConflicts: bool, hasHitlConflicts: bool)
    ensures spec == StoredSpec(req, Draft)
    ensures hasConflicts == (req.Conflicts() != [])
    ensures hasHitlConflicts == HasFileOverlap(req.Conflicts())
  {
    spec := Spec(req.id, req.workspaceId, req.name, Draft, req.dependsOn, req.entryPoint);
    hasHitlConflicts := false;
    hasConflicts := false;
    if spec.entryPoint.Some? {
      var conflicts := req.detected;
      if conflicts != [] {
        var autoDepIds: seq<string>;
        autoDepIds, hasHitlConflicts := CollectActions(conflicts);
        if autoDepIds != [] {
          var appended := AppendDependencies(spec.dependsOn, autoDepIds);
          spec := spec.(dependsOn := appended);
        }
        hasConflicts := true;
      }
    }
  }

  /** The item that asks a human to review the conflicts. */
  method QueueReview(db: Database, req: Request) returns (queued: bool)
    modifies db`items
    ensures queued == (ReviewId(req.id) !in old(db.items))
    ensures db.items == if queued then old(db.items)[ReviewId(req.id) := ReviewRow(req)] else old(db.items)
  {
    var item := new QueueItem(ReviewId(req.id), "spec:" + req.id, req.workspaceId, "review");
    item.SetPhaseUnchecked(QueuePhase.Hitl);
    item.hitlReason := Some(HitlReason.SpecConflict);
    item.hitlNotes := Some("spec-conflict-detected: " + req.conflictsJson);
    item.title := Some("Spec conflict detected for '" + req.name + "'");
    queued := db.InsertItem(item);
  }

  /** An item of the spec's own waits for a human, on account of the conflict, as an original. */
  ghost predicate WaitsForReview(items: Items, req: Request) {
    var id := "spec-conflict:" + req.id + ":review";
    && id in items && items[id].workId == id && items[id].phase == QueuePhase.Hitl
    && items[id].hitlReason == Some(HitlReason.SpecConflict) && items[id].replanCount == 0
    && items[id].sourceId == "spec:" + req.id && items[id].workspaceId == req.workspaceId
    && items[id].state == "review" && items[id].title == Some("Spec conflict detected for '" + req.name + "'")
    && items[id].hitlNotes == Some("spec-conflict-detected: " + req.conflictsJson)
  }

  /** `belt spec add`, from conflict detection to activation. */
  method AddSpec(db: Database, req: Request) returns (r: Reply)
    modifies db
    ensures r.DuplicateSpec? <==> req.id in old(db.specs)
    ensures r.DuplicateSpec? ==> db.specs == old(db.specs) && db.items == old(db.items)
    ensures r.DuplicateItem? <==>
              req.id !in old(db.specs) && req.Conflicts() != [] && ReviewId(req.id) in old(db.items)
    ensures r.DuplicateItem? ==>
              db.specs == old(db.specs)[req.id := StoredSpec(req, Draft)] && db.items == old(db.items)
    ensures r.Added? ==>
              && db.specs == old(db.specs)[
                   req.id := StoredSpec(req, if HasFileOverlap(req.Conflicts()) then Draft else Active)]
              && db.items == if req.Conflicts() == [] then old(db.items)
                             else old(db.items)[ReviewId(req.id) := ReviewRow(req)]
    ensures r.Added? && req.Conflicts() != [] ==> WaitsForReview(db.items, req)
  {
    var spec, hasConflicts, hasHitlConflicts := PrepareSpec(req);
    var inserted := db.InsertSpec(spec);
    if !inserted {
      return DuplicateSpec;
    }
    if hasConflicts {
      var queued := QueueReview(db, req);
      if !queued {
        return DuplicateItem;
      }
    }
    if !hasHitlConflicts {
      var _ := db.UpdateSpecStatus(req.id, Active);
    }
    return Added;
  }

  // ---- safety of the gate -------------------------------------------------

  lemma {:induction false} ModuleOverlapIsAutomatic(conflicts: seq<SpecConflict>, i: nat)
    requires i < |conflicts| && conflicts[i].overlap.ModuleOverlap?
    ensures conflicts[i].existingSpecId in AutoDependencies(conflicts)
    decreases |conflicts|
  {
    var n := |conflicts| - 1;
    if i < n {
      ModuleOverlapIsAutomatic(conflicts[..n], i);
    }
  }

  /** A clean identifier among the appended ones is a part of the stored text, even when others are not clean. */
  lemma AppendedIsNamed(current: Option<string>, ids: seq<string>, id: string)
    requires id in ids && CleanId(id)
    ensures Appended(current, ids).Some? && id in Split(Appended(current, ids).value, ',')
  {
    var all := AppendIds(ParsedIds(current), ids);
    AppendedIdsMeaning(ParsedIds(current), ids);
    assert id in all;
    SplitJoin(all, ',');
    SplitEachHas(all, ',', id);
  }

  /** After a spec is added, every existing spec that it overlaps by module holds it back: the new
      spec is not ready under any lookup in which that spec is missing or not completed. */
  lemma GateHoldsBack(req: Request, status: SpecStatus, i: nat, resolve: Resolver)
    requires i < |req.Conflicts()| && req.Conflicts()[i].overlap.ModuleOverlap?
    requires CleanId(req.Conflicts()[i].existingSpecId)
    requires var id := req.Conflicts()[i].existingSpecId;
             resolve(id) == None || resolve(id).value.status != SpecStatus.Completed
    ensures !CheckDependencies(StoredSpec(req, status), resolve).IsReady()
  {
    var conflicts := req.Conflicts();
    var id := conflicts[i].existingSpecId;
    ModuleOverlapIsAutomatic(conflicts, i);
    AppendedIsNamed(req.dependsOn, AutoDependencies(conflicts), id);
    NamedDependencyBlocks(StoredSpec(req, status), id, resolve);
  }

  lemma {:induction false} AutomaticIsModuleOverlap(conflicts: seq<SpecConflict>, id: string)
    requires id in AutoDependencies(conflicts)
    ensures exists i :: 0 <= i < |conflicts| && conflicts[i].overlap.ModuleOverlap? && conflicts[i].existingSpecId == id
    decreases |conflicts|
  {
    var n := |conflicts| - 1;
    if id in AutoDependencies(conflicts[..n]) {
      AutomaticIsModuleOverlap(conflicts[..n], id);
      var i :| 0 <= i < n && conflicts[..n][i].overlap.ModuleOverlap? && conflicts[..n][i].existingSpecId == id;
      assert conflicts[i] == conflicts[..n][i];
    }
  }

  /** An append leaves no blank part behind. */
  lemma AppendedHasNoEmptyPart(current: Option<string>, ids: seq<string>)
    requires AllClean(ids)
    ensures !HasEmptyPart(Appended(current, ids))
  {
    var all := AppendIds(ParsedIds(current), ids);
    AppendedIdsClean(current, ids);
    if all != [] {
      ParseJoin(all);
      forall i | 0 <= i < |all| ensures TrimAll(all)[i] == all[i] != "" {
        TrimOfTrimmed(all[i]);
      }
    }
  }

  /** And nothing else does, for any request whose automatic identifiers are clean: the new spec is
      ready exactly when all it was declared to depend on, and all it overlaps by module, is
      completed; only without an automatic dependency can a blank part of the declared text hold it
      back as well. */
  lemma GateReadyIff(req: Request, status: SpecStatus, resolve: Resolver)
    requires AllClean(AutoDependencies(req.Conflicts()))
    ensures CheckDependencies(StoredSpec(req, status), resolve).IsReady()
            <==> && (forall id :: id in ParsedIds(req.dependsOn) ==> IsComplete(resolve, id))
                 && (forall id :: id in AutoDependencies(req.Conflicts()) ==> IsComplete(resolve, id))
                 && (AutoDependencies(req.Conflicts()) == [] && HasEmptyPart(req.dependsOn) ==> IsComplete(resolve, ""))
  {
    var autoIds := AutoDependencies(req.Conflicts());
    ReadyFromIds(StoredSpec(req, status), resolve);
    if autoIds != [] {
      AppendedHasNoEmptyPart(req.dependsOn, autoIds);
      AppendRoundTrip(req.dependsOn, autoIds);
      AbsentMeaning(ParsedIds(req.dependsOn), autoIds);
    }
  }
}
