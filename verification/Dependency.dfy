/** The dependency and conflict gate between specs. Dependencies and paths live as comma-separated
    text, which one function joins and others split. */
module Dependency {
  import opened Sequences
  import opened Text

  datatype SpecStatus = Draft | Active | Paused | Completing | Completed | Archived

  /** The part of a spec that the gate reads. */
  datatype Spec = Spec(id: string, workspaceId: string, name: string, status: SpecStatus,
                       dependsOn: Option<string>, entryPoint: Option<string>)

  datatype DependencyCheck = Satisfied | Blocked(pending: seq<string>) | NoDependencies {
    predicate IsReady() {
      Satisfied? || NoDependencies?
    }
  }

  datatype ConflictCheck = Clear | Conflict(specs: seq<string>, paths: seq<string>)

  datatype OverlapType = FileOverlap | ModuleOverlap

  datatype SpecConflict = SpecConflict(existingSpecId: string, existingSpecName: string, overlap: OverlapType,
                                       path: string)

  datatype ConflictAction = AutoDependency(specId: string) | Escalate(reason: string)

  // ---- comma-separated lists ----------------------------------------------

  /** Trim every part and keep the non-empty ones. */
  function CleanParts(parts: seq<string>): seq<string> {
    if parts == [] then []
    else
      var t := Trim(parts[0]);
      (if t == "" then [] else [t]) + CleanParts(parts[1..])
  }

  function ParseDependsOn(text: string): seq<string> {
    CleanParts(Split(text, ','))
  }

  function ParseEntryPoints(spec: Spec): seq<string> {
    if spec.entryPoint.None? || Trim(spec.entryPoint.value) == "" then []
    else CleanParts(Split(spec.entryPoint.value, ','))
  }

  function TrimAll(parts: seq<string>): (r: seq<string>)
    ensures |r| == |parts| && forall i :: 0 <= i < |r| ==> r[i] == Trim(parts[i])
  {
    seq(|parts|, i requires 0 <= i < |parts| => Trim(parts[i]))
  }

  /** An identifier that survives joining and splitting. */
  predicate CleanId(id: string) {
    Trimmed(id) && id != "" && ',' !in id
  }

  predicate AllClean(ids: seq<string>) {
    forall i :: 0 <= i < |ids| ==> CleanId(ids[i])
  }

  lemma {:induction false} CleanConcat(a: seq<string>, b: seq<string>)
    ensures CleanParts(a + b) == CleanParts(a) + CleanParts(b)
    decreases |a|
  {
    if a == [] {
      assert a + b == b;
    } else {
      assert (a + b)[1..] == a[1..] + b;
      CleanConcat(a[1..], b);
    }
  }

  lemma {:induction false} CleanOfClean(ids: seq<string>)
    requires AllClean(ids)
    ensures CleanParts(ids) == ids
    decreases |ids|
  {
    if ids != [] {
      TrimOfTrimmed(ids[0]);
      CleanOfClean(ids[1..]);
      assert ids == [ids[0]] + ids[1..];
    }
  }

  lemma {:induction false} CleanPartsAreClean(parts: seq<string>)
    requires forall i :: 0 <= i < |parts| ==> ',' !in parts[i]
    ensures AllClean(CleanParts(parts))
    decreases |parts|
  {
    if parts != [] {
      TrimIsTrimmed(parts[0]);
      CleanPartsAreClean(parts[1..]);
    }
  }

  /** Whatever the text, parsing it gives clean identifiers. */
  lemma ParseIsClean(text: string)
    ensures AllClean(ParseDependsOn(text))
  {
    SplitParts(text, ',');
    CleanPartsAreClean(Split(text, ','));
  }

  /** Parsing the joined text of clean identifiers gives them back. */
  lemma ParseJoin(ids: seq<string>)
    requires AllClean(ids) && ids != []
    ensures ParseDependsOn(Join(ids, ",")) == ids
    ensures Split(Join(ids, ","), ',') == ids
  {
    SplitJoin(ids, ',');
    SplitEachClean(ids, ',');
    CleanOfClean(ids);
  }

  /** The entry point names the path: one of its comma parts, trimmed, and not blank. */
  ghost predicate NamesPath(spec: Spec, path: string) {
    && spec.entryPoint.Some? && path != ""
    && exists part :: part in Split(spec.entryPoint.value, ',') && Trim(part) == path
  }

  lemma TrimmedParts(parts: seq<string>, p: string)
    ensures p in TrimAll(parts) <==> exists part :: part in parts && Trim(part) == p
  {
    if p in TrimAll(parts) {
      var i :| 0 <= i < |parts| && TrimAll(parts)[i] == p;
      assert parts[i] in parts;
    }
    forall part | part in parts && Trim(part) == p ensures p in TrimAll(parts) {
      var i :| 0 <= i < |parts| && parts[i] == part;
      assert TrimAll(parts)[i] == p;
    }
  }

  /** A spec's paths are exactly the ones its entry point names. */
  lemma EntryPointMeaning(spec: Spec, path: string)
    ensures path in ParseEntryPoints(spec) <==> NamesPath(spec, path)
  {
    if spec.entryPoint.Some? {
      var text := spec.entryPoint.value;
      CleanedParts(Split(text, ','));
      TrimmedParts(Split(text, ','), path);
      if Trim(text) == "" {
        BlankNamesNothing(text);
      }
    }
  }

  /** Clean paths joined by commas are read back in order. */
  lemma EntryPointRoundTrip(spec: Spec, paths: seq<string>)
    requires AllClean(paths) && paths != [] && spec.entryPoint == Some(Join(paths, ","))
    ensures ParseEntryPoints(spec) == paths
  {
    ParseJoin(paths);
    JoinHas(paths, 0);
    var text := Join(paths, ",");
    var k :| 0 <= k < |text| && text[k] == paths[0][0];
    TrimNonBlank(text, k);
  }

  // ---- the dependency gate ------------------------------------------------

  type Resolver = string -> Option<Spec>

  predicate IsComplete(resolve: Resolver, id: string) {
    resolve(id).Some? && resolve(id).value.status.Completed?
  }

  function PendingIds(ids: seq<string>, resolve: Resolver): (pending: seq<string>)
    ensures forall id :: id in pending
              <==> id in ids && (resolve(id) == None || resolve(id).value.status != Completed)
  {
    if ids == [] then []
    else (if IsComplete(resolve, ids[0]) then [] else [ids[0]]) + PendingIds(ids[1..], resolve)
  }

  /** Whether a spec may run: all the specs it names must resolve to completed ones. */
  function CheckDependencies(spec: Spec, resolve: Resolver): DependencyCheck {
    if spec.dependsOn.None? || Trim(spec.dependsOn.value) == "" then NoDependencies
    else
      var pending := PendingIds(TrimAll(Split(spec.dependsOn.value, ',')), resolve);
      if pending == [] then Satisfied else Blocked(pending)
  }

  /** For every spec: it is ready exactly when it declares nothing, or every part of its text,
      trimmed, names a completed spec. */
  lemma ReadyIff(spec: Spec, resolve: Resolver)
    ensures CheckDependencies(spec, resolve).IsReady()
            <==> || spec.dependsOn.None? || Trim(spec.dependsOn.value) == ""
                 || forall p :: p in TrimAll(Split(spec.dependsOn.value, ',')) ==> IsComplete(resolve, p)
  {
    if spec.dependsOn.Some? {
      var parts := TrimAll(Split(spec.dependsOn.value, ','));
      var pending := PendingIds(parts, resolve);
      assert pending != [] ==> pending[0] in pending;
    }
  }

  /** The text declares something, and one of its parts is blank. */
  predicate HasEmptyPart(current: Option<string>) {
    current.Some? && Trim(current.value) != "" && "" in TrimAll(Split(current.value, ','))
  }

  lemma {:induction false} CleanedParts(parts: seq<string>)
    ensures forall p :: p in CleanParts(parts) <==> p in TrimAll(parts) && p != ""
    decreases |parts|
  {
    if parts != [] {
      CleanedParts(parts[1..]);
      assert TrimAll(parts) == [Trim(parts[0])] + TrimAll(parts[1..]);
    }
  }

  lemma BlankNamesNothing(text: string)
    requires Trim(text) == ""
    ensures ParseDependsOn(text) == []
  {
    assert ',' !in text by {
      forall i | 0 <= i < |text| ensures text[i] != ',' {
        if !IsWhitespace(text[i]) {
          TrimNonBlank(text, i);
        }
      }
    }
    SplitWithoutSeparator(text, ',');
    assert [text][1..] == [];
  }

  /** For every spec: the check keeps the blank parts that parsing drops. It is ready exactly when
      all parsed identifiers are completed and, if the text has a blank part, so is the empty one. */
  lemma ReadyFromIds(spec: Spec, resolve: Resolver)
    ensures CheckDependencies(spec, resolve).IsReady()
            <==> && (forall id :: id in ParsedIds(spec.dependsOn) ==> IsComplete(resolve, id))
                 && (HasEmptyPart(spec.dependsOn) ==> IsComplete(resolve, ""))
  {
    ReadyIff(spec, resolve);
    if spec.dependsOn.Some? {
      CleanedParts(Split(spec.dependsOn.value, ','));
      if Trim(spec.dependsOn.value) == "" {
        BlankNamesNothing(spec.dependsOn.value);
      }
    }
  }

  /** Exactly when the check agrees with the parsed identifiers: some of them is pending anyway, no
      part is blank, or the empty identifier is completed too. */
  lemma ReadyAgreesIff(spec: Spec, resolve: Resolver)
    ensures (CheckDependencies(spec, resolve).IsReady()
             <==> forall id :: id in ParsedIds(spec.dependsOn) ==> IsComplete(resolve, id))
            <==> || !(forall id :: id in ParsedIds(spec.dependsOn) ==> IsComplete(resolve, id))
                 || !HasEmptyPart(spec.dependsOn) || IsComplete(resolve, "")
  {
    ReadyFromIds(spec, resolve);
  }

  /** A trailing comma blocks a spec whose one dependency is completed. */
  lemma TrailingCommaExample(spec: Spec, resolve: Resolver)
    requires spec.dependsOn == Some("a,") && IsComplete(resolve, "a") && !IsComplete(resolve, "")
    ensures ParsedIds(spec.dependsOn) == ["a"]
    ensures CheckDependencies(spec, resolve) == Blocked([""])
  {
    var text := "a,";
    assert CleanId("a");
    ParseOfClean("a");
    SplitConcat("a", ',', "");
    assert "a" + [','] + "" == text;
    var ids, parts := ["a"], Split(text, ',');
    assert Split("", ',') == [""] && parts == ids + [""];
    CleanConcat(ids, [""]);
    CleanOfClean(ids);
    assert CleanParts([""]) == [];
    TrimOfTrimmed("a");
    assert TrimAll(parts) == ids + [""];
    TrimNonBlank(text, 0);
    LastPending(ids, "", resolve);
  }

  lemma {:induction false} LastPending(ids: seq<string>, last: string, resolve: Resolver)
    requires forall id :: id in ids ==> IsComplete(resolve, id)
    requires !IsComplete(resolve, last)
    ensures PendingIds(ids + [last], resolve) == [last]
    decreases |ids|
  {
    if ids == [] {
      assert ids + [last] == [last] && [last][1..] == [];
    } else {
      assert (ids + [last])[1..] == ids[1..] + [last];
      LastPending(ids[1..], last, resolve);
    }
  }

  /** A declared dependency that is missing or not completed blocks, wherever it stands in the text. */
  lemma NamedDependencyBlocks(spec: Spec, id: string, resolve: Resolver)
    requires spec.dependsOn.Some? && CleanId(id) && id in Split(spec.dependsOn.value, ',')
    requires resolve(id) == None || resolve(id).value.status != Completed
    ensures CheckDependencies(spec, resolve).Blocked? && id in CheckDependencies(spec, resolve).pending
  {
    var text := spec.dependsOn.value;
    var parts := Split(text, ',');
    var i :| 0 <= i < |parts| && parts[i] == id;
    TrimOfTrimmed(id);
    assert TrimAll(parts)[i] == id;
    JoinSplit(text, ',');
    JoinHas(parts, i);
    var k :| 0 <= k < |text| && text[k] == id[0];
    TrimNonBlank(text, k);
  }

  lemma {:induction false} JoinHas(parts: seq<string>, i: nat)
    requires i < |parts| && parts[i] != ""
    ensures parts[i][0] in Join(parts, ",")
    decreases |parts|
  {
    if i > 0 {
      JoinHas(parts[1..], i - 1);
    }
  }

  // ---- appending dependencies ---------------------------------------------

  function AppendIds(existing: seq<string>, ids: seq<string>): seq<string> {
    if ids == [] then existing
    else
      var n := |ids| - 1;
      var before := AppendIds(existing, ids[..n]);
      if ids[n] in before then before else before + [ids[n]]
  }

  function ParsedIds(current: Option<string>): seq<string> {
    if current.Some? then ParseDependsOn(current.value) else []
  }

  function Joined(ids: seq<string>): Option<string> {
    if ids == [] then None else Some(Join(ids, ","))
  }

  function Appended(current: Option<string>, ids: seq<string>): Option<string> {
    Joined(AppendIds(ParsedIds(current), ids))
  }

  method AppendDependencies(current: Option<string>, newIds: seq<string>) returns (r: Option<string>)
    ensures r == Appended(current, newIds)
  {
    var existing := if current.Some? then ParseDependsOn(current.value) else [];
    for i := 0 to |newIds|
      invariant existing == AppendIds(ParsedIds(current), newIds[..i])
    {
      assert newIds[..i + 1][..i] == newIds[..i];
      if newIds[i] !in existing {
        existing := existing + [newIds[i]];
      }
    }
    assert newIds[..|newIds|] == newIds;
    r := if existing == [] then None else Some(Join(existing, ","));
  }

  /** The identifiers of `ids` that are absent from `existing`, each at its first occurrence. */
  function Absent(existing: seq<string>, ids: seq<string>): seq<string> {
    if ids == [] then []
    else
      var n := |ids| - 1;
      Absent(existing, ids[..n]) + if ids[n] in existing || ids[n] in ids[..n] then [] else [ids[n]]
  }

  lemma {:induction false} AppendedIdsMeaning(existing: seq<string>, ids: seq<string>)
    ensures AppendIds(existing, ids) == existing + Absent(existing, ids)
    ensures forall id :: id in AppendIds(existing, ids) <==> id in existing || id in ids
    decreases |ids|
  {
    if ids != [] {
      var n := |ids| - 1;
      AppendedIdsMeaning(existing, ids[..n]);
      assert ids == ids[..n] + [ids[n]];
    }
  }

  lemma AppendedIdsClean(current: Option<string>, ids: seq<string>)
    requires AllClean(ids)
    ensures AllClean(AppendIds(ParsedIds(current), ids))
  {
    if current.Some? {
      ParseIsClean(current.value);
    }
    var all := AppendIds(ParsedIds(current), ids);
    AppendedIdsMeaning(ParsedIds(current), ids);
    forall i | 0 <= i < |all| ensures CleanId(all[i]) {
      assert all[i] in all;
    }
  }

  /** Reading back appended text gives the old identifiers in order, then each absent new one once,
      in order of first occurrence. */
  lemma AppendRoundTrip(current: Option<string>, ids: seq<string>)
    requires AllClean(ids)
    ensures ParsedIds(Appended(current, ids)) == ParsedIds(current) + Absent(ParsedIds(current), ids)
  {
    AppendedIdsMeaning(ParsedIds(current), ids);
    AppendedIdsClean(current, ids);
    var all := AppendIds(ParsedIds(current), ids);
    if all != [] {
      ParseJoin(all);
    }
  }

  lemma {:induction false} AppendKnown(existing: seq<string>, ids: seq<string>)
    requires forall i :: 0 <= i < |ids| ==> ids[i] in existing
    ensures AppendIds(existing, ids) == existing
    decreases |ids|
  {
    if ids != [] {
      AppendKnown(existing, ids[..|ids| - 1]);
    }
  }

  /** Appending the same clean identifiers again changes nothing. */
  lemma AppendTwice(current: Option<string>, ids: seq<string>)
    requires AllClean(ids)
    ensures Appended(Appended(current, ids), ids) == Appended(current, ids)
  {
    AppendRoundTrip(current, ids);
    AppendedIdsMeaning(ParsedIds(current), ids);
    AppendKnown(ParsedIds(Appended(current, ids)), ids);
  }

  // What a second append changes.

  function Unclean(ids: seq<string>): seq<string> {
    if ids == [] then [] else (if CleanId(ids[0]) then [] else [ids[0]]) + Unclean(ids[1..])
  }

  predicate NoneNamed(ids: seq<string>) {
    forall i :: 0 <= i < |ids| ==> ParseDependsOn(ids[i]) == []
  }

  /** Clean identifiers, and after them only texts that hold no identifier. */
  predicate CleanThenEmpty(ids: seq<string>) {
    if ids != [] && CleanId(ids[0]) then CleanThenEmpty(ids[1..]) else NoneNamed(ids)
  }

  lemma {:induction false} UncleanConcat(a: seq<string>, b: seq<string>)
    ensures Unclean(a + b) == Unclean(a) + Unclean(b)
    decreases |a|
  {
    if a == [] {
      assert a + b == b;
    } else {
      assert (a + b)[1..] == a[1..] + b;
      UncleanConcat(a[1..], b);
    }
  }

  lemma ParseOfClean(id: string)
    ensures CleanId(id) <==> ParseDependsOn(id) == [id]
    ensures CleanId(id) ==> Split(id, ',') == [id]
  {
    ParseIsClean(id);
    if CleanId(id) {
      SplitWithoutSeparator(id, ',');
      CleanOfClean([id]);
    } else {
      assert [id][0] == id;
    }
  }

  lemma {:induction false} CleanOfEach(ids: seq<string>)
    ensures CleanParts(SplitEach(ids, ',')) == [] <==> NoneNamed(ids)
    ensures AllClean(CleanParts(SplitEach(ids, ',')))
    ensures forall id :: id in ids && CleanId(id) ==> id in CleanParts(SplitEach(ids, ','))
    decreases |ids|
  {
    if ids != [] {
      CleanOfEach(ids[1..]);
      CleanConcat(Split(ids[0], ','), SplitEach(ids[1..], ','));
      ParseIsClean(ids[0]);
      ParseOfClean(ids[0]);
      NoneNamedHead(ids[0], ids[1..]);
      assert ids == [ids[0]] + ids[1..];
    }
  }

  lemma {:induction false} UncleanOfEmpty(ids: seq<string>)
    requires NoneNamed(ids)
    ensures Unclean(ids) == ids
    decreases |ids|
  {
    if ids != [] {
      ParseOfClean(ids[0]);
      UncleanOfEmpty(ids[1..]);
      assert ids == [ids[0]] + ids[1..];
    }
  }

  lemma RereadHead(head: string, rest: seq<string>)
    ensures SplitEach([head] + rest, ',') == Split(head, ',') + SplitEach(rest, ',')
    ensures CleanParts(SplitEach([head] + rest, ',')) == ParseDependsOn(head) + CleanParts(SplitEach(rest, ','))
    ensures CleanId(head) ==> Unclean([head] + rest) == Unclean(rest)
    ensures !CleanId(head) ==>
              SplitEach(Unclean([head] + rest), ',') == Split(head, ',') + SplitEach(Unclean(rest), ',')
  {
    SplitEachHead(head, rest, ',');
    CleanConcat(Split(head, ','), SplitEach(rest, ','));
    UncleanHead(head, rest);
    SplitEachHead(head, Unclean(rest), ',');
  }

  lemma UncleanHead(head: string, rest: seq<string>)
    ensures Unclean([head] + rest) == if CleanId(head) then Unclean(rest) else [head] + Unclean(rest)
  {
    assert ([head] + rest)[1..] == rest;
  }

  lemma {:induction false} RereadGrows(ids: seq<string>)
    ensures |CleanParts(SplitEach(ids, ','))| + |SplitEach(Unclean(ids), ',')| >= |SplitEach(ids, ',')|
    decreases |ids|
  {
    if ids != [] {
      RereadGrows(ids[1..]);
      RereadHead(ids[0], ids[1..]);
      ParseOfClean(ids[0]);
      assert ids == [ids[0]] + ids[1..];
    }
  }

  lemma CancelFront(a: seq<string>, b: seq<string>, c: seq<string>)
    ensures a + b == a + c <==> b == c
  {
    assert (a + b)[|a|..] == b && (a + c)[|a|..] == c;
  }

  /** An unclean text in front: reading and appending again gives the same parts only when nothing
      is named from there on. */
  lemma RereadUnclean(s: seq<string>, f: seq<string>, r: seq<string>, q: seq<string>)
    requires s != [] && AllClean(f) && |f| + |r| >= |q|
    ensures CleanParts(s) + f + (s + r) == s + q <==> CleanParts(s) == [] && f == [] && r == q
  {
    var left, right := CleanParts(s) + f + (s + r), s + q;
    if CleanParts(s) != [] {
      assert |left| > |right|;
    } else if f != [] {
      assert left[0] == f[0] && right[0] == s[0];
      TrimOfTrimmed(f[0]);
    } else {
      assert left == s + r;
      CancelFront(s, r, q);
    }
  }

  /** Reading a list's parts back, and adding its unclean texts again, gives the same parts. */
  predicate Rereads(ids: seq<string>) {
    CleanParts(SplitEach(ids, ',')) + SplitEach(Unclean(ids), ',') == SplitEach(ids, ',')
  }

  lemma RereadCleanHead(head: string, rest: seq<string>)
    requires CleanId(head)
    ensures Rereads([head] + rest) <==> Rereads(rest)
  {
    var f, r, q := CleanParts(SplitEach(rest, ',')), SplitEach(Unclean(rest), ','), SplitEach(rest, ',');
    RereadHead(head, rest);
    ParseOfClean(head);
    CancelFront([head], f + r, q);
    assert [head] + f + r == [head] + (f + r);
  }

  lemma RereadUncleanHead(head: string, rest: seq<string>)
    requires !CleanId(head)
    ensures Rereads([head] + rest) <==> NoneNamed([head] + rest)
  {
    RereadHead(head, rest);
    CleanOfEach(rest);
    RereadGrows(rest);
    RereadUnclean(Split(head, ','), CleanParts(SplitEach(rest, ',')), SplitEach(Unclean(rest), ','),
                  SplitEach(rest, ','));
    NoneNamedHead(head, rest);
    if NoneNamed(rest) {
      UncleanOfEmpty(rest);
    }
  }

  /** That is so exactly when the clean identifiers come first and the other texts hold none. */
  lemma {:induction false} RereadIff(ids: seq<string>)
    ensures Rereads(ids) <==> CleanThenEmpty(ids)
    decreases |ids|
  {
    if ids != [] {
      assert ids == [ids[0]] + ids[1..];
      if CleanId(ids[0]) {
        RereadIff(ids[1..]);
        RereadCleanHead(ids[0], ids[1..]);
      } else {
        RereadUncleanHead(ids[0], ids[1..]);
      }
    }
  }

  lemma NoneNamedHead(head: string, rest: seq<string>)
    ensures NoneNamed([head] + rest) <==> ParseDependsOn(head) == [] && NoneNamed(rest)
  {
    var ids := [head] + rest;
    assert ids[0] == head && forall i :: 0 <= i < |rest| ==> ids[i + 1] == rest[i];
  }

  lemma {:induction false} AbsentUnclean(kept: seq<string>, read: seq<string>, ids: seq<string>)
    requires forall id :: id in ids ==> (id in read <==> id in kept || CleanId(id))
    ensures Absent(read, ids) == Unclean(Absent(kept, ids))
    decreases |ids|
  {
    if ids != [] {
      var n := |ids| - 1;
      AbsentUnclean(kept, read, ids[..n]);
      var last := if ids[n] in kept || ids[n] in ids[..n] then [] else [ids[n]];
      UncleanConcat(Absent(kept, ids[..n]), last);
      assert last != [] ==> last[1..] == [];
    }
  }

  /** What reading appended text gives, clean or not. */
  lemma AppendedRead(current: Option<string>, ids: seq<string>)
    ensures var kept := ParsedIds(current);
            var more := Absent(kept, ids);
            && SplitEach(kept + more, ',') == kept + SplitEach(more, ',')
            && ParsedIds(Appended(current, ids)) == kept + CleanParts(SplitEach(more, ','))
  {
    var kept := ParsedIds(current);
    var more := Absent(kept, ids);
    if current.Some? {
      ParseIsClean(current.value);
    }
    AppendedIdsMeaning(kept, ids);
    SplitEachConcat(kept, more, ',');
    SplitEachClean(kept, ',');
    CleanConcat(kept, SplitEach(more, ','));
    CleanOfClean(kept);
    if kept + more != [] {
      SplitJoin(kept + more, ',');
    } else {
      assert more == [];
    }
  }

  lemma SameText(a: seq<string>, b: seq<string>)
    requires a != [] && b != []
    ensures Join(a, ",") == Join(b, ",") <==> SplitEach(a, ',') == SplitEach(b, ',')
  {
    SplitJoin(a, ',');
    SplitJoin(b, ',');
    JoinSplit(Join(a, ","), ',');
    JoinSplit(Join(b, ","), ',');
  }

  /** A second append of the same texts adds the unclean ones again. */
  lemma AppendedTwice(current: Option<string>, ids: seq<string>)
    ensures var kept := ParsedIds(current);
            var more := Absent(kept, ids);
            Appended(Appended(current, ids), ids) == Joined(kept + CleanParts(SplitEach(more, ',')) + Unclean(more))
  {
    var kept := ParsedIds(current);
    var more := Absent(kept, ids);
    var read := kept + CleanParts(SplitEach(more, ','));
    AppendedRead(current, ids);
    if current.Some? {
      ParseIsClean(current.value);
    }
    CleanOfEach(more);
    AbsentMeaning(kept, ids);
    forall id | id in ids ensures id in read <==> id in kept || CleanId(id) {
      assert id in kept ==> CleanId(id);
      assert id in more || id in kept;
    }
    AbsentUnclean(kept, read, ids);
    AppendedIdsMeaning(read, ids);
  }

  /** Exactly when appending a list of texts twice equals appending it once: among those that are
      new, the clean identifiers come first, and the others hold no identifier at all. */
  lemma AppendAgainIff(current: Option<string>, ids: seq<string>)
    ensures Appended(Appended(current, ids), ids) == Appended(current, ids)
            <==> CleanThenEmpty(Absent(ParsedIds(current), ids))
  {
    var kept := ParsedIds(current);
    var more := Absent(kept, ids);
    AppendedTwice(current, ids);
    AppendedRead(current, ids);
    AppendedIdsMeaning(kept, ids);
    if more == [] {
      assert kept + [] + [] == kept + [];
    } else {
      var f, u := CleanParts(SplitEach(more, ',')), Unclean(more);
      CleanOfEach(more);
      assert f + u != [] by {
        assert more[0] in more;
      }
      if current.Some? {
        ParseIsClean(current.value);
      }
      SecondSplit(kept, f, u);
      SameText(kept + f + u, kept + more);
      RereadIff(more);
      CancelFront(kept, f + SplitEach(u, ','), SplitEach(more, ','));
    }
  }

  lemma SplitBehindClean(a: seq<string>, b: seq<string>)
    requires AllClean(a)
    ensures SplitEach(a + b, ',') == a + SplitEach(b, ',')
  {
    SplitEachConcat(a, b, ',');
    SplitEachClean(a, ',');
  }

  lemma SecondSplit(kept: seq<string>, f: seq<string>, u: seq<string>)
    requires AllClean(kept) && AllClean(f)
    ensures SplitEach(kept + f + u, ',') == kept + (f + SplitEach(u, ','))
  {
    SplitBehindClean(kept, f + u);
    SplitBehindClean(f, u);
    assert kept + f + u == kept + (f + u);
  }

  /** For one text: appending it twice equals appending it once exactly when it is already there, is
      one clean identifier, or holds none. */
  lemma AppendOneTwice(current: Option<string>, id: string)
    ensures Appended(Appended(current, [id]), [id]) == Appended(current, [id])
            <==> ParseDependsOn(id) == [] || ParseDependsOn(id) == [id]
  {
    AppendAgainIff(current, [id]);
    ParseOfClean(id);
    if current.Some? {
      ParseIsClean(current.value);
    }
    var more := Absent(ParsedIds(current), [id]);
    assert [id][..0] == [];
    assert more == if id in ParsedIds(current) then [] else [id];
    assert more != [] ==> more[1..] == [];
  }

  lemma {:induction false} AbsentMeaning(existing: seq<string>, ids: seq<string>)
    ensures NoDuplicates(Absent(existing, ids))
    ensures forall id :: id in Absent(existing, ids) <==> id in ids && id !in existing
    decreases |ids|
  {
    if ids != [] {
      var n := |ids| - 1;
      AbsentMeaning(existing, ids[..n]);
      assert ids == ids[..n] + [ids[n]];
    }
  }

  /** For every list of texts: the text read back is free of duplicates exactly when the old
      identifiers were, the ones named by the new texts are, and none of them was there before. */
  lemma AppendDuplicatesIff(current: Option<string>, ids: seq<string>)
    ensures var kept := ParsedIds(current);
            var named := CleanParts(SplitEach(Absent(kept, ids), ','));
            NoDuplicates(ParsedIds(Appended(current, ids)))
            <==> NoDuplicates(kept) && NoDuplicates(named) && forall x :: x in named ==> x !in kept
  {
    AppendedRead(current, ids);
    NoDuplicatesConcat(ParsedIds(current), CleanParts(SplitEach(Absent(ParsedIds(current), ids), ',')));
  }

  /** Appending clean identifiers neither adds nor removes a duplicate: the text read back is free of
      them exactly when it was before. */
  lemma AppendKeepsDuplicates(current: Option<string>, ids: seq<string>)
    requires AllClean(ids)
    ensures NoDuplicates(ParsedIds(Appended(current, ids))) <==> NoDuplicates(ParsedIds(current))
  {
    var more := Absent(ParsedIds(current), ids);
    AppendDuplicatesIff(current, ids);
    AbsentMeaning(ParsedIds(current), ids);
    forall i | 0 <= i < |more| ensures CleanId(more[i]) {
      assert more[i] in more;
    }
    SplitEachClean(more, ',');
    CleanOfClean(more);
  }

  /** A padded text adds a duplicate where there was none. */
  lemma DuplicateAddedExample(a: string, padded: string)
    requires a == "a" && padded == " a"
    ensures Appended(None, [a, padded]) == Some("a, a")
    ensures ParsedIds(Appended(None, [a, padded])) == [a, a]
  {
    var ids := [a, padded];
    assert ids[..1] == [a] && [a][..0] == [] && AppendIds([], [a]) == [a];
    assert AppendIds([], ids) == ids && Join(ids, ",") == "a, a";
    PaddedParts(a, padded);
    SplitJoin(ids, ',');
  }

  lemma PaddedParts(a: string, padded: string)
    requires CleanId(a) && padded == " " + a
    ensures SplitEach([a, padded], ',') == [a, padded]
    ensures CleanParts([a, padded]) == [a, a]
  {
    SplitEachClean([a, padded], ',');
    TrimOfTrimmed(a);
    TrimPadded(" ", a, "");
    assert " " + a + "" == padded;
    CleanConcat([a], [padded]);
    assert [a, padded] == [a] + [padded];
    assert [a][1..] == [] && [padded][1..] == [];
    assert CleanParts([a]) == [a] && CleanParts([padded]) == [a];
  }

  /** A repeated dependency outlives an append. */
  lemma DuplicateStaysExample()
    ensures Appended(Some("a,a"), ["b"]) == Some("a,a,b")
    ensures ParsedIds(Appended(Some("a,a"), ["b"])) == ["a", "a", "b"]
  {
    var ids := ["a", "a", "b"];
    assert CleanId("a") && CleanId("b");
    ParseJoin(["a", "a"]);
    ParseJoin(ids);
    assert Join(["a", "a"], ",") == "a,a" && Join(ids, ",") == "a,a,b";
    assert AppendIds(["a", "a"], ["b"]) == ids;
  }

  lemma BlankBehind(x: string, blank: string)
    requires CleanId(x) && ParseDependsOn(blank) == [] && x != blank
    ensures Absent([], [x, blank]) == [x, blank] && CleanThenEmpty([x, blank])
  {
    var ids := [x, blank];
    ParseOfClean(blank);
    assert [x][..0] == [] && Absent([], [x]) == [x];
    assert ids[..1] == [x] && blank !in ids[..1];
    assert ids[1..] == [blank] && NoneNamed([blank]);
  }

  lemma BlankBetween(x: string, blank: string, y: string)
    requires CleanId(x) && CleanId(y) && ParseDependsOn(blank) == [] && x != y
    ensures Absent([], [x, blank, y]) == [x, blank, y] && !CleanThenEmpty([x, blank, y])
  {
    var ids := [x, blank, y];
    ParseOfClean(x);
    ParseOfClean(blank);
    ParseOfClean(y);
    BlankBehind(x, blank);
    assert ids[..2] == [x, blank] && y !in ids[..2];
    assert !NoneNamed(ids[1..]) by {
      assert ids[1..][1] == y;
    }
  }

  /** A text that names nothing between two clean identifiers is appended again, and moves behind
      them; at the end it is not. */
  lemma AppendAgainExample(current: Option<string>, x: string, blank: string, y: string)
    requires current == None && CleanId(x) && CleanId(y) && x != y && ParseDependsOn(blank) == []
    ensures Appended(Appended(current, [x, blank, y]), [x, blank, y]) != Appended(current, [x, blank, y])
    ensures Appended(Appended(current, [x, blank]), [x, blank]) == Appended(current, [x, blank])
  {
    ParseOfClean(x);
    BlankBetween(x, blank, y);
    BlankBehind(x, blank);
    AppendAgainIff(current, [x, blank, y]);
    AppendAgainIff(current, [x, blank]);
  }

  /** So it is with "x", " " and "y". */
  lemma AppendAgainTexts(current: Option<string>, x: string, blank: string, y: string)
    requires current == None && x == "x" && blank == " " && y == "y"
    ensures Appended(Appended(current, [x, blank, y]), [x, blank, y]) != Appended(current, [x, blank, y])
    ensures Appended(Appended(current, [x, blank]), [x, blank]) == Appended(current, [x, blank])
  {
    TrimPadded(blank, "", "");
    assert blank + "" + "" == blank;
    BlankNamesNothing(blank);
    AppendAgainExample(current, x, blank, y);
  }

  // ---- the conflict scan --------------------------------------------------

  /** The paths of each other spec; a spec under the checked spec's own id is passed over. */
  function OtherPaths(others: seq<Spec>, id: string): (owned: seq<seq<string>>)
    ensures |owned| == |others|
    ensures forall i :: 0 <= i < |others| ==>
              owned[i] == if others[i].id == id then [] else ParseEntryPoints(others[i])
  {
    seq(|others|, i requires 0 <= i < |others| => if others[i].id == id then [] else ParseEntryPoints(others[i]))
  }

  function Ids(others: seq<Spec>): (ids: seq<string>)
    ensures |ids| == |others| && forall i :: 0 <= i < |others| ==> ids[i] == others[i].id
  {
    seq(|others|, i requires 0 <= i < |others| => others[i].id)
  }

  /** The first list that holds `p`, or the number of lists when none does. */
  function FirstOwner(owned: seq<seq<string>>, p: string): (n: nat)
    ensures n <= |owned| && (n < |owned| ==> p in owned[n])
    ensures forall j :: 0 <= j < n ==> p !in owned[j]
  {
    if owned == [] || p in owned[0] then 0 else 1 + FirstOwner(owned[1..], p)
  }

  /** The id of the first owner of each path. */
  function OwnerIds(owned: seq<seq<string>>, ids: seq<string>, paths: seq<string>): seq<string>
    requires |ids| == |owned| && forall p :: p in paths ==> FirstOwner(owned, p) < |owned|
  {
    if paths == [] then []
    else
      var n := |paths| - 1;
      OwnerIds(owned, ids, paths[..n]) + [ids[FirstOwner(owned, paths[n])]]
  }

  lemma {:induction false} OwnerIdsMeaning(owned: seq<seq<string>>, ids: seq<string>, paths: seq<string>)
    requires |ids| == |owned| && forall p :: p in paths ==> FirstOwner(owned, p) < |owned|
    ensures forall s :: s in OwnerIds(owned, ids, paths) <==> exists p :: p in paths && ids[FirstOwner(owned, p)] == s
    decreases |paths|
  {
    if paths != [] {
      var n := |paths| - 1;
      OwnerIdsMeaning(owned, ids, paths[..n]);
      assert forall p :: p in paths <==> p in paths[..n] || p == paths[n];
    }
  }

  lemma {:induction false} AppendedIdsDistinct(ids: seq<string>)
    ensures NoDuplicates(AppendIds([], ids))
    decreases |ids|
  {
    if ids != [] {
      AppendedIdsDistinct(ids[..|ids| - 1]);
    }
  }

  /** Is `p` recorded once the first `i` lists have been seen, and of the next one `mine[..k]`? */
  predicate Recorded(mine: seq<string>, owned: seq<seq<string>>, i: nat, k: nat, p: string)
    requires i <= |owned| && k <= |mine|
  {
    p in mine && (FirstOwner(owned, p) < i || (FirstOwner(owned, p) == i < |owned| && p in mine[..k]))
  }

  lemma RecordedOneMore(mine: seq<string>, owned: seq<seq<string>>, i: nat, k: nat, p: string)
    requires i < |owned| && k < |mine|
    ensures Recorded(mine, owned, i, k + 1, p)
            <==> Recorded(mine, owned, i, k, p) || (p == mine[k] && FirstOwner(owned, p) == i)
  {
    assert mine[..k + 1] == mine[..k] + [mine[k]];
  }

  /** The paths recorded at that point, each once. */
  ghost predicate PathsSeen(mine: seq<string>, owned: seq<seq<string>>, i: nat, k: nat, paths: seq<string>)
    requires i <= |owned| && k <= |mine|
  {
    NoDuplicates(paths) && forall p :: p in paths <==> Recorded(mine, owned, i, k, p)
  }

  /** The specs recorded: the first owners of the recorded paths, each once. */
  ghost predicate SpecsSeen(owned: seq<seq<string>>, ids: seq<string>, paths: seq<string>, specs: seq<string>)
    requires |ids| == |owned|
  {
    && (forall p :: p in paths ==> FirstOwner(owned, p) < |owned|)
    && specs == AppendIds([], OwnerIds(owned, ids, paths))
  }

  lemma SeePath(mine: seq<string>, owned: seq<seq<string>>, i: nat, k: nat, paths: seq<string>)
    requires i < |owned| && k < |mine| && PathsSeen(mine, owned, i, k, paths)
    ensures var p := mine[k];
            if p in owned[i] && p !in paths
            then FirstOwner(owned, p) == i && PathsSeen(mine, owned, i, k + 1, paths + [p])
            else PathsSeen(mine, owned, i, k + 1, paths)
  {
    forall q ensures Recorded(mine, owned, i, k + 1, q)
                     <==> Recorded(mine, owned, i, k, q) || (q == mine[k] && FirstOwner(owned, q) == i)
    {
      RecordedOneMore(mine, owned, i, k, q);
    }
  }

  lemma SeeSpec(owned: seq<seq<string>>, ids: seq<string>, p: string, paths: seq<string>, specs: seq<string>)
    requires |ids| == |owned| && SpecsSeen(owned, ids, paths, specs) && FirstOwner(owned, p) < |owned|
    ensures var id := ids[FirstOwner(owned, p)];
            SpecsSeen(owned, ids, paths + [p], if id in specs then specs else specs + [id])
  {
    var id := ids[FirstOwner(owned, p)];
    var more, owners := paths + [p], OwnerIds(owned, ids, paths);
    assert more[..|paths|] == paths;
    assert OwnerIds(owned, ids, more) == owners + [id];
    assert (owners + [id])[..|owners|] == owners;
  }

  lemma NextList(mine: seq<string>, owned: seq<seq<string>>, i: nat, paths: seq<string>)
    requires i < |owned| && PathsSeen(mine, owned, i, if owned[i] == [] then 0 else |mine|, paths)
    ensures PathsSeen(mine, owned, i + 1, 0, paths)
  {
    assert mine[..|mine|] == mine;
  }

  /** What a scan finds: the paths of `mine` that another spec owns, each once, and the ids of the
      specs that own some of them first, each once. */
  ghost predicate IsConflict(mine: seq<string>, owned: seq<seq<string>>, ids: seq<string>, r: ConflictCheck)
    requires |ids| == |owned|
  {
    match r
    case Clear => forall p :: p in mine ==> FirstOwner(owned, p) == |owned|
    case Conflict(specs, paths) =>
      && paths != [] && NoDuplicates(paths) && NoDuplicates(specs)
      && (forall p :: p in paths <==> p in mine && FirstOwner(owned, p) < |owned|)
      && (forall s :: s in specs <==> exists p :: p in paths && ids[FirstOwner(owned, p)] == s)
  }

  lemma SpecsSeenMeaning(owned: seq<seq<string>>, ids: seq<string>, paths: seq<string>, specs: seq<string>)
    requires |ids| == |owned| && SpecsSeen(owned, ids, paths, specs)
    ensures NoDuplicates(specs)
    ensures forall s :: s in specs <==> exists p :: p in paths && ids[FirstOwner(owned, p)] == s
  {
    var owners := OwnerIds(owned, ids, paths);
    OwnerIdsMeaning(owned, ids, paths);
    AppendedIdsMeaning([], owners);
    AppendedIdsDistinct(owners);
  }

  lemma ScanDone(mine: seq<string>, owned: seq<seq<string>>, ids: seq<string>, paths: seq<string>, specs: seq<string>)
    requires |ids| == |owned| && PathsSeen(mine, owned, |owned|, 0, paths) && SpecsSeen(owned, ids, paths, specs)
    ensures IsConflict(mine, owned, ids, if specs == [] then Clear else Conflict(specs, paths))
  {
    SpecsSeenMeaning(owned, ids, paths, specs);
    assert forall p :: p in paths ==> ids[FirstOwner(owned, p)] in specs;
    if specs != [] {
      assert specs[0] in specs;
    }
  }

  /** Find the paths that `spec` shares with other specs, and the specs that own them first. */
  method CheckConflicts(spec: Spec, others: seq<Spec>) returns (r: ConflictCheck)
    ensures IsConflict(ParseEntryPoints(spec), OtherPaths(others, spec.id), Ids(others), r)
  {
    var mine := ParseEntryPoints(spec);
    if mine == [] {
      return Clear;
    }
    ghost var owned, ids := OtherPaths(others, spec.id), Ids(others);
    var specs: seq<string>, paths: seq<string> := [], [];
    for i := 0 to |others|
      invariant PathsSeen(mine, owned, i, 0, paths) && SpecsSeen(owned, ids, paths, specs)
    {
      var other := others[i];
      if other.id == spec.id {
        NextList(mine, owned, i, paths);
        continue;
      }
      var theirs := ParseEntryPoints(other);
      for k := 0 to |mine|
        invariant PathsSeen(mine, owned, i, k, paths) && SpecsSeen(owned, ids, paths, specs)
      {
        var path := mine[k];
        SeePath(mine, owned, i, k, paths);
        if path in theirs && path !in paths {
          SeeSpec(owned, ids, path, paths, specs);
          paths := paths + [path];
          if other.id !in specs {
            specs := specs + [other.id];
          }
        }
      }
      NextList(mine, owned, i, paths);
    }
    ScanDone(mine, owned, ids, paths, specs);
    r := if specs == [] then Clear else Conflict(specs, paths);
  }

  /** Another spec, and the first of them in order, that names the path. */
  ghost predicate IsFirstOwner(others: seq<Spec>, id: string, path: string, i: nat)
    requires i < |others|
  {
    && others[i].id != id && NamesPath(others[i], path)
    && forall j :: 0 <= j < i && others[j].id != id ==> !NamesPath(others[j], path)
  }

  lemma OwnerMeaning(others: seq<Spec>, id: string, path: string, i: nat)
    requires i < |others|
    ensures FirstOwner(OtherPaths(others, id), path) == i <==> IsFirstOwner(others, id, path, i)
  {
    var owned := OtherPaths(others, id);
    forall j | 0 <= j < |others| ensures path in owned[j] <==> others[j].id != id && NamesPath(others[j], path) {
      EntryPointMeaning(others[j], path);
    }
  }

  /** Does some spec with another id name the path? */
  ghost predicate IsShared(others: seq<Spec>, id: string, path: string) {
    exists i :: 0 <= i < |others| && others[i].id != id && NamesPath(others[i], path)
  }

  lemma SharedMeaning(others: seq<Spec>, id: string, path: string)
    ensures IsShared(others, id, path) <==> FirstOwner(OtherPaths(others, id), path) < |others|
    ensures IsShared(others, id, path) <==> exists i :: 0 <= i < |others| && IsFirstOwner(others, id, path, i)
  {
    var owned := OtherPaths(others, id);
    var n := FirstOwner(owned, path);
    forall j | 0 <= j < |others| ensures path in owned[j] <==> others[j].id != id && NamesPath(others[j], path) {
      EntryPointMeaning(others[j], path);
    }
    if n < |others| {
      OwnerMeaning(others, id, path, n);
    }
  }

  /** The id of a spec that is the first to name one of this spec's paths. */
  ghost predicate OwnsFirst(spec: Spec, others: seq<Spec>, s: string) {
    exists p, i :: 0 <= i < |others| && NamesPath(spec, p) && IsFirstOwner(others, spec.id, p, i) && others[i].id == s
  }

  /** What a scan's verdict says about the texts: clear exactly when no path named by this spec is
      named by a spec with another id; otherwise the shared paths, and the ids of the specs that are
      first to name one. */
  lemma ConflictAtText(spec: Spec, others: seq<Spec>, r: ConflictCheck)
    requires IsConflict(ParseEntryPoints(spec), OtherPaths(others, spec.id), Ids(others), r)
    ensures r.Clear? <==> forall p :: NamesPath(spec, p) ==> !IsShared(others, spec.id, p)
    ensures r.Conflict? ==> forall p :: p in r.paths <==> NamesPath(spec, p) && IsShared(others, spec.id, p)
    ensures r.Conflict? ==> forall s :: s in r.specs <==> OwnsFirst(spec, others, s)
  {
    var owned, ids := OtherPaths(others, spec.id), Ids(others);
    forall p ensures p in ParseEntryPoints(spec) <==> NamesPath(spec, p) {
      EntryPointMeaning(spec, p);
    }
    forall p ensures IsShared(others, spec.id, p) <==> FirstOwner(owned, p) < |others| {
      SharedMeaning(others, spec.id, p);
    }
    if r.Conflict? {
      assert r.paths[0] in r.paths;
      forall s ensures s in r.specs <==> OwnsFirst(spec, others, s) {
        OwnersAtText(spec, others, r.paths, s);
      }
    }
  }

  lemma OwnersAtText(spec: Spec, others: seq<Spec>, paths: seq<string>, s: string)
    requires forall p :: p in paths <==> NamesPath(spec, p) && FirstOwner(OtherPaths(others, spec.id), p) < |others|
    ensures (exists p :: p in paths && Ids(others)[FirstOwner(OtherPaths(others, spec.id), p)] == s)
            <==> OwnsFirst(spec, others, s)
  {
    var owned := OtherPaths(others, spec.id);
    if exists p :: p in paths && Ids(others)[FirstOwner(owned, p)] == s {
      var p :| p in paths && Ids(others)[FirstOwner(owned, p)] == s;
      OwnerMeaning(others, spec.id, p, FirstOwner(owned, p));
    }
    forall p, i | 0 <= i < |others| && NamesPath(spec, p) && IsFirstOwner(others, spec.id, p, i) && others[i].id == s
      ensures p in paths && Ids(others)[FirstOwner(owned, p)] == s
    {
      OwnerMeaning(others, spec.id, p, i);
    }
  }

  /** Between two specs with different ids neither the verdict nor the shared paths depend on which
      one is checked. */
  lemma VerdictIsSymmetric(a: Spec, b: Spec, ra: ConflictCheck, rb: ConflictCheck)
    requires a.id != b.id
    requires IsConflict(ParseEntryPoints(a), OtherPaths([b], a.id), Ids([b]), ra)
    requires IsConflict(ParseEntryPoints(b), OtherPaths([a], b.id), Ids([a]), rb)
    ensures ra.Clear? <==> rb.Clear?
    ensures ra.Conflict? ==> forall p :: p in ra.paths <==> p in rb.paths
  {
    var ofB, ofA := OtherPaths([b], a.id), OtherPaths([a], b.id);
    assert ofB == [ParseEntryPoints(b)] && ofA == [ParseEntryPoints(a)];
    if ra.Conflict? {
      assert ra.paths[0] in ra.paths;
    }
    if rb.Conflict? {
      assert rb.paths[0] in rb.paths;
    }
  }

  // ---- resolving conflicts ------------------------------------------------

  /** File overlaps go to a human; module overlaps become dependencies on the existing spec. */
  function Resolve(c: SpecConflict): ConflictAction {
    match c.overlap
    case FileOverlap =>
      Escalate("file-level overlap at '" + c.path + "' with spec '" + c.existingSpecName + "' ("
               + c.existingSpecId + "): requires human review")
    case ModuleOverlap => AutoDependency(c.existingSpecId)
  }

  function ResolveConflicts(conflicts: seq<SpecConflict>): (actions: seq<ConflictAction>)
    ensures |actions| == |conflicts| && forall i :: 0 <= i < |conflicts| ==> actions[i] == Resolve(conflicts[i])
  {
    seq(|conflicts|, i requires 0 <= i < |conflicts| => Resolve(conflicts[i]))
  }
}
