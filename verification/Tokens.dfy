/** Token usage: rows of runtime invocations summed up, in total and per model. */
module Tokens {
  import opened Decimal

  /** One runtime invocation of a workspace. */
  datatype Invocation = Invocation(model: string, input: nat, output: nat)

  /** One row of a period: what `runs` invocations of a model used. */
  datatype Row = Row(model: string, input: nat, output: nat, runs: nat)

  /** Every invocation as a row of one run. */
  function AsRows(invocations: seq<Invocation>): (rows: seq<Row>)
    ensures |rows| == |invocations|
    ensures forall i :: 0 <= i < |rows| ==>
              rows[i] == Row(invocations[i].model, invocations[i].input, invocations[i].output, 1)
  {
    seq(|invocations|, i requires 0 <= i < |invocations| =>
      Row(invocations[i].model, invocations[i].input, invocations[i].output, 1))
  }

  datatype ModelSummary = ModelSummary(model: string, input: nat, output: nat, total: nat, executions: nat)

  datatype Summary = Summary(totalInput: nat, totalOutput: nat, totalTokens: nat, executions: nat,
                             byModel: seq<ModelSummary>)

  /** The outcome of an aggregation; a 64-bit addition may leave its range. */
  datatype Outcome = Empty | Overflow | Usage(summary: Summary)

  /** The quantities that are summed. */
  datatype Field = Input | Output | Runs

  function Amount(row: Row, f: Field): nat {
    match f
    case Input => row.input
    case Output => row.output
    case Runs => row.runs
  }

  function Listed(m: ModelSummary, f: Field): nat {
    match f
    case Input => m.input
    case Output => m.output
    case Runs => m.executions
  }

  /** The sum over all rows. */
  function Sum(rows: seq<Row>, f: Field): nat {
    if rows == [] then 0 else Sum(rows[..|rows| - 1], f) + Amount(rows[|rows| - 1], f)
  }

  /** The sum over the rows of one model. */
  function ModelSum(rows: seq<Row>, model: string, f: Field): nat {
    if rows == [] then 0
    else
      var last := rows[|rows| - 1];
      ModelSum(rows[..|rows| - 1], model, f) + if last.model == model then Amount(last, f) else 0
  }

  function Models(rows: seq<Row>): set<string> {
    set i | 0 <= i < |rows| :: rows[i].model
  }

  function ListedSum(ms: seq<ModelSummary>, f: Field): nat {
    if ms == [] then 0 else Listed(ms[0], f) + ListedSum(ms[1..], f)
  }

  // ---- sorting ------------------------------------------------------------

  predicate Descending(ms: seq<ModelSummary>) {
    forall i, j :: 0 <= i < j < |ms| ==> ms[i].total >= ms[j].total
  }

  function InsertDesc(m: ModelSummary, ms: seq<ModelSummary>): seq<ModelSummary> {
    if ms == [] || m.total >= ms[0].total then [m] + ms else [ms[0]] + InsertDesc(m, ms[1..])
  }

  /** The stable sort by descending total. */
  function SortDesc(ms: seq<ModelSummary>): seq<ModelSummary> {
    if ms == [] then [] else InsertDesc(ms[0], SortDesc(ms[1..]))
  }

  /** The summaries with a given total, in order. */
  function WithTotal(ms: seq<ModelSummary>, total: nat): seq<ModelSummary> {
    if ms == [] then [] else (if ms[0].total == total then [ms[0]] else []) + WithTotal(ms[1..], total)
  }

  lemma {:induction false} InsertPermutes(m: ModelSummary, ms: seq<ModelSummary>)
    ensures multiset(InsertDesc(m, ms)) == multiset{m} + multiset(ms)
    decreases |ms|
  {
    if ms != [] && m.total < ms[0].total {
      InsertPermutes(m, ms[1..]);
      assert ms == [ms[0]] + ms[1..];
    }
  }

  lemma {:induction false} InsertOrders(m: ModelSummary, ms: seq<ModelSummary>)
    requires Descending(ms)
    ensures Descending(InsertDesc(m, ms))
    ensures forall i :: 0 <= i < |InsertDesc(m, ms)| ==> InsertDesc(m, ms)[i] == m || InsertDesc(m, ms)[i] in ms
    decreases |ms|
  {
    if ms != [] && m.total < ms[0].total {
      InsertOrders(m, ms[1..]);
    }
  }

  lemma {:induction false} InsertConserves(m: ModelSummary, ms: seq<ModelSummary>, f: Field)
    ensures ListedSum(InsertDesc(m, ms), f) == Listed(m, f) + ListedSum(ms, f)
    decreases |ms|
  {
    var r := InsertDesc(m, ms);
    if ms == [] || m.total >= ms[0].total {
      assert r[1..] == ms;
    } else {
      InsertConserves(m, ms[1..], f);
      assert r[1..] == InsertDesc(m, ms[1..]);
    }
  }

  lemma WithTotalHead(m: ModelSummary, ms: seq<ModelSummary>, total: nat)
    ensures WithTotal([m] + ms, total) == (if m.total == total then [m] else []) + WithTotal(ms, total)
  {
    assert ([m] + ms)[1..] == ms;
  }

  lemma {:induction false} InsertStable(m: ModelSummary, ms: seq<ModelSummary>, total: nat)
    ensures WithTotal(InsertDesc(m, ms), total) == (if m.total == total then [m] else []) + WithTotal(ms, total)
    decreases |ms|
  {
    if ms == [] || m.total >= ms[0].total {
      WithTotalHead(m, ms, total);
    } else {
      InsertStable(m, ms[1..], total);
      WithTotalHead(ms[0], InsertDesc(m, ms[1..]), total);
    }
  }

  /** Sorting permutes, orders by descending total, keeps equal totals in their order, and conserves sums. */
  lemma {:induction false} SortMeaning(ms: seq<ModelSummary>, f: Field, total: nat)
    ensures var r := SortDesc(ms);
            && Descending(r) && multiset(r) == multiset(ms) && |r| == |ms|
            && ListedSum(r, f) == ListedSum(ms, f) && WithTotal(r, total) == WithTotal(ms, total)
    decreases |ms|
  {
    if ms != [] {
      SortMeaning(ms[1..], f, total);
      InsertOrders(ms[0], SortDesc(ms[1..]));
      InsertPermutes(ms[0], SortDesc(ms[1..]));
      InsertConserves(ms[0], SortDesc(ms[1..]), f);
      InsertStable(ms[0], SortDesc(ms[1..]), total);
      assert ms == [ms[0]] + ms[1..];
      assert |multiset(SortDesc(ms))| == |multiset(ms)|;
    }
  }

  // ---- aggregation of a workspace -----------------------------------------

  lemma {:induction false} SumPrefix(rows: seq<Row>, i: nat, f: Field)
    requires i <= |rows|
    ensures Sum(rows[..i], f) <= Sum(rows, f)
    decreases |rows| - i
  {
    if i < |rows| {
      assert rows[..i + 1][..i] == rows[..i];
      SumPrefix(rows, i + 1, f);
    } else {
      assert rows[..i] == rows;
    }
  }

  lemma {:induction false} ModelSumAtMost(rows: seq<Row>, model: string, f: Field)
    ensures ModelSum(rows, model, f) <= Sum(rows, f)
    decreases |rows|
  {
    if rows != [] {
      ModelSumAtMost(rows[..|rows| - 1], model, f);
    }
  }

  /** The model map after the first `i` rows. */
  ghost predicate Tallied(rows: seq<Row>, tally: map<string, (nat, nat, nat)>) {
    && tally.Keys == Models(rows)
    && forall m :: m in tally ==>
         tally[m] == (ModelSum(rows, m, Input), ModelSum(rows, m, Output), ModelSum(rows, m, Runs))
  }

  lemma {:induction false} ModelSumAbsent(rows: seq<Row>, model: string, f: Field)
    requires model !in Models(rows)
    ensures ModelSum(rows, model, f) == 0
    decreases |rows|
  {
    if rows != [] {
      var n := |rows| - 1;
      assert rows[n].model in Models(rows);
      assert Models(rows[..n]) <= Models(rows) by {
        assert forall i :: 0 <= i < n ==> rows[..n][i] == rows[i];
      }
      ModelSumAbsent(rows[..n], model, f);
    }
  }

  /** A model map with one more row counted in. */
  function Counted(tally: map<string, (nat, nat, nat)>, row: Row): map<string, (nat, nat, nat)> {
    var e := if row.model in tally then tally[row.model] else (0, 0, 0);
    tally[row.model := (e.0 + row.input, e.1 + row.output, e.2 + row.runs)]
  }

  lemma TallyOneMore(rows: seq<Row>, row: Row, tally: map<string, (nat, nat, nat)>)
    requires Tallied(rows, tally)
    ensures Tallied(rows + [row], Counted(tally, row))
  {
    var more := rows + [row];
    assert more[..|rows|] == rows;
    assert Models(more) == Models(rows) + {row.model} by {
      assert forall i :: 0 <= i < |rows| ==> more[i] == rows[i];
      assert more[|rows|] == row;
    }
    if row.model !in tally {
      ModelSumAbsent(rows, row.model, Input);
      ModelSumAbsent(rows, row.model, Output);
      ModelSumAbsent(rows, row.model, Runs);
    }
  }

  function Summarized(rows: seq<Row>, model: string): ModelSummary {
    var input, output := ModelSum(rows, model, Input), ModelSum(rows, model, Output);
    ModelSummary(model, input, output, input + output, ModelSum(rows, model, Runs))
  }

  /** `ms` lists every model of `models` exactly once, with its own sums, and nothing else. */
  ghost predicate ListsModels(rows: seq<Row>, models: set<string>, ms: multiset<ModelSummary>) {
    && (forall x :: x in ms ==> x == Summarized(rows, x.model) && x.model in models)
    && (forall m :: m in models ==> ms[Summarized(rows, m)] == 1)
  }

  /** List the tallied models; the map gives them in no particular order. */
  method ListModels(ghost rows: seq<Row>, tally: map<string, (nat, nat, nat)>) returns (ms: seq<ModelSummary>)
    requires Tallied(rows, tally)
    ensures ListsModels(rows, Models(rows), multiset(ms))
  {
    ms := [];
    var left := tally.Keys;
    while left != {}
      invariant left <= tally.Keys && ListsModels(rows, tally.Keys - left, multiset(ms))
      decreases left
    {
      var model :| model in left;
      var e := tally[model];
      var summary := ModelSummary(model, e.0, e.1, e.0 + e.1, e.2);
      assert summary == Summarized(rows, model) && summary !in ms;
      ms := ms + [summary];
      assert tally.Keys - (left - {model}) == tally.Keys - left + {model};
      left := left - {model};
    }
    assert tally.Keys - {} == tally.Keys;
  }

  /** The model map of a list of rows, row by row. */
  function Tally(rows: seq<Row>): map<string, (nat, nat, nat)> {
    if rows == [] then map[] else Counted(Tally(rows[..|rows| - 1]), rows[|rows| - 1])
  }

  lemma {:induction false} TallyMeaning(rows: seq<Row>)
    ensures Tallied(rows, Tally(rows))
    decreases |rows|
  {
    if rows != [] {
      var n := |rows| - 1;
      TallyMeaning(rows[..n]);
      TallyOneMore(rows[..n], rows[n], Tally(rows[..n]));
      assert rows == rows[..n] + [rows[n]];
    }
  }

  /** One turn of the accumulation loop. */
  lemma RowStep(rows: seq<Row>, i: nat)
    requires i < |rows|
    ensures Sum(rows[..i + 1], Input) == Sum(rows[..i], Input) + rows[i].input <= Sum(rows, Input)
    ensures Sum(rows[..i + 1], Output) == Sum(rows[..i], Output) + rows[i].output <= Sum(rows, Output)
    ensures Tally(rows[..i + 1]) == Counted(Tally(rows[..i]), rows[i])
  {
    SumStep(rows, i, Input);
    SumStep(rows, i, Output);
    assert rows[..i + 1][..i] == rows[..i];
  }

  lemma SumStep(rows: seq<Row>, i: nat, f: Field)
    requires i < |rows|
    ensures Sum(rows[..i + 1], f) == Sum(rows[..i], f) + Amount(rows[i], f) <= Sum(rows, f)
  {
    assert rows[..i + 1][..i] == rows[..i];
    SumPrefix(rows, i + 1, f);
  }

  /** The accumulation loop: totals and the model map, unless a total leaves 64 bits. */
  method TallyInvocations(invocations: seq<Invocation>)
    returns (fits: bool, totalInput: nat, totalOutput: nat, tally: map<string, (nat, nat, nat)>)
    ensures !fits ==> Sum(AsRows(invocations), Input) > U64_MAX || Sum(AsRows(invocations), Output) > U64_MAX
    ensures fits ==>
              && totalInput == Sum(AsRows(invocations), Input) && totalOutput == Sum(AsRows(invocations), Output)
              && tally == Tally(AsRows(invocations))
  {
    ghost var rows := AsRows(invocations);
    fits, totalInput, totalOutput, tally := true, 0, 0, map[];
    for i := 0 to |invocations|
      invariant fits && totalInput == Sum(rows[..i], Input) && totalOutput == Sum(rows[..i], Output)
      invariant tally == Tally(rows[..i])
    {
      var row := invocations[i];
      RowStep(rows, i);
      if totalInput + row.input > U64_MAX {
        fits := false;
        return;
      }
      totalInput := totalInput + row.input;
      if totalOutput + row.output > U64_MAX {
        fits := false;
        return;
      }
      totalOutput := totalOutput + row.output;
      var entry := if row.model in tally then tally[row.model] else (0, 0, 0);
      tally := tally[row.model := (entry.0 + row.input, entry.1 + row.output, entry.2 + 1)];
    }
    assert rows[..|rows|] == rows;
  }

  /** Aggregate the invocations of a workspace. */
  method GatherWorkspaceTokenUsage(invocations: seq<Invocation>) returns (r: Outcome)
    ensures r.Empty? <==> invocations == []
    ensures r.Overflow? <==>
              Sum(AsRows(invocations), Input) + Sum(AsRows(invocations), Output) >= 0x1_0000_0000_0000_0000
    ensures r.Usage? ==>
              var rows, s := AsRows(invocations), r.summary;
              && s.totalInput == Sum(rows, Input) && s.totalOutput == Sum(rows, Output)
              && s.totalTokens == Sum(rows, Input) + Sum(rows, Output) && s.executions == |rows|
              && Descending(s.byModel) && ListsModels(rows, Models(rows), multiset(s.byModel))
  {
    if invocations == [] {
      return Empty;
    }
    var fits, totalInput, totalOutput, tally := TallyInvocations(invocations);
    if !fits {
      return Overflow;
    }
    TallyMeaning(AsRows(invocations));
    var listed := ListModels(AsRows(invocations), tally);
    var byModel := SortDesc(listed);
    SortMeaning(listed, Input, 0);
    if totalInput + totalOutput > U64_MAX {
      return Overflow;
    }
    r := Usage(Summary(totalInput, totalOutput, totalInput + totalOutput, |invocations|, byModel));
  }

  /** Every sum and partial sum the aggregation forms per model fits when the grand total does. */
  lemma ModelSumsFit(rows: seq<Row>, model: string)
    requires Sum(rows, Input) + Sum(rows, Output) <= U64_MAX
    ensures ModelSum(rows, model, Input) + ModelSum(rows, model, Output) <= U64_MAX
  {
    ModelSumAtMost(rows, model, Input);
    ModelSumAtMost(rows, model, Output);
  }

  // ---- conservation -------------------------------------------------------

  /** The models' sums, added up over a set of models. */
  ghost function SumOverModels(rows: seq<Row>, models: set<string>, f: Field): nat {
    if models == {} then 0
    else
      var m :| m in models;
      ModelSum(rows, m, f) + SumOverModels(rows, models - {m}, f)
  }

  lemma {:induction false} PickModel(rows: seq<Row>, models: set<string>, f: Field, m: string)
    requires m in models
    ensures SumOverModels(rows, models, f) == ModelSum(rows, m, f) + SumOverModels(rows, models - {m}, f)
    decreases |models|
  {
    var first :| first in models
                 && SumOverModels(rows, models, f)
                    == ModelSum(rows, first, f) + SumOverModels(rows, models - {first}, f);
    if first != m {
      PickModel(rows, models - {first}, f, m);
      PickModel(rows, models - {m}, f, first);
      assert models - {first} - {m} == models - {m} - {first};
    }
  }

  lemma {:induction false} SameModelSums(a: seq<Row>, b: seq<Row>, models: set<string>, f: Field)
    requires forall m :: m in models ==> ModelSum(a, m, f) == ModelSum(b, m, f)
    ensures SumOverModels(a, models, f) == SumOverModels(b, models, f)
    decreases |models|
  {
    if models != {} {
      var m :| m in models;
      PickModel(a, models, f, m);
      PickModel(b, models, f, m);
      SameModelSums(a, b, models - {m}, f);
    }
  }

  lemma {:induction false} NoRowsNoSum(models: set<string>, f: Field)
    ensures SumOverModels([], models, f) == 0
    decreases |models|
  {
    if models != {} {
      var m :| m in models;
      PickModel([], models, f, m);
      NoRowsNoSum(models - {m}, f);
    }
  }

  /** The models partition the rows: their sums add up to the grand total. */
  lemma {:induction false} ModelsPartitionRows(rows: seq<Row>, models: set<string>, f: Field)
    requires forall i :: 0 <= i < |rows| ==> rows[i].model in models
    ensures SumOverModels(rows, models, f) == Sum(rows, f)
    decreases |rows|
  {
    if rows == [] {
      NoRowsNoSum(models, f);
    } else {
      var front, last := rows[..|rows| - 1], rows[|rows| - 1];
      ModelsPartitionRows(front, models, f);
      PickModel(rows, models, f, last.model);
      PickModel(front, models, f, last.model);
      SameModelSums(rows, front, models - {last.model}, f);
    }
  }

  lemma {:induction false} ListedIsSumOverModels(rows: seq<Row>, models: set<string>, ms: seq<ModelSummary>, f: Field)
    requires ListsModels(rows, models, multiset(ms))
    ensures ListedSum(ms, f) == SumOverModels(rows, models, f)
    decreases |ms|
  {
    if ms == [] {
      assert forall m :: m in models ==> Summarized(rows, m) in multiset(ms);
      assert models == {};
    } else {
      var head, rest := ms[0], ms[1..];
      assert ms == [head] + rest;
      assert multiset(ms) == multiset{head} + multiset(rest);
      assert head in multiset(ms);
      assert multiset(ms)[Summarized(rows, head.model)] == 1;
      assert multiset(rest)[head] == 0;
      forall x: ModelSummary | x in multiset(rest) ensures x.model != head.model {
        assert x in multiset(ms);
        assert x == Summarized(rows, x.model);
      }
      PickModel(rows, models, f, head.model);
      ListedIsSumOverModels(rows, models - {head.model}, rest, f);
    }
  }

  /** Nothing is lost or counted twice: whatever the order of the models, their inputs, outputs, runs
      and totals add up to the sums over all rows. */
  lemma TokensConserved(rows: seq<Row>, ms: seq<ModelSummary>, f: Field)
    requires ListsModels(rows, Models(rows), multiset(ms))
    ensures ListedSum(ms, f) == Sum(rows, f)
    ensures TotalSum(ms) == Sum(rows, Input) + Sum(rows, Output)
  {
    ListedIsSumOverModels(rows, Models(rows), ms, f);
    ModelsPartitionRows(rows, Models(rows), f);
    ListedIsSumOverModels(rows, Models(rows), ms, Input);
    ModelsPartitionRows(rows, Models(rows), Input);
    ListedIsSumOverModels(rows, Models(rows), ms, Output);
    ModelsPartitionRows(rows, Models(rows), Output);
    forall x | x in ms ensures x.total == x.input + x.output {
      assert x in multiset(ms);
    }
    TotalIsInputPlusOutput(ms);
  }

  lemma {:induction false} RunsAreRows(invocations: seq<Invocation>)
    ensures Sum(AsRows(invocations), Runs) == |invocations|
    decreases |invocations|
  {
    if invocations != [] {
      var n := |invocations| - 1;
      assert AsRows(invocations)[..n] == AsRows(invocations[..n]);
      RunsAreRows(invocations[..n]);
    }
  }

  function TotalSum(ms: seq<ModelSummary>): nat {
    if ms == [] then 0 else ms[0].total + TotalSum(ms[1..])
  }

  lemma {:induction false} TotalIsInputPlusOutput(ms: seq<ModelSummary>)
    requires forall x :: x in ms ==> x.total == x.input + x.output
    ensures TotalSum(ms) == ListedSum(ms, Input) + ListedSum(ms, Output)
    decreases |ms|
  {
    if ms != [] {
      TotalIsInputPlusOutput(ms[1..]);
    }
  }

  // ---- a period -----------------------------------------------------------

  /** The summary of every row, in order. */
  function RowSummaries(rows: seq<Row>): seq<ModelSummary> {
    if rows == [] then []
    else
      var last := rows[|rows| - 1];
      RowSummaries(rows[..|rows| - 1])
      + [ModelSummary(last.model, last.input, last.output, last.input + last.output, last.runs)]
  }

  lemma {:induction false} ListedSumAppend(ms: seq<ModelSummary>, m: ModelSummary, f: Field)
    ensures ListedSum(ms + [m], f) == ListedSum(ms, f) + Listed(m, f)
    decreases |ms|
  {
    if ms == [] {
      assert ([] + [m])[1..] == [];
    } else {
      assert (ms + [m])[1..] == ms[1..] + [m];
      ListedSumAppend(ms[1..], m, f);
    }
  }

  lemma {:induction false} RowSummariesSum(rows: seq<Row>, f: Field)
    ensures ListedSum(RowSummaries(rows), f) == Sum(rows, f)
    decreases |rows|
  {
    if rows != [] {
      var last := rows[|rows| - 1];
      RowSummariesSum(rows[..|rows| - 1], f);
      ListedSumAppend(RowSummaries(rows[..|rows| - 1]),
                      ModelSummary(last.model, last.input, last.output, last.input + last.output, last.runs), f);
    }
  }

  /** One summary per row, in order, with the row's own model and its own total. */
  lemma {:induction false} RowSummariesMeaning(rows: seq<Row>)
    ensures |RowSummaries(rows)| == |rows|
    ensures forall i :: 0 <= i < |rows| ==>
              && RowSummaries(rows)[i].model == rows[i].model
              && RowSummaries(rows)[i].input == rows[i].input && RowSummaries(rows)[i].output == rows[i].output
              && RowSummaries(rows)[i].total == rows[i].input + rows[i].output
              && RowSummaries(rows)[i].executions == rows[i].runs
    decreases |rows|
  {
    if rows != [] {
      RowSummariesMeaning(rows[..|rows| - 1]);
    }
  }

  /** Aggregate the rows of a period, already grouped by model. */
  method BuildPeriodUsage(rows: seq<Row>) returns (r: Outcome)
    ensures !r.Empty?
    ensures r.Overflow? <==>
              || Sum(rows, Input) + Sum(rows, Output) >= 0x1_0000_0000_0000_0000
              || Sum(rows, Runs) >= 0x1_0000_0000_0000_0000
    ensures r.Usage? ==>
              && r.summary.totalInput == Sum(rows, Input) && r.summary.totalOutput == Sum(rows, Output)
              && r.summary.totalTokens == Sum(rows, Input) + Sum(rows, Output)
              && r.summary.executions == Sum(rows, Runs)
              && r.summary.byModel == SortDesc(RowSummaries(rows))
  {
    var totalInput, totalOutput, totalExecutions := 0, 0, 0;
    var byModel: seq<ModelSummary> := [];
    for i := 0 to |rows|
      invariant totalInput == Sum(rows[..i], Input) <= U64_MAX
      invariant totalOutput == Sum(rows[..i], Output) <= U64_MAX
      invariant totalExecutions == Sum(rows[..i], Runs) <= U64_MAX
      invariant byModel == RowSummaries(rows[..i])
    {
      var row := rows[i];
      assert rows[..i + 1][..i] == rows[..i];
      SumPrefix(rows, i + 1, Input);
      SumPrefix(rows, i + 1, Output);
      SumPrefix(rows, i + 1, Runs);
      if totalInput + row.input > U64_MAX || totalOutput + row.output > U64_MAX
         || totalExecutions + row.runs > U64_MAX || row.input + row.output > U64_MAX {
        return Overflow;
      }
      totalInput := totalInput + row.input;
      totalOutput := totalOutput + row.output;
      totalExecutions := totalExecutions + row.runs;
      byModel := byModel + [ModelSummary(row.model, row.input, row.output, row.input + row.output, row.runs)];
    }
    assert rows[..|rows|] == rows;
    byModel := SortDesc(byModel);
    if totalInput + totalOutput > U64_MAX {
      return Overflow;
    }
    r := Usage(Summary(totalInput, totalOutput, totalInput + totalOutput, totalExecutions, byModel));
  }

  /** A period's listing is a stable descending permutation of its rows that conserves every sum. */
  lemma PeriodConserved(rows: seq<Row>, f: Field, total: nat)
    ensures var ms := SortDesc(RowSummaries(rows));
            && ListedSum(ms, f) == Sum(rows, f)
            && Descending(ms) && multiset(ms) == multiset(RowSummaries(rows))
            && WithTotal(ms, total) == WithTotal(RowSummaries(rows), total)
            && TotalSum(ms) == Sum(rows, Input) + Sum(rows, Output)
  {
    var rs := RowSummaries(rows);
    SortMeaning(rs, f, total);
    RowSummariesSum(rows, f);
    SortMeaning(rs, Input, total);
    SortMeaning(rs, Output, total);
    RowSummariesSum(rows, Input);
    RowSummariesSum(rows, Output);
    SortedTotals(rows, SortDesc(rs));
  }

  lemma SortedTotals(rows: seq<Row>, ms: seq<ModelSummary>)
    requires multiset(ms) == multiset(RowSummaries(rows))
    ensures TotalSum(ms) == ListedSum(ms, Input) + ListedSum(ms, Output)
  {
    RowSummariesMeaning(rows);
    forall x | x in ms ensures x.total == x.input + x.output {
      assert x in multiset(ms) && x in multiset(RowSummaries(rows));
      var i :| 0 <= i < |rows| && RowSummaries(rows)[i] == x;
    }
    TotalIsInputPlusOutput(ms);
  }
}
