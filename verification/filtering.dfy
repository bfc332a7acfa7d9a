/** Threshold filtering of trials against a patient's lab values
    (`filter_trials_from_description` and `filter_by_inclusion_criteria`,
    patient.py).

    The gevent fan-out is a sequential map: every chunk task is evaluated,
    and the order in which `iwait` hands the finished tasks to the merge is an
    input (`completion`), any permutation of the spawned tasks. */
module Filtering {
  import opened Wrappers
  import opened Chunking
  import opened PyDict
  import opened Expressions
  import opened Extraction
  import opened Bags

  /** `lab_results`: cell type to `(str(value), unit)`. */
  type LabResults = map<string, LabValue>

  /** What a filtering task reads besides its trials: the lab values and the
      condition extraction. The source's extraction is `find_conditions`
      (see `SourceContext`); the filtering properties hold for any. */
  datatype Context = Context(labs: LabResults, conditionsOf: Trial -> Dict<string>)

  /** The context `filter_trials_from_description` runs in: `find_conditions`
      with the given pattern and detection service. */
  function SourceContext(labs: LabResults, findall: string -> seq<RegexMatch>, detect: Detector): Context {
    Context(labs, t => FindConditions(t, findall, detect))
  }

  /** One `(condition, passed)` pair of `trial.filter_condition`. */
  datatype Record = Record(condition: string, passed: bool)

  const NoCriteriaFound: string := "No Inclusion Criteria Found"

  /** A trial with the records the filter attached to it. */
  datatype Evaluated = Evaluated(trial: Trial, records: seq<Record>) {
    /** The trial is kept exactly when every record passed. */
    predicate Included() {
      forall i :: 0 <= i < |records| ==> records[i].passed
    }
  }

  function TrialsOf(evs: seq<Evaluated>): (r: seq<Trial>)
    ensures |r| == |evs|
    ensures forall i :: 0 <= i < |evs| ==> r[i] == evs[i].trial
  {
    if |evs| == 0 then [] else [evs[0].trial] + TrialsOf(evs[1..])
  }

  lemma {:induction false} TrialsOfAppend(a: seq<Evaluated>, b: seq<Evaluated>)
    ensures TrialsOf(a + b) == TrialsOf(a) + TrialsOf(b)
  {
  }

  /** The outcome recorded for one `(cell_type, condition)` item. */
  function ConditionOutcome(labs: LabResults, cellType: string, condition: string): (r: Result<bool>)
    ensures cellType !in labs ==> r == Ok(true)
    ensures cellType in labs && (forall t :: 0 <= t < |condition| ==> !OperatorBeforeNumber(condition, t))
            ==> r == Ok(false)
    ensures cellType in labs && labs[cellType].quantity.ShowsZero() ==> r == Ok(false)
    ensures cellType in labs ==>
              var lab := labs[cellType].quantity;
              var conv := ConvertExpressions(labs[cellType], condition);
              conv.Converted? && !lab.ShowsZero() && ParseOperator(conv.fragment.op).Compare? ==>
                && (r.Ok? <==> EvalAccepts(conv.fragment))
                && (r.Ok? ==> r.value == ParseOperator(conv.fragment.op).c.Holds(lab.Real(), Threshold(conv.fragment)))
    ensures r.Err? ==> cellType in labs && !labs[cellType].quantity.ShowsZero()
                       && ConvertExpressions(labs[cellType], condition).Converted?
  {
    if cellType !in labs then Ok(true)
    else
      match ConvertExpressions(labs[cellType], condition)
      case NoFragment => Ok(false)
      case Converted(q, f) => if q.ShowsZero() then Ok(false) else Evaluate(q, f)
  }

  /** `records` are the records of `conditions`, position by position: the
      condition text beside its outcome. */
  predicate RecordsOf(conditions: Dict<string>, labs: LabResults, records: seq<Record>) {
    |records| == |conditions| &&
    forall i :: 0 <= i < |conditions| ==>
      records[i].condition == conditions[i].1 &&
      ConditionOutcome(labs, conditions[i].0, conditions[i].1) == Ok(records[i].passed)
  }

  /** Some condition's evaluation raises. */
  predicate SomeOutcomeRaises(conditions: Dict<string>, labs: LabResults) {
    exists i :: 0 <= i < |conditions| && ConditionOutcome(labs, conditions[i].0, conditions[i].1).Err?
  }

  /** The loop over `conditions.items()`: one record per condition, in the
      dict's order; an `eval` that raises ends the whole call. */
  function RecordConditions(conditions: Dict<string>, labs: LabResults): (r: Result<seq<Record>>)
    ensures r.Ok? ==> RecordsOf(conditions, labs, r.value)
    ensures r.Err? <==> SomeOutcomeRaises(conditions, labs)
  {
    if |conditions| == 0 then Ok([])
    else
      var outcome := ConditionOutcome(labs, conditions[0].0, conditions[0].1);
      RaisesCons(conditions, labs);
      match outcome
      case Err(f) => Err(f)
      case Ok(passed) =>
        match RecordConditions(conditions[1..], labs)
        case Err(f) => Err(f)
        case Ok(rest) =>
          RecordsOfCons(conditions, labs, passed, rest);
          Ok([Record(conditions[0].1, passed)] + rest)
  }

  lemma RaisesCons(conditions: Dict<string>, labs: LabResults)
    requires |conditions| > 0
    ensures SomeOutcomeRaises(conditions, labs) <==>
              ConditionOutcome(labs, conditions[0].0, conditions[0].1).Err? || SomeOutcomeRaises(conditions[1..], labs)
  {
    ExistsCons(conditions, (c: (string, string)) => ConditionOutcome(labs, c.0, c.1).Err?);
  }

  /** Some element satisfies `p` exactly when the first does or some later one does. */
  lemma ExistsCons<T>(xs: seq<T>, p: T -> bool)
    requires |xs| > 0
    ensures (exists i :: 0 <= i < |xs| && p(xs[i])) <==> p(xs[0]) || exists i :: 0 <= i < |xs[1..]| && p(xs[1..][i])
  {
    if exists i :: 0 <= i < |xs| && p(xs[i]) {
      var i :| 0 <= i < |xs| && p(xs[i]);
      if i > 0 {
        assert xs[1..][i - 1] == xs[i];
      }
    }
    if exists i :: 0 <= i < |xs[1..]| && p(xs[1..][i]) {
      var i :| 0 <= i < |xs[1..]| && p(xs[1..][i]);
      assert xs[i + 1] == xs[1..][i];
    }
  }

  lemma RecordsOfCons(conditions: Dict<string>, labs: LabResults, passed: bool, rest: seq<Record>)
    requires |conditions| > 0 && ConditionOutcome(labs, conditions[0].0, conditions[0].1) == Ok(passed)
    requires RecordsOf(conditions[1..], labs, rest)
    ensures RecordsOf(conditions, labs, [Record(conditions[0].1, passed)] + rest)
  {
    var records := [Record(conditions[0].1, passed)] + rest;
    forall i | 1 <= i < |conditions|
      ensures records[i].condition == conditions[i].1 &&
              ConditionOutcome(labs, conditions[i].0, conditions[i].1) == Ok(records[i].passed)
    {
      assert records[i] == rest[i - 1] && conditions[i] == conditions[1..][i - 1];
    }
  }

  /** One iteration of `for trial in trials` in `filter_trials_from_description`. */
  function EvaluateTrial(t: Trial, ctx: Context): (r: Result<Evaluated>)
    ensures r.Ok? ==> r.value.trial == t
    ensures |ctx.conditionsOf(t)| == 0
            ==> r == Ok(Evaluated(t, [Record(NoCriteriaFound, true)]))
    ensures |ctx.conditionsOf(t)| > 0 && r.Ok?
            ==> |r.value.records| == |ctx.conditionsOf(t)|
  {
    var conditions := ctx.conditionsOf(t);
    if |conditions| > 0 then
      match RecordConditions(conditions, ctx.labs)
      case Err(f) => Err(f)
      case Ok(records) => Ok(Evaluated(t, records))
    else
      Ok(Evaluated(t, [Record(NoCriteriaFound, true)]))
  }

  /** In the source's context, a trial none of whose inclusion criteria
      mentions a cell type is kept with the "no criteria" record, whatever
      the lab values and the detection service. */
  lemma SourceContextNoMention(labs: LabResults, findall: string -> seq<RegexMatch>, detect: Detector, t: Trial)
    requires forall d :: d in InclusionDescriptions(t.unstructured) ==> !MentionsCellType(d)
    ensures EvaluateTrial(t, SourceContext(labs, findall, detect)) == Ok(Evaluated(t, [Record(NoCriteriaFound, true)]))
  {
    NoMentionNoConditions(t, findall, detect);
  }

  /** `filter_trials_from_description(trials, lab_results)`: the kept and the
      excluded trials, each list in input order. */
  function FilterTrials(trials: seq<Trial>, ctx: Context): (r: Result<(seq<Evaluated>, seq<Evaluated>)>)
    ensures r.Ok? ==> |r.value.0| + |r.value.1| == |trials|
    ensures r.Ok? ==> forall i :: 0 <= i < |r.value.0| ==> r.value.0[i].Included()
    ensures r.Ok? ==> forall i :: 0 <= i < |r.value.1| ==> !r.value.1[i].Included()
  {
    if |trials| == 0 then Ok(([], []))
    else
      match EvaluateTrial(trials[0], ctx)
      case Err(f) => Err(f)
      case Ok(ev) =>
        match FilterTrials(trials[1..], ctx)
        case Err(f) => Err(f)
        case Ok(rest) =>
          if ev.Included() then Ok(([ev] + rest.0, rest.1)) else Ok((rest.0, [ev] + rest.1))
  }

  /** The trials evaluated one by one, in order (a reference for `FilterTrials`). */
  function EvaluateAll(trials: seq<Trial>, ctx: Context): (r: Result<seq<Evaluated>>)
    ensures r.Ok? ==> TrialsOf(r.value) == trials
  {
    if |trials| == 0 then Ok([])
    else
      match EvaluateTrial(trials[0], ctx)
      case Err(f) => Err(f)
      case Ok(ev) =>
        match EvaluateAll(trials[1..], ctx)
        case Err(f) => Err(f)
        case Ok(rest) =>
          assert TrialsOf([ev] + rest) == [ev.trial] + TrialsOf(rest);
          Ok([ev] + rest)
  }

  function Passing(evs: seq<Evaluated>): seq<Evaluated> {
    if |evs| == 0 then [] else (if evs[0].Included() then [evs[0]] else []) + Passing(evs[1..])
  }

  function Failing(evs: seq<Evaluated>): seq<Evaluated> {
    if |evs| == 0 then [] else (if evs[0].Included() then [] else [evs[0]]) + Failing(evs[1..])
  }

  /** Filtering is evaluation followed by a stable partition: the kept list is
      the evaluated trials that passed, the excluded list the rest, both in
      input order. */
  lemma {:induction false} FilterTrialsIsStablePartition(trials: seq<Trial>, ctx: Context)
    ensures FilterTrials(trials, ctx).Ok? <==> EvaluateAll(trials, ctx).Ok?
    ensures FilterTrials(trials, ctx).Ok? ==>
              FilterTrials(trials, ctx).value == (Passing(EvaluateAll(trials, ctx).value), Failing(EvaluateAll(trials, ctx).value))
  {
    if |trials| > 0 {
      FilterTrialsIsStablePartition(trials[1..], ctx);
      match EvaluateTrial(trials[0], ctx)
      case Err(_) =>
      case Ok(ev) =>
        match EvaluateAll(trials[1..], ctx)
        case Err(_) =>
        case Ok(evs) =>
          assert ([ev] + evs)[1..] == evs;
          assert EvaluateAll(trials, ctx) == Ok([ev] + evs);
          assert FilterTrials(trials[1..], ctx) == Ok((Passing(evs), Failing(evs)));
          if ev.Included() {
            assert Passing([ev] + evs) == [ev] + Passing(evs);
            assert Failing([ev] + evs) == [] + Failing(evs) == Failing(evs);
          } else {
            assert Passing([ev] + evs) == [] + Passing(evs) == Passing(evs);
            assert Failing([ev] + evs) == [ev] + Failing(evs);
          }
    }
  }

  /** The two sides of a partition together hold exactly the partitioned trials. */
  lemma {:induction false} PartitionKeepsTrials(evs: seq<Evaluated>)
    ensures multiset(TrialsOf(Passing(evs))) + multiset(TrialsOf(Failing(evs))) == multiset(TrialsOf(evs))
  {
    if |evs| > 0 {
      var e := evs[0];
      var tail := evs[1..];
      PartitionKeepsTrials(tail);
      var p, f, c := TrialsOf(Passing(tail)), TrialsOf(Failing(tail)), TrialsOf(tail);
      PutInFront(e.trial, p, f, c);
      assert TrialsOf(evs) == [e.trial] + c;
      if e.Included() {
        assert TrialsOf(Passing(evs)) == [e.trial] + p by {
          assert Passing(evs) == [e] + Passing(tail);
        }
        assert TrialsOf(Failing(evs)) == f by {
          assert Failing(evs) == [] + Failing(tail);
        }
      } else {
        assert TrialsOf(Passing(evs)) == p by {
          assert Passing(evs) == [] + Passing(tail);
        }
        assert TrialsOf(Failing(evs)) == [e.trial] + f by {
          assert Failing(evs) == [e] + Failing(tail);
        }
      }
    }
  }

  /** Every input trial lands in exactly one of the two lists: together they
      hold the input trials, each as often as it was given. */
  lemma FilterTrialsKeepsTrials(trials: seq<Trial>, ctx: Context)
    requires FilterTrials(trials, ctx).Ok?
    ensures multiset(TrialsOf(FilterTrials(trials, ctx).value.0)) + multiset(TrialsOf(FilterTrials(trials, ctx).value.1))
            == multiset(trials)
  {
    FilterTrialsIsStablePartition(trials, ctx);
    PartitionKeepsTrials(EvaluateAll(trials, ctx).value);
  }

  /** A trial without extracted conditions carries the single default record
      and is kept. */
  lemma NoConditionsKept(t: Trial, ctx: Context)
    requires |ctx.conditionsOf(t)| == 0
    ensures FilterTrials([t], ctx) == Ok(([Evaluated(t, [Record(NoCriteriaFound, true)])], []))
  {
    var ev := Evaluated(t, [Record(NoCriteriaFound, true)]);
    assert [t][1..] == [];
    assert FilterTrials([], ctx) == Ok(([], []));
    assert EvaluateTrial(t, ctx) == Ok(ev);
    assert ev.Included();
    assert FilterTrials([t], ctx) == Ok(([ev] + [], []));
    assert [ev] + [] == [ev];
    assert FilterTrials([t], ctx) == Ok(([Evaluated(t, [Record(NoCriteriaFound, true)])], []));
  }

  /** A trial with conditions gets one record per condition and is excluded
      exactly when one of them failed. */
  lemma ExcludedIffSomeConditionFails(t: Trial, ctx: Context)
    requires |ctx.conditionsOf(t)| > 0
    requires EvaluateTrial(t, ctx).Ok?
    ensures var conditions := ctx.conditionsOf(t);
      var ev := EvaluateTrial(t, ctx).value;
      && |ev.records| == |conditions|
      && (!ev.Included() <==> exists i :: 0 <= i < |conditions| &&
                                ConditionOutcome(ctx.labs, conditions[i].0, conditions[i].1) == Ok(false))
  {
  }

  // ------------------------------------------------------------------
  // filter_by_inclusion_criteria

  /** `trialset['ncit']`: a record whose `'ncit'` field is the disease code;
      its other fields travel with it unchanged. */
  datatype NcitRef = NcitRef(ncit: string, rest: map<string, string>)

  datatype TrialSet = TrialSet(ncit: NcitRef, trials: seq<Trial>)

  /** One spawned `filter_trials_from_description` call and the code it is filed under. */
  datatype Task = Task(ncit: NcitRef, trials: seq<Trial>)

  /** `{"ncit": ..., "trials": [...]}` in either output list. */
  datatype CodeTrials = CodeTrials(ncit: NcitRef, trials: seq<Evaluated>)

  const MaxTrialsInFuture: nat := 10

  /** The inner spawning loop (patient.py, lines 209-213): copy trials from
      `start` on while fewer than ten have been taken. */
  method TakeRun(trials: seq<Trial>, start: nat) returns (chunk: seq<Trial>, next: nat)
    requires start < |trials|
    ensures next == if |trials| - start <= MaxTrialsInFuture then |trials| else start + MaxTrialsInFuture
    ensures chunk == trials[start..next]
  {
    var total := |trials|;
    next := start;
    chunk := [];
    var cnt := 1;
    while next < total && cnt <= MaxTrialsInFuture
      invariant start <= next <= total
      invariant cnt == next - start + 1 && cnt <= MaxTrialsInFuture + 1
      invariant chunk == trials[start..next]
      decreases total - next
    {
      chunk := chunk + [trials[next]];
      next := next + 1;
      cnt := cnt + 1;
    }
  }

  /** The spawning loop for one trial set (patient.py, lines 202-216): a set
      of at most ten trials, even an empty one, is one task; a larger set is
      cut into consecutive runs of ten, the last run holding the rest. */
  method ChunkTrials(trials: seq<Trial>) returns (chunks: seq<seq<Trial>>)
    ensures chunks == Split(trials, MaxTrialsInFuture)
    ensures |trials| <= MaxTrialsInFuture ==> chunks == [trials]
    ensures |trials| > MaxTrialsInFuture ==> |chunks| == CeilDiv(|trials|, MaxTrialsInFuture)
    ensures Concat(chunks) == trials
    ensures forall i :: 0 <= i < |chunks| ==> |chunks[i]| <= MaxTrialsInFuture
  {
    if |trials| <= MaxTrialsInFuture {
      chunks := [trials];
    } else {
      chunks := ChunkRuns(trials);
    }
  }

  /** The `while next_future < total` loop: runs of ten taken one after the
      other until the trials run out. */
  method ChunkRuns(trials: seq<Trial>) returns (chunks: seq<seq<Trial>>)
    requires |trials| > 0
    ensures chunks == Split(trials, MaxTrialsInFuture)
  {
    var total := |trials|;
    chunks := [];
    var next := 0;
    while next < total
      invariant 0 <= next <= total
      invariant next < total ==> chunks + Split(trials[next..], MaxTrialsInFuture) == Split(trials, MaxTrialsInFuture)
      invariant next == total ==> chunks == Split(trials, MaxTrialsInFuture)
      decreases total - next
    {
      var start := next;
      var chunk;
      chunk, next := TakeRun(trials, start);
      if next < total {
        SplitStep(trials, start, chunks, MaxTrialsInFuture);
      } else {
        assert chunk == trials[start..];
        SplitLast(trials, start, chunks, MaxTrialsInFuture);
      }
      chunks := chunks + [chunk];
    }
  }

  /** The tasks spawned for one trial set. */
  function SetTasks(ts: TrialSet): (r: seq<Task>)
    ensures |r| == |Split(ts.trials, MaxTrialsInFuture)|
  {
    ChunkTasks(ts.ncit, Split(ts.trials, MaxTrialsInFuture))
  }

  function ChunkTasks(ncit: NcitRef, chunks: seq<seq<Trial>>): (r: seq<Task>)
    ensures |r| == |chunks|
    ensures forall i :: 0 <= i < |r| ==> r[i] == Task(ncit, chunks[i])
  {
    if |chunks| == 0 then [] else [Task(ncit, chunks[0])] + ChunkTasks(ncit, chunks[1..])
  }

  /** Every task spawned, trial set by trial set. */
  function Tasks(trialsets: seq<TrialSet>): seq<Task> {
    if |trialsets| == 0 then [] else SetTasks(trialsets[0]) + Tasks(trialsets[1..])
  }

  /** A trial set of N trials spawns one task when N <= 10 and ceil(N / 10)
      tasks otherwise. */
  lemma TaskCount(ts: TrialSet)
    ensures |ts.trials| <= MaxTrialsInFuture ==> |SetTasks(ts)| == 1
    ensures |ts.trials| > MaxTrialsInFuture ==> |SetTasks(ts)| == CeilDiv(|ts.trials|, MaxTrialsInFuture)
  {
  }

  /** The merge state: `filtered`, `excluded` and `ncit_codes`, three dicts
      with the same keys in the same order, kept as one. */
  datatype Group = Group(ncit: NcitRef, filtered: seq<Evaluated>, excluded: seq<Evaluated>)

  /** The body of `for future in iwait(tasks)`: file one task's result under
      its code; the first record seen for a code is the one reported. */
  function AddResult(groups: Dict<Group>, ncit: NcitRef, f: seq<Evaluated>, e: seq<Evaluated>): Dict<Group> {
    match Get(groups, ncit.ncit)
    case None => Put(groups, ncit.ncit, Group(ncit, f, e))
    case Some(g) => Put(groups, ncit.ncit, Group(g.ncit, g.filtered + f, g.excluded + e))
  }

  /** The tasks' results merged in completion order; a task that raised
      leaves `None` behind, and unpacking it raises in the merge. */
  function MergeTasks(groups: Dict<Group>, done: seq<Task>, ctx: Context): Result<Dict<Group>>
    decreases |done|
  {
    if |done| == 0 then Ok(groups)
    else
      match FilterTrials(done[0].trials, ctx)
      case Err(_) => Err(TypeErrorNone)
      case Ok(res) => MergeTasks(AddResult(groups, done[0].ncit, res.0, res.1), done[1..], ctx)
  }

  function FilteredList(groups: Dict<Group>): (r: seq<CodeTrials>)
    ensures |r| == |groups|
    ensures forall i :: 0 <= i < |r| ==> r[i] == CodeTrials(groups[i].1.ncit, groups[i].1.filtered)
  {
    if |groups| == 0 then [] else [CodeTrials(groups[0].1.ncit, groups[0].1.filtered)] + FilteredList(groups[1..])
  }

  function ExcludedList(groups: Dict<Group>): (r: seq<CodeTrials>)
    ensures |r| == |groups|
    ensures forall i :: 0 <= i < |r| ==> r[i] == CodeTrials(groups[i].1.ncit, groups[i].1.excluded)
  {
    if |groups| == 0 then [] else [CodeTrials(groups[0].1.ncit, groups[0].1.excluded)] + ExcludedList(groups[1..])
  }

  function SetCode(ts: TrialSet): string { ts.ncit.ncit }
  function SetItems(ts: TrialSet): seq<Trial> { ts.trials }
  function TaskCode(t: Task): string { t.ncit.ncit }
  function TaskItems(t: Task): seq<Trial> { t.trials }

  /** The trials of every trial set with code `c`. */
  ghost function SetTrials(trialsets: seq<TrialSet>, c: string): multiset<Trial> {
    Filed(trialsets, SetCode, SetItems, c)
  }

  /** The trials of every task with code `c`. */
  ghost function TaskTrials(tasks: seq<Task>, c: string): multiset<Trial> {
    Filed(tasks, TaskCode, TaskItems, c)
  }

  ghost function TaskCodes(tasks: seq<Task>): set<string> {
    set i | 0 <= i < |tasks| :: tasks[i].ncit.ncit
  }

  ghost function SetCodes(trialsets: seq<TrialSet>): set<string> {
    set i | 0 <= i < |trialsets| :: trialsets[i].ncit.ncit
  }

  /** Chunking a trial set into tasks loses and duplicates no trial. */
  lemma {:induction false} ChunkTasksKeepTrials(ncit: NcitRef, chunks: seq<seq<Trial>>, c: string)
    ensures TaskTrials(ChunkTasks(ncit, chunks), c) == if ncit.ncit == c then multiset(Concat(chunks)) else multiset{}
  {
    if |chunks| > 0 {
      ChunkTasksKeepTrials(ncit, chunks[1..], c);
      var tasks := ChunkTasks(ncit, chunks);
      assert tasks[1..] == ChunkTasks(ncit, chunks[1..]);
      assert multiset(Concat(chunks)) == multiset(chunks[0]) + multiset(Concat(chunks[1..]));
    }
  }

  /** The tasks spawned for the trial sets carry, code by code, exactly the
      trials of the trial sets. */
  lemma {:induction false} TasksKeepTrials(trialsets: seq<TrialSet>, c: string)
    ensures TaskTrials(Tasks(trialsets), c) == SetTrials(trialsets, c)
  {
    if |trialsets| > 0 {
      var ts := trialsets[0];
      TasksKeepTrials(trialsets[1..], c);
      FiledAppend(SetTasks(ts), Tasks(trialsets[1..]), TaskCode, TaskItems, c);
      ChunkTasksKeepTrials(ts.ncit, Split(ts.trials, MaxTrialsInFuture), c);
    }
  }

  lemma {:induction false} TasksCodes(trialsets: seq<TrialSet>)
    ensures TaskCodes(Tasks(trialsets)) == SetCodes(trialsets)
  {
    if |trialsets| > 0 {
      TasksCodes(trialsets[1..]);
      TaskCodesAppend(SetTasks(trialsets[0]), Tasks(trialsets[1..]));
      SetTasksCodes(trialsets[0]);
      SetCodesCons(trialsets);
    }
  }

  lemma TaskCodesAppend(a: seq<Task>, b: seq<Task>)
    ensures TaskCodes(a + b) == TaskCodes(a) + TaskCodes(b)
  {
    var all := a + b;
    forall x | x in TaskCodes(all) ensures x in TaskCodes(a) + TaskCodes(b) {
      var i :| 0 <= i < |all| && all[i].ncit.ncit == x;
      if i < |a| {
        assert a[i] == all[i];
      } else {
        assert b[i - |a|] == all[i];
      }
    }
    forall x | x in TaskCodes(a) + TaskCodes(b) ensures x in TaskCodes(all) {
      if x in TaskCodes(a) {
        var i :| 0 <= i < |a| && a[i].ncit.ncit == x;
        assert all[i] == a[i];
      } else {
        var i :| 0 <= i < |b| && b[i].ncit.ncit == x;
        assert all[|a| + i] == b[i];
      }
    }
  }

  /** Every task of a trial set is filed under the set's code, and there is at least one. */
  lemma SetTasksCodes(ts: TrialSet)
    ensures TaskCodes(SetTasks(ts)) == {ts.ncit.ncit}
  {
    var tasks := SetTasks(ts);
    assert |tasks| > 0 && tasks[0].ncit == ts.ncit;
    forall x | x in TaskCodes(tasks) ensures x == ts.ncit.ncit {
      var i :| 0 <= i < |tasks| && tasks[i].ncit.ncit == x;
    }
  }

  lemma SetCodesCons(trialsets: seq<TrialSet>)
    requires |trialsets| > 0
    ensures SetCodes(trialsets) == {trialsets[0].ncit.ncit} + SetCodes(trialsets[1..])
  {
    var tail := trialsets[1..];
    forall x | x in SetCodes(trialsets) ensures x in {trialsets[0].ncit.ncit} + SetCodes(tail) {
      var i :| 0 <= i < |trialsets| && trialsets[i].ncit.ncit == x;
      if i > 0 {
        assert tail[i - 1] == trialsets[i];
      }
    }
    forall x | x in SetCodes(tail) ensures x in SetCodes(trialsets) {
      var i :| 0 <= i < |tail| && tail[i].ncit.ncit == x;
      assert trialsets[i + 1] == tail[i];
    }
  }

  lemma {:induction false} TaskCodesPermutation(a: seq<Task>, b: seq<Task>)
    requires multiset(a) == multiset(b)
    ensures TaskCodes(a) == TaskCodes(b)
  {
    forall x | x in TaskCodes(a) ensures x in TaskCodes(b) {
      var i :| 0 <= i < |a| && a[i].ncit.ncit == x;
      assert a[i] in multiset(b);
    }
    forall x | x in TaskCodes(b) ensures x in TaskCodes(a) {
      var i :| 0 <= i < |b| && b[i].ncit.ncit == x;
      assert b[i] in multiset(a);
    }
  }

  predicate AllIncluded(evs: seq<Evaluated>) {
    forall j :: 0 <= j < |evs| ==> evs[j].Included()
  }

  predicate NoneIncluded(evs: seq<Evaluated>) {
    forall j :: 0 <= j < |evs| ==> !evs[j].Included()
  }

  /** What a well-formed merge entry looks like: filed under its own code,
      kept trials all passed and excluded trials all failed. */
  predicate GroupFiled(code: string, g: Group) {
    g.ncit.ncit == code && AllIncluded(g.filtered) && NoneIncluded(g.excluded)
  }

  /** Invariant of the merge state: one entry per code, each well-formed. */
  predicate WellFiled(groups: Dict<Group>) {
    DistinctKeys(groups) && forall i :: 0 <= i < |groups| ==> GroupFiled(groups[i].0, groups[i].1)
  }

  ghost function GroupTrials(g: Group): multiset<Trial> {
    multiset(TrialsOf(g.filtered)) + multiset(TrialsOf(g.excluded))
  }

  /** The trials filed under `c` in the merge state. */
  ghost function GroupedTrials(groups: Dict<Group>, c: string): multiset<Trial> {
    match Get(groups, c)
    case None => multiset{}
    case Some(g) => GroupTrials(g)
  }

  lemma GetFiled(groups: Dict<Group>, c: string)
    requires WellFiled(groups)
    ensures Get(groups, c).Some? ==> GroupFiled(c, Get(groups, c).value)
  {
  }

  /** Filing a result keeps the merge state well-formed and adds its code. */
  lemma AddResultFiles(groups: Dict<Group>, ncit: NcitRef, f: seq<Evaluated>, e: seq<Evaluated>)
    requires WellFiled(groups)
    requires AllIncluded(f) && NoneIncluded(e)
    ensures WellFiled(AddResult(groups, ncit, f, e))
    ensures KeySet(AddResult(groups, ncit, f, e)) == KeySet(groups) + {ncit.ncit}
  {
    var k := ncit.ncit;
    GetFiled(groups, k);
    var v := match Get(groups, k)
      case None => Group(ncit, f, e)
      case Some(g) => Group(g.ncit, g.filtered + f, g.excluded + e);
    assert GroupFiled(k, v);
    assert AddResult(groups, ncit, f, e) == Put(groups, k, v);
  }

  /** Filing a result adds its trials under its code and nowhere else. */
  lemma AddResultKeepsTrials(groups: Dict<Group>, ncit: NcitRef, f: seq<Evaluated>, e: seq<Evaluated>, c: string)
    ensures GroupedTrials(AddResult(groups, ncit, f, e), c)
            == GroupedTrials(groups, c) + (if c == ncit.ncit then multiset(TrialsOf(f)) + multiset(TrialsOf(e)) else multiset{})
  {
    match Get(groups, ncit.ncit)
    case None =>
    case Some(g) =>
      TrialsOfAppend(g.filtered, f);
      TrialsOfAppend(g.excluded, e);
      Regroup(TrialsOf(g.filtered), TrialsOf(f), TrialsOf(g.excluded), TrialsOf(e));
  }

  /** The merge fails exactly when one of the merged tasks raised. */
  lemma {:induction false} MergeTasksFails(groups: Dict<Group>, done: seq<Task>, ctx: Context)
    ensures MergeTasks(groups, done, ctx).Err? <==> exists i :: 0 <= i < |done| && FilterTrials(done[i].trials, ctx).Err?
    decreases |done|
  {
    if |done| > 0 {
      assert forall i :: 0 <= i < |done| - 1 ==> done[1..][i] == done[i + 1];
      match FilterTrials(done[0].trials, ctx)
      case Err(_) =>
      case Ok(res) =>
        MergeTasksFails(AddResult(groups, done[0].ncit, res.0, res.1), done[1..], ctx);
    }
  }

  /** Merging keeps the state well-formed and files every merged task's code. */
  lemma {:induction false} MergeTasksFiles(groups: Dict<Group>, done: seq<Task>, ctx: Context)
    requires WellFiled(groups)
    ensures MergeTasks(groups, done, ctx).Ok? ==>
              WellFiled(MergeTasks(groups, done, ctx).value) &&
              KeySet(MergeTasks(groups, done, ctx).value) == KeySet(groups) + TaskCodes(done)
    decreases |done|
  {
    if |done| > 0 {
      assert TaskCodes(done) == {done[0].ncit.ncit} + TaskCodes(done[1..]) by {
        assert done == [done[0]] + done[1..];
        TaskCodesAppend([done[0]], done[1..]);
        assert TaskCodes([done[0]]) == {done[0].ncit.ncit};
      }
      match FilterTrials(done[0].trials, ctx)
      case Err(_) =>
      case Ok(res) =>
        AddResultFiles(groups, done[0].ncit, res.0, res.1);
        MergeTasksFiles(AddResult(groups, done[0].ncit, res.0, res.1), done[1..], ctx);
    }
  }

  /** Merging adds, under each code, exactly the trials of the merged tasks
      with that code. */
  lemma {:induction false} MergeTasksKeepsTrials(groups: Dict<Group>, done: seq<Task>, ctx: Context, c: string)
    ensures MergeTasks(groups, done, ctx).Ok? ==>
              GroupedTrials(MergeTasks(groups, done, ctx).value, c) == GroupedTrials(groups, c) + TaskTrials(done, c)
    decreases |done|
  {
    if |done| > 0 {
      match FilterTrials(done[0].trials, ctx)
      case Err(_) =>
      case Ok(res) =>
        var next := AddResult(groups, done[0].ncit, res.0, res.1);
        FilterTrialsKeepsTrials(done[0].trials, ctx);
        MergeStep(groups, done[0], res.0, res.1, c);
        MergeTasksKeepsTrials(next, done[1..], ctx, c);
        MergeStepTotal(GroupedTrials(groups, c), GroupedTrials(next, c), done, c);
    }
  }

  /** Filing one task's result adds exactly that task's trials under its code. */
  lemma MergeStep(groups: Dict<Group>, t: Task, f: seq<Evaluated>, e: seq<Evaluated>, c: string)
    requires multiset(TrialsOf(f)) + multiset(TrialsOf(e)) == multiset(t.trials)
    ensures GroupedTrials(AddResult(groups, t.ncit, f, e), c)
            == GroupedTrials(groups, c) + (if c == t.ncit.ncit then multiset(t.trials) else multiset{})
  {
    AddResultKeepsTrials(groups, t.ncit, f, e, c);
  }

  lemma MergeStepTotal(before: multiset<Trial>, next: multiset<Trial>, done: seq<Task>, c: string)
    requires |done| > 0
    requires next == before + (if c == done[0].ncit.ncit then multiset(done[0].trials) else multiset{})
    ensures next + TaskTrials(done[1..], c) == before + TaskTrials(done, c)
  {
  }

  /** `filter_by_inclusion_criteria(trials_by_ncit, lab_results)`.

      The source runs its merge loop inside the loop over trial sets, so the
      merge is redone after every trial set over all tasks spawned so far;
      only the last pass, over every task, reaches the `return`. With no
      trial sets at all the initial `([], [])` is returned. */
  function FilterByInclusionCriteria(trialsets: seq<TrialSet>, ctx: Context, completion: seq<Task>)
    : (r: Result<(seq<CodeTrials>, seq<CodeTrials>)>)
    requires multiset(completion) == multiset(Tasks(trialsets))
    ensures |trialsets| == 0 ==> r == Ok(([], []))
    ensures r.Ok? ==> |r.value.0| == |r.value.1|
    ensures r.Ok? ==> forall i :: 0 <= i < |r.value.0| ==> r.value.0[i].ncit == r.value.1[i].ncit
  {
    if |trialsets| == 0 then Ok(([], []))
    else
      match MergeTasks([], completion, ctx)
      case Err(f) => Err(f)
      case Ok(groups) => Ok((FilteredList(groups), ExcludedList(groups)))
  }

  ghost function ListedCodes(list: seq<CodeTrials>): set<string> {
    set i | 0 <= i < |list| :: list[i].ncit.ncit
  }

  /** The two lists built from a well-formed merge state: one entry per key,
      no code twice, kept trials passed and excluded trials failed. */
  lemma ListsFromGroups(groups: Dict<Group>)
    requires WellFiled(groups)
    ensures ListedCodes(FilteredList(groups)) == KeySet(groups)
    ensures forall i, j :: 0 <= i < j < |groups| ==> FilteredList(groups)[i].ncit.ncit != FilteredList(groups)[j].ncit.ncit
    ensures forall i :: 0 <= i < |groups| ==> AllIncluded(FilteredList(groups)[i].trials) && NoneIncluded(ExcludedList(groups)[i].trials)
  {
    var kept := FilteredList(groups);
    assert forall i :: 0 <= i < |groups| ==> kept[i].ncit.ncit == groups[i].0 by {
      assert forall i :: 0 <= i < |groups| ==> GroupFiled(groups[i].0, groups[i].1);
    }
    SameCodes(kept, groups);
    assert forall i :: 0 <= i < |groups| ==> AllIncluded(kept[i].trials) && NoneIncluded(ExcludedList(groups)[i].trials) by {
      assert forall i :: 0 <= i < |groups| ==> GroupFiled(groups[i].0, groups[i].1);
    }
  }

  /** A list that carries the keys of a dict position by position lists the
      same codes, and lists each once when the keys are distinct. */
  lemma SameCodes(list: seq<CodeTrials>, groups: Dict<Group>)
    requires |list| == |groups| && forall i :: 0 <= i < |groups| ==> list[i].ncit.ncit == groups[i].0
    ensures ListedCodes(list) == KeySet(groups)
    ensures DistinctKeys(groups) ==> forall i, j :: 0 <= i < j < |list| ==> list[i].ncit.ncit != list[j].ncit.ncit
  {
    forall x | x in KeySet(groups) ensures x in ListedCodes(list) {
      var i :| 0 <= i < |groups| && groups[i].0 == x;
      assert list[i].ncit.ncit == x;
    }
  }

  /** Under the code at position `i` of the merged state lie exactly the
      trials of the trial sets with that code. */
  lemma GroupHoldsSetTrials(trialsets: seq<TrialSet>, ctx: Context, completion: seq<Task>, groups: Dict<Group>, i: nat)
    requires multiset(completion) == multiset(Tasks(trialsets))
    requires MergeTasks([], completion, ctx) == Ok(groups)
    requires i < |groups|
    ensures GroupTrials(groups[i].1) == SetTrials(trialsets, groups[i].0)
  {
    var c := groups[i].0;
    MergeTasksFiles([], completion, ctx);
    GetAt(groups, i);
    MergeTasksKeepsTrials([], completion, ctx, c);
    FiledPermutation(completion, Tasks(trialsets), TaskCode, TaskItems, c);
    TasksKeepTrials(trialsets, c);
  }

  lemma ListsHoldSetTrials(trialsets: seq<TrialSet>, ctx: Context, completion: seq<Task>, groups: Dict<Group>)
    requires multiset(completion) == multiset(Tasks(trialsets))
    requires MergeTasks([], completion, ctx) == Ok(groups)
    ensures forall i :: 0 <= i < |groups| ==>
              multiset(TrialsOf(FilteredList(groups)[i].trials)) + multiset(TrialsOf(ExcludedList(groups)[i].trials))
              == SetTrials(trialsets, FilteredList(groups)[i].ncit.ncit)
  {
    MergeTasksFiles([], completion, ctx);
    forall i | 0 <= i < |groups|
      ensures multiset(TrialsOf(FilteredList(groups)[i].trials)) + multiset(TrialsOf(ExcludedList(groups)[i].trials))
              == SetTrials(trialsets, FilteredList(groups)[i].ncit.ncit)
    {
      assert GroupFiled(groups[i].0, groups[i].1);
      GroupHoldsSetTrials(trialsets, ctx, completion, groups, i);
    }
  }

  /** The two returned lists: one entry per code of the input, no code twice,
      the same code at the same position in both; under each code the kept
      trials all passed, the excluded ones all failed, and together they are
      exactly the trials of the trial sets with that code. */
  lemma FilterByInclusionCriteriaFiles(trialsets: seq<TrialSet>, ctx: Context, completion: seq<Task>)
    requires multiset(completion) == multiset(Tasks(trialsets))
    ensures var r := FilterByInclusionCriteria(trialsets, ctx, completion);
      r.Ok? ==>
        && ListedCodes(r.value.0) == SetCodes(trialsets)
        && (forall i, j :: 0 <= i < j < |r.value.0| ==> r.value.0[i].ncit.ncit != r.value.0[j].ncit.ncit)
        && (forall i :: 0 <= i < |r.value.0| ==> AllIncluded(r.value.0[i].trials) && NoneIncluded(r.value.1[i].trials))
        && (forall i :: 0 <= i < |r.value.0| ==>
              multiset(TrialsOf(r.value.0[i].trials)) + multiset(TrialsOf(r.value.1[i].trials))
              == SetTrials(trialsets, r.value.0[i].ncit.ncit))
  {
    var r := FilterByInclusionCriteria(trialsets, ctx, completion);
    if |trialsets| > 0 && r.Ok? {
      var groups := MergeTasks([], completion, ctx).value;
      assert r.value == (FilteredList(groups), ExcludedList(groups));
      MergeTasksFiles([], completion, ctx);
      assert KeySet(groups) == SetCodes(trialsets) by {
        TaskCodesPermutation(completion, Tasks(trialsets));
        TasksCodes(trialsets);
      }
      ListsFromGroups(groups);
      ListsHoldSetTrials(trialsets, ctx, completion, groups);
    }
  }

  /** The call raises exactly when one of the spawned tasks raised. */
  lemma FilterByInclusionCriteriaFails(trialsets: seq<TrialSet>, ctx: Context, completion: seq<Task>)
    requires multiset(completion) == multiset(Tasks(trialsets))
    ensures FilterByInclusionCriteria(trialsets, ctx, completion).Err? <==>
              exists t :: t in Tasks(trialsets) && FilterTrials(t.trials, ctx).Err?
  {
    MergeTasksFails([], completion, ctx);
    if |trialsets| == 0 {
      assert Tasks(trialsets) == [];
    }
    forall t | t in Tasks(trialsets) && FilterTrials(t.trials, ctx).Err?
      ensures exists i :: 0 <= i < |completion| && FilterTrials(completion[i].trials, ctx).Err?
    {
      assert t in multiset(completion);
    }
    forall i | 0 <= i < |completion| && FilterTrials(completion[i].trials, ctx).Err?
      ensures completion[i] in Tasks(trialsets)
    {
      assert completion[i] in multiset(Tasks(trialsets));
    }
  }
}
