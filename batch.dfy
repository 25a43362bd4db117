/**
 * The batch run `update_all_metrics!`: reconcile the schema, sample the first
 * row, classify the metrics, evaluate the singular ones row by row, execute
 * the detected bulk statements (falling back to row-by-row evaluation for the
 * ones that fail), and finally execute every declared aggregate statement and
 * stamp its timestamp column on every row.
 *
 * The database is not modelled: a run is described by the effects it applies,
 * in order, and whether it ended in an error. Whether a statement executes and
 * whether a row pass commits are parameters.
 */
module Batch {
  import opened Values
  import opened Text
  import opened Registry
  import opened Detector
  import opened Schema

  /** An effect on the metrics table. */
  datatype Step =
    | EvaluateRows(metrics: seq<string>, args: seq<Value>)  // every row, in batches, calls these metrics with `args`
    | Execute(sql: string)                 // one statement executed successfully
    | StampAll(column: string, at: int)    // `update_all` of a timestamp column to `at`

  /** The effects applied, in order, and the error the run ended in, if any. */
  datatype Run = Run(steps: seq<Step>, failure: Option<Error>)

  const Done := Run([], None)

  /** `a`, then `b` unless `a` failed. */
  function Then(a: Run, b: Run): (c: Run)
    ensures a.failure.Some? ==> c == a
    ensures a.failure.None? ==> c.steps == a.steps + b.steps && c.failure == b.failure
  {
    if a.failure.Some? then a else Run(a.steps + b.steps, b.failure)
  }

  /** The per-row pass over `metrics`, when there is one, forwarding the run's own arguments. */
  function Pass(metrics: seq<string>, args: seq<Value>): seq<Step> {
    if metrics == [] then [] else [EvaluateRows(metrics, args)]
  }

  /** The detected metrics whose bulk statement fails, in order. */
  function BadGuesses(guesses: seq<Guess>, executes: string -> bool): (bad: seq<string>)
    ensures |bad| <= |guesses|
  {
    if guesses == [] then []
    else
      var init := BadGuesses(guesses[..|guesses| - 1], executes);
      var last := guesses[|guesses| - 1];
      if executes(last.sql) then init else init + [last.metric]
  }

  /** The bulk statements that execute, in order. */
  function GuessSteps(guesses: seq<Guess>, executes: string -> bool): (steps: seq<Step>)
    ensures |steps| + |BadGuesses(guesses, executes)| == |guesses|
  {
    if guesses == [] then []
    else
      var init := GuessSteps(guesses[..|guesses| - 1], executes);
      var last := guesses[|guesses| - 1];
      if executes(last.sql) then init + [Execute(last.sql)] else init
  }

  /**
   * Executing each declared aggregate of `names` in order, each followed by
   * the stamp of its timestamp column; a statement that is not SQL text or
   * that fails stops the run.
   */
  function DeclaredRun(names: seq<string>, defs: map<string, Options>, executes: string -> bool, now: int): (run: Run)
    requires forall n :: n in names ==> n in defs
    ensures run.failure.None? ==> |run.steps| == 2 * |names|
  {
    if names == [] then Done
    else
      var prior := DeclaredRun(names[..|names| - 1], defs, executes, now);
      Then(prior, Declared(names[|names| - 1], defs, executes, now))
  }

  /** One iteration of the last loop: execute the declared statement of `name`, then stamp it. */
  function Declared(name: string, defs: map<string, Options>, executes: string -> bool, now: int): (run: Run)
    requires name in defs
    ensures run.failure.None? <==> Get(defs[name], Aggregate).Str? && executes(Get(defs[name], Aggregate).s)
  {
    var statement := Get(defs[name], Aggregate);
    if !statement.Str? then Run([], Some(NotAStatement(name)))
    else if !executes(statement.s) then Run([], Some(StatementFailed(statement.s)))
    else Run([Execute(statement.s), StampAll(UpdatedAtColumn(name), now)], None)
  }

  /**
   * Everything after the collection: the singular pass, the bulk statements,
   * the bad-guess pass, the declared aggregates. A per-row pass that raises
   * (`rowsSucceed` false) ends the run.
   */
  function Materialized(c: Collected, args: seq<Value>, declared: seq<string>, defs: map<string, Options>,
                        executes: string -> bool, rowsSucceed: seq<string> -> bool, now: int): (run: Run)
    requires forall n :: n in declared ==> n in defs
  {
    var bad := BadGuesses(c.detected, executes);
    var before := Pass(c.singular, args) + GuessSteps(c.detected, executes);
    var tail := DeclaredRun(declared, defs, executes, now);
    if c.singular != [] && !rowsSucceed(c.singular) then Run([], Some(RowPassFailed(c.singular)))
    else if bad != [] && !rowsSucceed(bad) then Run(before, Some(RowPassFailed(bad)))
    else Run(before + Pass(bad, args) + tail.steps, tail.failure)
  }

  /** The declared aggregates of a registry are registered metrics. */
  lemma AggregatesDeclared(r: Registry)
    requires r.Valid()
    ensures forall n :: n in AggregateMetrics(r).names ==> n in r.defs
  {
    var agg := AggregateMetrics(r);
    assert forall n :: n in agg.names ==> n in agg.defs;
  }

  /** The run after a successful migration: nothing without a first row, else collect and materialize. */
  function Plan(r: Registry, args: seq<Value>, table: string, warmup: Option<nat>, probes: string -> Probe, nowDb: string,
                executes: string -> bool, rowsSucceed: seq<string> -> bool, now: int): Run
    requires r.Valid()
  {
    if warmup.None? then Done
    else
      var collected := Collect(r, table, warmup.value, probes, nowDb);
      if collected.Err? then Run([], Some(collected.error))
      else
        AggregatesDeclared(r);
        Materialized(collected.value, args, AggregateMetrics(r).names, r.defs, executes, rowsSucceed, now)
  }

  /** A metric is a bad guess exactly when one of its detected statements fails. */
  lemma {:induction false} BadGuessesMembers(guesses: seq<Guess>, executes: string -> bool)
    ensures forall m :: m in BadGuesses(guesses, executes) <==>
              exists g :: g in guesses && g.metric == m && !executes(g.sql)
  {
    if guesses != [] {
      var init := guesses[..|guesses| - 1];
      BadGuessesMembers(init, executes);
      assert guesses == init + [guesses[|guesses| - 1]];
    }
  }

  /** A statement is executed exactly when it is a detected statement that executes. */
  lemma {:induction false} GuessStepsMembers(guesses: seq<Guess>, executes: string -> bool)
    ensures forall s :: s in GuessSteps(guesses, executes) <==>
              exists g :: g in guesses && s == Execute(g.sql) && executes(g.sql)
  {
    if guesses != [] {
      var init := guesses[..|guesses| - 1];
      GuessStepsMembers(init, executes);
      assert guesses == init + [guesses[|guesses| - 1]];
    }
  }

  /** The declared aggregates run to completion exactly when each is SQL text that executes. */
  lemma {:induction false} DeclaredRunCompletes(names: seq<string>, defs: map<string, Options>, executes: string -> bool, now: int)
    requires forall n :: n in names ==> n in defs
    ensures DeclaredRun(names, defs, executes, now).failure.None? <==>
            forall n :: n in names ==> Get(defs[n], Aggregate).Str? && executes(Get(defs[n], Aggregate).s)
  {
    if names != [] {
      var init := names[..|names| - 1];
      assert forall n :: n in init ==> n in names;
      assert forall n :: n in names ==> n in init || n == names[|names| - 1];
      DeclaredRunCompletes(init, defs, executes, now);
    }
  }

  /**
   * A completed run of the declared aggregates executed each statement and
   * then stamped its timestamp column, in declaration order.
   */
  lemma {:induction false} DeclaredRunInOrder(names: seq<string>, defs: map<string, Options>, executes: string -> bool, now: int)
    requires forall n :: n in names ==> n in defs
    requires DeclaredRun(names, defs, executes, now).failure.None?
    ensures var steps := DeclaredRun(names, defs, executes, now).steps;
            forall i :: 0 <= i < |names| ==>
              Get(defs[names[i]], Aggregate).Str? &&
              steps[2 * i] == Execute(Get(defs[names[i]], Aggregate).s) &&
              steps[2 * i + 1] == StampAll(UpdatedAtColumn(names[i]), now)
  {
    if names != [] {
      var init := names[..|names| - 1];
      assert forall n :: n in init ==> n in names;
      var prior := DeclaredRun(init, defs, executes, now);
      var steps := DeclaredRun(names, defs, executes, now).steps;
      assert prior.failure.None?;
      DeclaredRunInOrder(init, defs, executes, now);
      assert steps == prior.steps + Declared(names[|names| - 1], defs, executes, now).steps;
      forall i | 0 <= i < |names|
        ensures Get(defs[names[i]], Aggregate).Str?
        ensures steps[2 * i] == Execute(Get(defs[names[i]], Aggregate).s)
        ensures steps[2 * i + 1] == StampAll(UpdatedAtColumn(names[i]), now)
      {
        if i < |init| {
          assert names[i] == init[i];
        }
      }
    }
  }

  /** The rest of the run completes exactly when both row passes commit and every declared aggregate executes. */
  lemma MaterializedCompletes(c: Collected, args: seq<Value>, declared: seq<string>, defs: map<string, Options>,
                              executes: string -> bool, rowsSucceed: seq<string> -> bool, now: int)
    requires forall n :: n in declared ==> n in defs
    ensures var bad := BadGuesses(c.detected, executes);
            Materialized(c, args, declared, defs, executes, rowsSucceed, now).failure.None? <==>
              (c.singular == [] || rowsSucceed(c.singular)) && (bad == [] || rowsSucceed(bad)) &&
              forall n :: n in declared ==> Get(defs[n], Aggregate).Str? && executes(Get(defs[n], Aggregate).s)
  {
    DeclaredRunCompletes(declared, defs, executes, now);
  }

  /**
   * Every detected metric is computed: its statement is executed, or it is
   * evaluated in the bad-guess pass.
   */
  lemma DetectedAreComputed(c: Collected, args: seq<Value>, declared: seq<string>, defs: map<string, Options>,
                            executes: string -> bool, rowsSucceed: seq<string> -> bool, now: int)
    requires forall n :: n in declared ==> n in defs
    requires Materialized(c, args, declared, defs, executes, rowsSucceed, now).failure.None?
    ensures var steps := Materialized(c, args, declared, defs, executes, rowsSucceed, now).steps;
            var bad := BadGuesses(c.detected, executes);
            forall g :: g in c.detected ==>
              Execute(g.sql) in steps || (EvaluateRows(bad, args) in steps && g.metric in bad)
  {
    var bad := BadGuesses(c.detected, executes);
    var steps := Materialized(c, args, declared, defs, executes, rowsSucceed, now).steps;
    var s1 := Pass(c.singular, args);
    var s2 := GuessSteps(c.detected, executes);
    var s3 := Pass(bad, args);
    assert steps == s1 + s2 + s3 + DeclaredRun(declared, defs, executes, now).steps;
    GuessStepsMembers(c.detected, executes);
    BadGuessesMembers(c.detected, executes);
    forall g | g in c.detected
      ensures Execute(g.sql) in steps || (EvaluateRows(bad, args) in steps && g.metric in bad)
    {
      if executes(g.sql) {
        assert Execute(g.sql) in s2;
      } else {
        assert g.metric in bad;
        assert EvaluateRows(bad, args) in s3;
      }
    }
  }

  /**
   * The only per-row passes are the singular pass and the bad-guess pass; a
   * completed run has both (when non-empty), the singular pass first of all.
   */
  lemma RowPasses(c: Collected, args: seq<Value>, declared: seq<string>, defs: map<string, Options>,
                  executes: string -> bool, rowsSucceed: seq<string> -> bool, now: int)
    requires forall n :: n in declared ==> n in defs
    ensures forall ms, a :: EvaluateRows(ms, a) in Materialized(c, args, declared, defs, executes, rowsSucceed, now).steps ==>
              (ms == c.singular || ms == BadGuesses(c.detected, executes)) && a == args
    ensures var run := Materialized(c, args, declared, defs, executes, rowsSucceed, now);
            run.failure.None? ==>
              (c.singular != [] ==> |run.steps| > 0 && run.steps[0] == EvaluateRows(c.singular, args)) &&
              (BadGuesses(c.detected, executes) != [] ==> EvaluateRows(BadGuesses(c.detected, executes), args) in run.steps)
  {
    var bad := BadGuesses(c.detected, executes);
    var steps := Materialized(c, args, declared, defs, executes, rowsSucceed, now).steps;
    var s1 := Pass(c.singular, args);
    var s2 := GuessSteps(c.detected, executes);
    var s3 := Pass(bad, args);
    var s4 := DeclaredRun(declared, defs, executes, now).steps;
    assert forall x :: x in steps ==> x in s1 || x in s2 || x in s3 || x in s4;
    GuessStepsMembers(c.detected, executes);
    DeclaredStepsAreStatements(declared, defs, executes, now);
  }

  /**
   * A metric declared with a truthy `:aggregate` is never evaluated row by row:
   * declared wins over inferred.
   */
  lemma DeclaredNeverEvaluatedPerRow(r: Registry, args: seq<Value>, table: string, id: nat, probes: string -> Probe, nowDb: string,
                                     executes: string -> bool, rowsSucceed: seq<string> -> bool, now: int)
    requires r.Valid()
    requires forall n :: n in AggregateMetrics(r).names ==> n in r.defs
    requires Collect(r, table, id, probes, nowDb).Ok?
    ensures var c := Collect(r, table, id, probes, nowDb).value;
            forall ms, a, m :: EvaluateRows(ms, a) in Materialized(c, args, AggregateMetrics(r).names, r.defs, executes, rowsSucceed, now).steps && m in ms ==>
              m in r.defs && !Truthy(Get(r.defs[m], Aggregate))
  {
    var c := Collect(r, table, id, probes, nowDb).value;
    RowPasses(c, args, AggregateMetrics(r).names, r.defs, executes, rowsSucceed, now);
    SingularExcludesAggregates(r, table, id, probes, nowDb);
    CollectFromMembers(r, r.names, table, id, probes, nowDb);
    BadGuessesMembers(c.detected, executes);
    MetricsMembers(c.detected);
  }

  lemma {:induction false} MetricsMembers(guesses: seq<Guess>)
    ensures forall g :: g in guesses ==> g.metric in Metrics(guesses)
  {
    if guesses != [] {
      var init := guesses[..|guesses| - 1];
      MetricsMembers(init);
      assert forall g :: g in guesses ==> g in init || g == guesses[|guesses| - 1];
    }
  }

  /** The last loop only executes statements and stamps columns. */
  lemma {:induction false} DeclaredStepsAreStatements(names: seq<string>, defs: map<string, Options>, executes: string -> bool, now: int)
    requires forall n :: n in names ==> n in defs
    ensures forall s :: s in DeclaredRun(names, defs, executes, now).steps ==> !s.EvaluateRows?
  {
    if names != [] {
      assert forall n :: n in names[..|names| - 1] ==> n in names;
      DeclaredStepsAreStatements(names[..|names| - 1], defs, executes, now);
    }
  }

  /** The loop over the detected statements: each is executed, and a failure makes its metric a bad guess. */
  method ExecuteGuesses(guesses: seq<Guess>, executes: string -> bool) returns (steps: seq<Step>, badGuesses: seq<string>)
    ensures steps == GuessSteps(guesses, executes)
    ensures badGuesses == BadGuesses(guesses, executes)
  {
    steps, badGuesses := [], [];
    for i := 0 to |guesses|
      invariant badGuesses == BadGuesses(guesses[..i], executes)
      invariant steps == GuessSteps(guesses[..i], executes)
    {
      assert guesses[..i + 1][..i] == guesses[..i];
      if executes(guesses[i].sql) {
        steps := steps + [Execute(guesses[i].sql)];
      } else {
        badGuesses := badGuesses + [guesses[i].metric];
      }
    }
    assert guesses[..|guesses|] == guesses;
  }

  /** The loop over the declared aggregates: execute each statement and stamp its column; the first failure stops it. */
  method ExecuteDeclared(names: seq<string>, defs: map<string, Options>, executes: string -> bool, now: int)
    returns (run: Run)
    requires forall n :: n in names ==> n in defs
    ensures run == DeclaredRun(names, defs, executes, now)
  {
    var steps: seq<Step> := [];
    for i := 0 to |names|
      invariant DeclaredRun(names[..i], defs, executes, now) == Run(steps, None)
    {
      var name := names[i];
      assert names[..i + 1][..i] == names[..i];
      var statement := Get(defs[name], Aggregate);
      if !statement.Str? {
        DeclaredRunPrefixFailure(names, defs, executes, now, i + 1);
        return Run(steps, Some(NotAStatement(name)));
      }
      if !executes(statement.s) {
        DeclaredRunPrefixFailure(names, defs, executes, now, i + 1);
        return Run(steps, Some(StatementFailed(statement.s)));
      }
      steps := steps + [Execute(statement.s), StampAll(UpdatedAtColumn(name), now)];
    }
    assert names[..|names|] == names;
    run := Run(steps, None);
  }

  /**
   * The body of `update_all_metrics!` after the collection: the singular pass,
   * the detected statements, the bad-guess pass, then the declared aggregates.
   */
  method Materialize(c: Collected, args: seq<Value>, declared: seq<string>, defs: map<string, Options>,
                     executes: string -> bool, rowsSucceed: seq<string> -> bool, now: int)
    returns (run: Run)
    requires forall n :: n in declared ==> n in defs
    ensures run == Materialized(c, args, declared, defs, executes, rowsSucceed, now)
  {
    var steps: seq<Step> := [];
    if c.singular != [] {
      if !rowsSucceed(c.singular) {
        return Run([], Some(RowPassFailed(c.singular)));
      }
      steps := [EvaluateRows(c.singular, args)];
    }
    var executed, badGuesses := ExecuteGuesses(c.detected, executes);
    steps := steps + executed;
    if badGuesses != [] {
      if !rowsSucceed(badGuesses) {
        return Run(steps, Some(RowPassFailed(badGuesses)));
      }
      steps := steps + [EvaluateRows(badGuesses, args)];
    }
    var last := ExecuteDeclared(declared, defs, executes, now);
    run := Run(steps + last.steps, last.failure);
  }

  /** A failure in the first `k` declared aggregates is the failure of the whole loop. */
  lemma {:induction false} DeclaredRunPrefixFailure(names: seq<string>, defs: map<string, Options>,
                                                    executes: string -> bool, now: int, k: nat)
    requires forall n :: n in names ==> n in defs
    requires k <= |names|
    requires DeclaredRun(names[..k], defs, executes, now).failure.Some?
    ensures DeclaredRun(names, defs, executes, now) == DeclaredRun(names[..k], defs, executes, now)
    decreases |names| - k
  {
    if k < |names| {
      assert names[..k + 1][..k] == names[..k];
      DeclaredRunPrefixFailure(names, defs, executes, now, k + 1);
    } else {
      assert names[..k] == names;
    }
  }

  /**
   * `update_all_metrics!`: migrate the metrics table, then, when the model has
   * a first row, collect from it and materialize. `probes` stands for running
   * each metric's block on that row, `nowDb`/`now` for `Time.current`; `args`
   * are the run's own arguments, forwarded to every per-row call (so that
   * `update_all_metrics!(true)` forces every row's value).
   */
  method UpdateAllMetrics(table: MetricsTable, args: seq<Value>, warmup: Option<nat>, probes: string -> Probe, nowDb: string,
                          executes: string -> bool, rowsSucceed: seq<string> -> bool, now: int)
    returns (run: Run)
    requires table.Valid()
    modifies table
    ensures table.Valid()
    ensures !table.selfStoring ==>
              (MigrationSucceeds(table.host.registry, old(table.columns)) ==>
                 table.columns == Reconciled(table.host.registry, table.host.segmentCategories, old(table.columns))) &&
              (!MigrationSucceeds(table.host.registry, old(table.columns)) ==>
                 run.steps == [] && run.failure.Some? && run.failure.value.ColumnAlreadyExists?)
    ensures table.selfStoring ==> table.columns == old(table.columns)
    ensures !table.selfStoring && !MigrationSucceeds(table.host.registry, old(table.columns)) ==>
              run.failure.Some? &&
              StoppedAdding(table.host.registry, table.host.segmentCategories, Kept(table.host.registry, old(table.columns)),
                            table.columns, run.failure.value)
    ensures table.selfStoring || MigrationSucceeds(table.host.registry, old(table.columns)) ==>
              run == Plan(table.host.registry, args, table.tableName, warmup, probes, nowDb, executes, rowsSucceed, now)
  {
    var migrated := table.Migrate();
    if migrated.Err? {
      return Run([], Some(migrated.error));
    }
    if warmup.None? {
      return Done;
    }
    var collected := CollectMetrics(table.host.registry, table.tableName, warmup.value, probes, nowDb);
    if collected.Err? {
      return Run([], Some(collected.error));
    }
    AggregatesDeclared(table.host.registry);
    run := Materialize(collected.value, args, AggregateMetrics(table.host.registry).names, table.host.registry.defs,
                       executes, rowsSucceed, now);
  }
}
