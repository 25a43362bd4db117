/**
 * The aggregate detector (`collect_metrics`): every metric without a truthy
 * `:aggregate` is run once against a sample row while its SQL is captured; a
 * metric that issued exactly one query, other than the trivial lookup of the
 * sample row itself, gets a bulk `UPDATE` built from that query with the sample
 * id replaced by a correlation to the metrics table's `id` column. The others
 * are singular: they must be evaluated row by row.
 */
module Detector {
  import opened Values
  import opened Text
  import opened Registry

  /** What running a metric's block on the sample row did: the queries it issued, or an exception. */
  datatype Probe = Ran(queries: seq<string>) | Raised(message: string)

  /** How one captured run is classified. */
  datatype Verdict = Singular | Trivial | Subquery(sql: string)

  /** A detected aggregate: the metric and the bulk statement that computes it for every row. */
  datatype Guess = Guess(metric: string, sql: string)

  /** The two results of `collect_metrics`, in the order the metrics were declared. */
  datatype Collected = Collected(detected: seq<Guess>, singular: seq<string>)

  /** The query that loads one row of `table` by id, with the id written as `idText`. */
  function TrivialLookup(table: string, idText: string): string {
    "SELECT \"" + table + "\".* FROM \"" + table + "\" WHERE \"" + table + "\".\"id\" = " + idText + " LIMIT 1"
  }

  /** The correlation that replaces the sample id: `<table>.id`. */
  function IdColumn(table: string): string {
    table + ".id"
  }

  /** The bulk statement for metric `name`: its value from the correlated subquery, its timestamp `nowDb`. */
  function UpdateSql(table: string, name: string, subquery: string, nowDb: string): (sql: string)
    ensures Occurs("UPDATE " + table, sql)
    ensures Occurs("SET " + name + " = (" + subquery + ")", sql)
    ensures Occurs(subquery, sql)
    ensures Occurs(UpdatedAtColumn(name) + " = '" + nowDb + "'", sql)
  {
    var target := "UPDATE " + table;
    var assign := "SET " + name + " = (" + subquery + ")";
    var stamp := UpdatedAtColumn(name) + " = '" + nowDb + "'";
    var s1 := "\n              " + target;
    var s2 := s1 + "\n                 ";
    var s3 := s2 + assign;
    var s4 := s3 + ",\n                     ";
    var s5 := s4 + stamp;
    var sql := s5 + ";\n            ";
    assert Occurs(target, sql) by {
      OccursJoin(target, "\n              ", target);
      assert s1 <= s2 <= s3 <= s4 <= s5 <= sql;
      OccursPrefix(target, s1, sql);
    }
    assert Occurs(subquery, sql) && Occurs(assign, sql) by {
      OccursJoin(subquery, "SET " + name + " = (", subquery);
      OccursJoin(subquery, "SET " + name + " = (" + subquery, ")");
      OccursJoin(subquery, s2, assign);
      OccursJoin(assign, s2, assign);
      assert s3 <= s4 <= s5 <= sql;
      OccursPrefix(subquery, s3, sql);
      OccursPrefix(assign, s3, sql);
    }
    assert Occurs(stamp, sql) by {
      OccursJoin(stamp, s4, stamp);
      OccursJoin(stamp, s5, ";\n            ");
    }
    sql
  }

  /** An occurrence in either part is an occurrence in the whole. */
  lemma {:induction false} OccursJoin(pat: string, a: string, b: string)
    ensures Occurs(pat, a) ==> Occurs(pat, a + b)
    ensures Occurs(pat, b) ==> Occurs(pat, a + b)
    decreases |a|
  {
    if a != [] {
      assert (a + b)[1..] == a[1..] + b;
      OccursJoin(pat, a[1..], b);
      if pat <= a {
        assert (a + b)[..|pat|] == a[..|pat|];
      }
    } else {
      assert a + b == b;
    }
  }

  /** An occurrence in a prefix is an occurrence in the whole. */
  lemma OccursPrefix(pat: string, s: string, t: string)
    requires Occurs(pat, s) && s <= t
    ensures Occurs(pat, t)
  {
    assert t == s + t[|s|..];
    OccursJoin(pat, s, t[|s|..]);
  }

  /**
   * The classification of one captured run, as written: anything but exactly
   * one query is singular; otherwise every occurrence of the sample id's digits
   * is replaced by `<table>.id`, and the result is trivial only if it then reads
   * as the lookup of a row by `<table>.id`.
   */
  function Classify(table: string, id: nat, queries: seq<string>): (v: Verdict)
    ensures v.Singular? <==> |queries| != 1
    ensures v.Trivial? <==> |queries| == 1 && Gsub(queries[0], Decimal(id), IdColumn(table)) == TrivialLookup(table, IdColumn(table))
    ensures v.Subquery? ==> v.sql == Gsub(queries[0], Decimal(id), IdColumn(table))
  {
    if |queries| != 1 then Singular
    else
      var subquery := Gsub(queries[0], Decimal(id), IdColumn(table));
      if subquery == TrivialLookup(table, IdColumn(table)) then Trivial else Subquery(subquery)
  }

  /** A single query that does not mention the sample id is trivial exactly when it already correlates by `<table>.id`. */
  lemma ClassifyWithoutId(table: string, id: nat, query: string)
    requires !Occurs(Decimal(id), query)
    ensures Classify(table, id, [query]).Trivial? <==> query == TrivialLookup(table, IdColumn(table))
    ensures Classify(table, id, [query]).Subquery? ==> Classify(table, id, [query]).sql == query
  {
    GsubWithoutOccurrence(query, Decimal(id), IdColumn(table));
  }

  /**
   * The classification with the trivial lookup recognised before the
   * substitution, so that it is trivial whatever the sample id.
   */
  function ClassifyFixed(table: string, id: nat, queries: seq<string>): (v: Verdict)
    ensures v.Singular? <==> |queries| != 1
    ensures v.Trivial? <==>
              (|queries| == 1 &&
               (queries[0] == TrivialLookup(table, Decimal(id)) ||
                Gsub(queries[0], Decimal(id), IdColumn(table)) == TrivialLookup(table, IdColumn(table))))
    ensures v.Subquery? ==> v.sql == Gsub(queries[0], Decimal(id), IdColumn(table))
  {
    if |queries| == 1 && queries[0] == TrivialLookup(table, Decimal(id)) then Trivial
    else Classify(table, id, queries)
  }

  /** The corrected classification differs from the written one only on the literal lookup of the sample row. */
  lemma ClassifyFixedAgrees(table: string, id: nat, queries: seq<string>)
    requires !(|queries| == 1 && queries[0] == TrivialLookup(table, Decimal(id)))
    ensures ClassifyFixed(table, id, queries) == Classify(table, id, queries)
  {
  }

  /** The fixed text that precedes the id in the lookup of a row. */
  function LookupHead(table: string): string {
    "SELECT \"" + table + "\".* FROM \"" + table + "\" WHERE \"" + table + "\".\"id\" = "
  }

  lemma LookupShape(table: string, idText: string)
    ensures TrivialLookup(table, idText) == LookupHead(table) + (idText + " LIMIT 1")
  {
  }

  lemma DigitFreeConcat(a: string, b: string)
    requires DigitFree(a) && DigitFree(b)
    ensures DigitFree(a + b)
  {
    assert forall c :: c in a + b ==> c in a || c in b;
  }

  lemma LookupHeadDigitFree(table: string)
    requires DigitFree(table)
    ensures DigitFree(LookupHead(table))
  {
    var p1, p2, p3, p4 := "SELECT \"", "\".* FROM \"", "\" WHERE \"", "\".\"id\" = ";
    assert DigitFree(p1) && DigitFree(p2) && DigitFree(p3) && DigitFree(p4);
    DigitFreeConcat(p1, table);
    DigitFreeConcat(p1 + table, p2);
    DigitFreeConcat(p1 + table + p2, table);
    DigitFreeConcat(p1 + table + p2 + table, p3);
    DigitFreeConcat(p1 + table + p2 + table + p3, table);
    DigitFreeConcat(p1 + table + p2 + table + p3 + table, p4);
  }

  /** `gsub` of a digit pattern leaves " LIMIT " alone and rewrites the final "1" exactly when the pattern is "1". */
  lemma GsubLimit(pat: string, rep: string)
    requires pat != [] && IsDigit(pat[0])
    ensures Gsub(" LIMIT 1", pat, rep) == " LIMIT " + (if pat == "1" then rep else "1")
  {
    assert pat[0] !in " LIMIT " by {
      assert DigitFree(" LIMIT ");
    }
    assert Gsub(" LIMIT " + "1", pat, rep) == " LIMIT " + Gsub("1", pat, rep) by {
      GsubPrefixFree(" LIMIT ", "1", pat, rep);
    }
    assert " LIMIT " + "1" == " LIMIT 1";
    GsubOne(pat, rep);
  }

  /** The text "1" is replaced only by the pattern "1". */
  lemma GsubOne(pat: string, rep: string)
    requires pat != []
    ensures Gsub("1", pat, rep) == if pat == "1" then rep else "1"
  {
    if pat == "1" {
      assert "1"[|pat|..] == [];
    } else {
      assert !(pat <= "1");
      assert "1"[1..] == [];
    }
  }

  /**
   * The substitution applied to the lookup of the sample row, for a table name
   * without digits: the id becomes `<table>.id`, and with id 1 the `LIMIT 1`
   * becomes `LIMIT <table>.id` as well.
   */
  lemma SubstitutedLookup(table: string, id: nat)
    requires DigitFree(table)
    ensures Gsub(TrivialLookup(table, Decimal(id)), Decimal(id), IdColumn(table)) ==
            LookupHead(table) + IdColumn(table) + " LIMIT " + (if id == 1 then IdColumn(table) else "1")
  {
    var pat := Decimal(id);
    var rep := IdColumn(table);
    LookupTailSubstituted(id, rep);
    LookupHeadPasses(table, pat, rep);
  }

  /** After the id, `gsub` replaces the id itself and, for the id 1 only, the `1` of `LIMIT 1`. */
  lemma LookupTailSubstituted(id: nat, rep: string)
    ensures Gsub(Decimal(id) + " LIMIT 1", Decimal(id), rep) == rep + " LIMIT " + (if id == 1 then rep else "1")
  {
    var pat := Decimal(id);
    var last := if id == 1 then rep else "1";
    assert Gsub(pat + " LIMIT 1", pat, rep) == rep + Gsub(" LIMIT 1", pat, rep) by {
      GsubLeading(" LIMIT 1", pat, rep);
    }
    assert Gsub(" LIMIT 1", pat, rep) == " LIMIT " + last by {
      GsubLimit(pat, rep);
      DecimalIsOne(id);
    }
  }

  /** Before the id, the lookup of a table without digits holds nothing `gsub` of a number can match. */
  lemma LookupHeadPasses(table: string, pat: string, rep: string)
    requires DigitFree(table) && pat != [] && IsDigit(pat[0])
    ensures Gsub(TrivialLookup(table, pat), pat, rep) == LookupHead(table) + Gsub(pat + " LIMIT 1", pat, rep)
  {
    LookupShape(table, pat);
    LookupHeadDigitFree(table);
    GsubPrefixFree(LookupHead(table), pat + " LIMIT 1", pat, rep);
  }

  /**
   * As written, the lookup of the sample row is recognised as trivial for every
   * sample id except 1: with id 1 it is taken for an aggregate.
   */
  lemma TrivialLookupMissedForIdOne(table: string, id: nat)
    requires DigitFree(table)
    ensures Classify(table, id, [TrivialLookup(table, Decimal(id))]).Trivial? <==> id != 1
  {
    SubstitutedLookup(table, id);
    LookupShape(table, IdColumn(table));
    if id == 1 {
      assert |LookupHead(table) + IdColumn(table) + " LIMIT " + IdColumn(table)|
          != |TrivialLookup(table, IdColumn(table))|;
    }
  }

  /** The corrected classification never takes the lookup of the sample row for an aggregate. */
  lemma TrivialLookupAlwaysTrivial(table: string, id: nat)
    ensures ClassifyFixed(table, id, [TrivialLookup(table, Decimal(id))]) == Trivial
  {
  }

  /** The names `names` are all registered: the precondition of walking them over `r`. */
  predicate Declared(r: Registry, names: seq<string>) {
    forall n :: n in names ==> n in r.defs
  }

  /**
   * One iteration of `collect_metrics`: a metric with a truthy `:aggregate` is
   * skipped; one without a `:single` block raises; otherwise its probe decides.
   */
  function CollectStep(r: Registry, name: string, c: Collected, table: string, id: nat,
                       probes: string -> Probe, nowDb: string): (res: Result<Collected>)
    requires name in r.defs
    ensures Truthy(Get(r.defs[name], Aggregate)) ==> res == Ok(c)
    ensures res.Err? <==> !Truthy(Get(r.defs[name], Aggregate)) &&
                          (!Truthy(Get(r.defs[name], Single)) || probes(name).Raised?)
    ensures res.Ok? ==> res.value == c || res.value == Collected(c.detected, c.singular + [name]) ||
                        (res.value.singular == c.singular && |res.value.detected| == |c.detected| + 1 &&
                         res.value.detected[..|c.detected|] == c.detected && res.value.detected[|c.detected|].metric == name)
  {
    var options := r.defs[name];
    if Truthy(Get(options, Aggregate)) then Ok(c)
    else if !Truthy(Get(options, Single)) then Err(NoBlockGiven(name))
    else match probes(name)
      case Raised(message) => Err(ComputeRaised(message))
      case Ran(queries) =>
        match ClassifyFixed(table, id, queries)
        case Singular => Ok(Collected(c.detected, c.singular + [name]))
        case Trivial => Ok(c)
        case Subquery(sql) => Ok(Collected(c.detected + [Guess(name, UpdateSql(table, name, sql, nowDb))], c.singular))
  }

  /**
   * Which list one step adds to: the singular metrics when the metric ran other
   * than one query, the detected aggregates (with the statement built from its
   * substituted query) when its one query is a subquery, and neither when that
   * query is trivial.
   */
  lemma CollectStepLands(r: Registry, name: string, c: Collected, table: string, id: nat,
                         probes: string -> Probe, nowDb: string)
    requires name in r.defs
    ensures var res := CollectStep(r, name, c, table, id, probes, nowDb);
            res.Ok? && res.value.singular != c.singular ==>
              Probed(r, name) && probes(name).Ran? && |probes(name).queries| != 1 &&
              res.value.singular == c.singular + [name]
    ensures var res := CollectStep(r, name, c, table, id, probes, nowDb);
            res.Ok? && res.value.detected != c.detected ==>
              Probed(r, name) && probes(name).Ran? && ClassifyFixed(table, id, probes(name).queries).Subquery? &&
              res.value.detected == c.detected + [Guess(name, UpdateSql(table, name, ClassifyFixed(table, id, probes(name).queries).sql, nowDb))]
    ensures Probed(r, name) && probes(name).Ran? && ClassifyFixed(table, id, probes(name).queries).Trivial? ==>
              CollectStep(r, name, c, table, id, probes, nowDb) == Ok(c)
  {
  }

  /** `collect_metrics` over the metrics `names`, in order, before declared aggregates are subtracted. */
  function CollectFrom(r: Registry, names: seq<string>, table: string, id: nat,
                       probes: string -> Probe, nowDb: string): (res: Result<Collected>)
    requires Declared(r, names)
    ensures res.Ok? ==> |res.value.detected| + |res.value.singular| <= |names|
    decreases |names|
  {
    if names == [] then Ok(Collected([], []))
    else
      var prior := CollectFrom(r, names[..|names| - 1], table, id, probes, nowDb);
      if prior.Err? then prior
      else CollectStep(r, names[|names| - 1], prior.value, table, id, probes, nowDb)
  }

  /** `collect_metrics(warmup)`: the detected statements, and the singular metrics minus every declared aggregate. */
  function Collect(r: Registry, table: string, id: nat, probes: string -> Probe, nowDb: string): (res: Result<Collected>)
    requires r.Valid()
  {
    var raw := CollectFrom(r, r.names, table, id, probes, nowDb);
    if raw.Err? then raw
    else Ok(Collected(raw.value.detected, Minus(raw.value.singular, AggregateMetrics(r).names)))
  }

  /** The metrics of a list of detected aggregates, in order. */
  function Metrics(guesses: seq<Guess>): (ms: seq<string>)
    ensures |ms| == |guesses|
  {
    if guesses == [] then [] else Metrics(guesses[..|guesses| - 1]) + [guesses[|guesses| - 1].metric]
  }

  /** A metric `collect_metrics` runs on the sample row: no truthy `:aggregate`, and a `:single` block. */
  predicate Probed(r: Registry, m: string)
    requires m in r.defs
  {
    !Truthy(Get(r.defs[m], Aggregate)) && Truthy(Get(r.defs[m], Single))
  }

  /** What `CollectFromMembers` promises of one collection over `names`. */
  predicate WellListed(r: Registry, names: seq<string>, c: Collected)
    requires Declared(r, names)
  {
    Distinct(Metrics(c.detected)) && Distinct(c.singular) &&
    (forall m :: m in Metrics(c.detected) ==> m in names && Probed(r, m) && m !in c.singular) &&
    (forall m :: m in c.singular ==> m in names && Probed(r, m))
  }

  /**
   * Every metric the collection lists is one of `names` that was probed (no
   * truthy `:aggregate`, a `:single` block); none is both detected and singular,
   * and none is listed twice.
   */
  lemma {:induction false} CollectFromMembers(r: Registry, names: seq<string>, table: string, id: nat,
                                              probes: string -> Probe, nowDb: string)
    requires Declared(r, names) && Distinct(names)
    requires CollectFrom(r, names, table, id, probes, nowDb).Ok?
    ensures WellListed(r, names, CollectFrom(r, names, table, id, probes, nowDb).value)
    decreases |names|
  {
    if names != [] {
      var init := names[..|names| - 1];
      var last := names[|names| - 1];
      assert forall n :: n in init ==> n in names;
      assert last !in init;
      CollectFromMembers(r, init, table, id, probes, nowDb);
      var c0 := CollectFrom(r, init, table, id, probes, nowDb).value;
      var c := CollectFrom(r, names, table, id, probes, nowDb).value;
      assert WellListed(r, init, c0);
      if c == c0 {
      } else if c == Collected(c0.detected, c0.singular + [last]) {
        assert Probed(r, last);
      } else {
        assert c.detected == c0.detected + [c.detected[|c0.detected|]];
        assert Metrics(c.detected) == Metrics(c0.detected) + [last];
        assert Probed(r, last);
      }
    }
  }

  /**
   * Where each metric of `names` lands: among the singular metrics exactly when
   * it was probed and ran other than one query; among the detected aggregates,
   * with the statement built from its substituted query, exactly when it was
   * probed and its one query classified as a subquery. A metric whose one query
   * is the trivial lookup lands in neither list.
   */
  lemma {:induction false} CollectFromLists(r: Registry, names: seq<string>, table: string, id: nat,
                                            probes: string -> Probe, nowDb: string)
    requires Declared(r, names) && Distinct(names)
    requires CollectFrom(r, names, table, id, probes, nowDb).Ok?
    ensures var c := CollectFrom(r, names, table, id, probes, nowDb).value;
            forall m :: m in c.singular <==> m in names && Probed(r, m) && probes(m).Ran? && |probes(m).queries| != 1
    ensures var c := CollectFrom(r, names, table, id, probes, nowDb).value;
            forall g :: g in c.detected <==> DetectedFrom(r, names, table, id, probes, nowDb, g)
    decreases |names|
  {
    if names != [] {
      var init := names[..|names| - 1];
      var last := names[|names| - 1];
      assert forall n :: n in init ==> n in names;
      assert forall n :: n in names ==> n in init || n == last;
      assert last !in init;
      CollectFromLists(r, init, table, id, probes, nowDb);
      var c0 := CollectFrom(r, init, table, id, probes, nowDb).value;
      var c := CollectFrom(r, names, table, id, probes, nowDb).value;
      assert c == CollectStep(r, last, c0, table, id, probes, nowDb).value;
      CollectStepLands(r, last, c0, table, id, probes, nowDb);
      forall g | DetectedFrom(r, init, table, id, probes, nowDb, g)
        ensures g.metric != last
      {
      }
      if c == c0 {
        assert !(Probed(r, last) && probes(last).Ran? && |probes(last).queries| != 1);
        assert !(Probed(r, last) && probes(last).Ran? && ClassifyFixed(table, id, probes(last).queries).Subquery?);
      } else if c.singular == c0.singular {
        assert c.detected == c0.detected + [Guess(last, UpdateSql(table, last, ClassifyFixed(table, id, probes(last).queries).sql, nowDb))];
      } else {
        assert c == Collected(c0.detected, c0.singular + [last]);
      }
    }
  }

  /** `g` is the guess built for a metric of `names` that was probed and whose one query is a subquery. */
  predicate DetectedFrom(r: Registry, names: seq<string>, table: string, id: nat,
                         probes: string -> Probe, nowDb: string, g: Guess)
    requires Declared(r, names)
  {
    g.metric in names && Probed(r, g.metric) && probes(g.metric).Ran? &&
    ClassifyFixed(table, id, probes(g.metric).queries).Subquery? &&
    g.sql == UpdateSql(table, g.metric, ClassifyFixed(table, id, probes(g.metric).queries).sql, nowDb)
  }

  /**
   * `collect_metrics` as a whole: a metric is singular exactly when it is
   * registered without the key `:aggregate`, has a `:single` block and ran
   * other than one query; the detected aggregates are exactly the guesses of
   * the metrics whose one query classified as a subquery.
   */
  lemma CollectLists(r: Registry, table: string, id: nat, probes: string -> Probe, nowDb: string)
    requires r.Valid()
    requires Collect(r, table, id, probes, nowDb).Ok?
    ensures var c := Collect(r, table, id, probes, nowDb).value;
            forall m :: m in c.singular <==>
              m in r.defs && Aggregate !in r.defs[m] && Truthy(Get(r.defs[m], Single)) &&
              probes(m).Ran? && |probes(m).queries| != 1
    ensures var c := Collect(r, table, id, probes, nowDb).value;
            forall g :: g in c.detected <==> DetectedFrom(r, r.names, table, id, probes, nowDb, g)
  {
    var raw := CollectFrom(r, r.names, table, id, probes, nowDb).value;
    CollectFromLists(r, r.names, table, id, probes, nowDb);
    MinusMembers(raw.singular, AggregateMetrics(r).names);
    forall m | m in r.defs && Aggregate !in r.defs[m]
      ensures Get(r.defs[m], Aggregate) == Nil
    {
    }
  }

  /** The singular metrics of `collect_metrics` never include a metric declared with `:aggregate`. */
  lemma SingularExcludesAggregates(r: Registry, table: string, id: nat, probes: string -> Probe, nowDb: string)
    requires r.Valid()
    requires Collect(r, table, id, probes, nowDb).Ok?
    ensures forall m :: m in Collect(r, table, id, probes, nowDb).value.singular ==>
              m in r.defs && Aggregate !in r.defs[m]
  {
    var raw := CollectFrom(r, r.names, table, id, probes, nowDb).value;
    CollectFromMembers(r, r.names, table, id, probes, nowDb);
    MinusMembers(raw.singular, AggregateMetrics(r).names);
  }

  /**
   * Declared aggregates win over detection: probes that agree on every metric
   * without a truthy `:aggregate` give the same collection, so a declared
   * aggregate's block is never what decides it.
   */
  lemma {:induction false} DeclaredAggregatesNotProbed(r: Registry, names: seq<string>, table: string, id: nat,
                                                       probes: string -> Probe, probes': string -> Probe, nowDb: string)
    requires Declared(r, names)
    requires forall n :: n in names && !Truthy(Get(r.defs[n], Aggregate)) ==> probes(n) == probes'(n)
    ensures CollectFrom(r, names, table, id, probes, nowDb) == CollectFrom(r, names, table, id, probes', nowDb)
    decreases |names|
  {
    if names != [] {
      assert forall n :: n in names[..|names| - 1] ==> n in names;
      DeclaredAggregatesNotProbed(r, names[..|names| - 1], table, id, probes, probes', nowDb);
    }
  }

  /** The first metric that fails aborts the collection with its error. */
  lemma {:induction false} CollectFromFailure(r: Registry, names: seq<string>, table: string, id: nat,
                                              probes: string -> Probe, nowDb: string)
    requires Declared(r, names)
    ensures CollectFrom(r, names, table, id, probes, nowDb).Err? <==>
            exists n :: n in names && !Truthy(Get(r.defs[n], Aggregate)) &&
                        (!Truthy(Get(r.defs[n], Single)) || probes(n).Raised?)
    decreases |names|
  {
    if names != [] {
      var init := names[..|names| - 1];
      var last := names[|names| - 1];
      assert forall n :: n in init ==> n in names;
      assert forall n :: n in names ==> n in init || n == last;
      CollectFromFailure(r, init, table, id, probes, nowDb);
    }
  }

  /**
   * `collect_metrics` as a loop over the registry: the detected statements and
   * the singular metrics accumulate, the first failure stops it, and at the end
   * the declared aggregates are subtracted from the singular list.
   */
  method CollectMetrics(r: Registry, table: string, id: nat, probes: string -> Probe, nowDb: string)
    returns (res: Result<Collected>)
    requires r.Valid()
    ensures res == Collect(r, table, id, probes, nowDb)
  {
    var detected: seq<Guess> := [];
    var singular: seq<string> := [];
    var i := 0;
    while i < |r.names|
      invariant 0 <= i <= |r.names|
      invariant CollectFrom(r, r.names[..i], table, id, probes, nowDb) == Ok(Collected(detected, singular))
    {
      var name := r.names[i];
      ghost var c := Collected(detected, singular);
      CollectFromNext(r, i, table, id, probes, nowDb);
      var options := r.defs[name];
      if !Truthy(Get(options, Aggregate)) {
        if !Truthy(Get(options, Single)) {
          CollectFromPrefixError(r, i + 1, table, id, probes, nowDb);
          return Err(NoBlockGiven(name));
        }
        var probe := probes(name);
        if probe.Raised? {
          CollectFromPrefixError(r, i + 1, table, id, probes, nowDb);
          return Err(ComputeRaised(probe.message));
        }
        var verdict := ClassifyFixed(table, id, probe.queries);
        if verdict.Singular? {
          assert CollectStep(r, name, c, table, id, probes, nowDb) == Ok(Collected(detected, singular + [name]));
          singular := singular + [name];
        } else if verdict.Subquery? {
          var guess := Guess(name, UpdateSql(table, name, verdict.sql, nowDb));
          assert CollectStep(r, name, c, table, id, probes, nowDb) == Ok(Collected(detected + [guess], singular));
          detected := detected + [guess];
        } else {
          assert CollectStep(r, name, c, table, id, probes, nowDb) == Ok(c);
        }
      } else {
        assert CollectStep(r, name, c, table, id, probes, nowDb) == Ok(c);
      }
      i := i + 1;
    }
    assert r.names[..i] == r.names;
    res := Ok(Collected(detected, Minus(singular, AggregateMetrics(r).names)));
  }

  /** Collecting one more metric after a successful prefix is one more step. */
  lemma CollectFromNext(r: Registry, i: nat, table: string, id: nat, probes: string -> Probe, nowDb: string)
    requires r.Valid() && i < |r.names|
    requires CollectFrom(r, r.names[..i], table, id, probes, nowDb).Ok?
    ensures CollectFrom(r, r.names[..i + 1], table, id, probes, nowDb) ==
            CollectStep(r, r.names[i], CollectFrom(r, r.names[..i], table, id, probes, nowDb).value, table, id, probes, nowDb)
  {
    assert r.names[..i + 1][..i] == r.names[..i];
  }

  /** An error met in the first `k` metrics is the error of the whole collection. */
  lemma {:induction false} CollectFromPrefixError(r: Registry, k: nat, table: string, id: nat,
                                                  probes: string -> Probe, nowDb: string)
    requires r.Valid() && k <= |r.names|
    requires CollectFrom(r, r.names[..k], table, id, probes, nowDb).Err?
    ensures CollectFrom(r, r.names, table, id, probes, nowDb) == CollectFrom(r, r.names[..k], table, id, probes, nowDb)
    decreases |r.names| - k
  {
    if k < |r.names| {
      assert r.names[..k + 1][..k] == r.names[..k];
      CollectFromPrefixError(r, k + 1, table, id, probes, nowDb);
    } else {
      assert r.names[..k] == r.names;
    }
  }
}
