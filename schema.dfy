/**
 * The schema reconciler (`MetricsClass`): the columns the metrics table must
 * have, the ones it lacks and the ones it has too many of, and the migration
 * that drops the extras and adds the missing columns one at a time.
 */
module Schema {
  import opened Values
  import opened Text
  import opened Registry

  /** The columns every metrics table keeps for itself. */
  const Reserved: seq<string> := ["id", "created_at", "updated_at"]

  /** No timestamp column of a metric can be one of the reserved columns. */
  lemma UpdatedAtColumnNotReserved(name: string)
    ensures UpdatedAtColumn(name) !in Reserved
  {
    assert |UpdatedAtColumn(name)| >= 13;
  }

  /** `required_columns`: the metric names, then their timestamp columns. */
  function RequiredColumns(r: Registry): (cs: seq<string>)
    ensures |cs| == 2 * |r.names|
  {
    r.names + UpdatedAtColumns(r.names)
  }

  /** A required column is a metric name or the timestamp column of one. */
  lemma RequiredMembership(r: Registry)
    ensures forall c :: c in RequiredColumns(r) <==>
              c in r.names || exists n :: n in r.names && c == UpdatedAtColumn(n)
  {
    UpdatedAtColumnsMembers(r.names);
  }

  /** `missing_columns`: the required columns the table lacks, reserved columns not counting as present. */
  function MissingColumns(r: Registry, existing: seq<string>): (m: seq<string>)
    ensures |m| <= 2 * |r.names|
  {
    Minus(RequiredColumns(r), Minus(existing, Reserved))
  }

  lemma MissingMembers(r: Registry, existing: seq<string>)
    ensures forall c :: c in MissingColumns(r, existing) <==>
              c in RequiredColumns(r) && (c !in existing || c in Reserved)
  {
    MinusMembers(existing, Reserved);
    MinusMembers(RequiredColumns(r), Minus(existing, Reserved));
  }

  /**
   * `extra_columns`: the table's columns that are neither reserved nor required;
   * when the metrics live on the model's own table this cannot be told and raises.
   */
  function ExtraColumns(r: Registry, existing: seq<string>, selfStoring: bool): (e: Result<seq<string>>)
    ensures e.Err? <==> selfStoring
    ensures e.Err? ==> e.error == ExtraColumnsUndecidable
    ensures e.Ok? ==> |e.value| <= |existing|
  {
    if selfStoring then Err(ExtraColumnsUndecidable)
    else Ok(Minus(Minus(existing, Reserved), RequiredColumns(r)))
  }

  /** The extra columns are the existing ones that are neither reserved nor required. */
  lemma ExtraMembers(r: Registry, existing: seq<string>)
    ensures ExtraColumns(r, existing, false).Ok?
    ensures forall c :: c in ExtraColumns(r, existing, false).value <==>
              c in existing && c !in Reserved && c !in RequiredColumns(r)
  {
    MinusMembers(existing, Reserved);
    MinusMembers(Minus(existing, Reserved), RequiredColumns(r));
  }

  /** A column of the metrics table, with the options `add_column` gave it. */
  datatype Column = Column(name: string, kind: Value, nullable: bool, default: Value)

  function ColumnNames(cols: seq<Column>): (ns: seq<string>)
    ensures |ns| == |cols|
  {
    if cols == [] then [] else [cols[0].name] + ColumnNames(cols[1..])
  }

  lemma {:induction false} ColumnNamesAppend(a: seq<Column>, b: seq<Column>)
    ensures ColumnNames(a + b) == ColumnNames(a) + ColumnNames(b)
  {
    if a != [] {
      assert (a + b)[1..] == a[1..] + b;
      ColumnNamesAppend(a[1..], b);
    } else {
      assert a + b == b;
    }
  }

  /** The columns of `cols` whose names are not in `names`, in order (`remove_column` of each). */
  function Without(cols: seq<Column>, names: seq<string>): (r: seq<Column>)
    ensures |r| <= |cols|
  {
    if cols == [] then []
    else if cols[0].name in names then Without(cols[1..], names)
    else [cols[0]] + Without(cols[1..], names)
  }

  lemma {:induction false} WithoutNames(cols: seq<Column>, names: seq<string>)
    ensures ColumnNames(Without(cols, names)) == Minus(ColumnNames(cols), names)
  {
    if cols != [] {
      WithoutNames(cols[1..], names);
      if cols[0].name !in names {
        ColumnNamesAppend([cols[0]], Without(cols[1..], names));
      }
    }
  }

  lemma {:induction false} WithoutMembers(cols: seq<Column>, names: seq<string>)
    ensures forall c :: c in Without(cols, names) <==> c in cols && c.name !in names
  {
    if cols != [] {
      WithoutMembers(cols[1..], names);
      assert cols == [cols[0]] + cols[1..];
    }
  }

  lemma {:induction false} WithoutNothing(cols: seq<Column>)
    ensures Without(cols, []) == cols
  {
    if cols != [] {
      WithoutNothing(cols[1..]);
    }
  }

  /** Removing columns one more name at a time is removing them all. */
  lemma {:induction false} WithoutStep(cols: seq<Column>, names: seq<string>, name: string)
    ensures Without(Without(cols, names), [name]) == Without(cols, names + [name])
  {
    if cols != [] {
      WithoutStep(cols[1..], names, name);
      if cols[0].name !in names {
        assert ([cols[0]] + Without(cols[1..], names))[1..] == Without(cols[1..], names);
      }
    }
  }

  /** The column `add_column` creates for `name`: a string column is `null: false, default: ''`. */
  function NewColumn(r: Registry, segmentCategories: set<string>, name: string): (c: Column)
    requires r.Valid()
    ensures c.name == name && c.kind == ColumnType(r, segmentCategories, name)
    ensures c.kind == Sym("string") ==> !c.nullable && c.default == Str("")
    ensures c.kind != Sym("string") ==> c.nullable && c.default == Nil
  {
    var kind := ColumnType(r, segmentCategories, name);
    if kind == Sym("string") then Column(name, kind, false, Str("")) else Column(name, kind, true, Nil)
  }

  /** The columns `Migration.up` adds for `names`, in order. */
  function NewColumns(r: Registry, segmentCategories: set<string>, names: seq<string>): (cs: seq<Column>)
    requires r.Valid()
    ensures |cs| == |names|
  {
    if names == [] then []
    else NewColumns(r, segmentCategories, names[..|names| - 1]) + [NewColumn(r, segmentCategories, names[|names| - 1])]
  }

  lemma {:induction false} NewColumnsNames(r: Registry, segmentCategories: set<string>, names: seq<string>)
    requires r.Valid()
    ensures ColumnNames(NewColumns(r, segmentCategories, names)) == names
  {
    if names != [] {
      var init := names[..|names| - 1];
      NewColumnsNames(r, segmentCategories, init);
      ColumnNamesAppend(NewColumns(r, segmentCategories, init), [NewColumn(r, segmentCategories, names[|names| - 1])]);
      assert names == init + [names[|names| - 1]];
    }
  }

  /** Every added column has the inferred type, and string columns are non-null with default ''. */
  lemma {:induction false} NewColumnsTyped(r: Registry, segmentCategories: set<string>, names: seq<string>)
    requires r.Valid()
    ensures forall c :: c in NewColumns(r, segmentCategories, names) ==>
              c.name in names && c.kind == ColumnType(r, segmentCategories, c.name) &&
              (c.kind == Sym("string") ==> !c.nullable && c.default == Str(""))
  {
    if names != [] {
      NewColumnsTyped(r, segmentCategories, names[..|names| - 1]);
      assert forall n :: n in names[..|names| - 1] ==> n in names;
    }
  }

  /** The names `Migration.down` removes from columns named `existing`. */
  function Extras(r: Registry, existing: seq<string>): seq<string> {
    Minus(Minus(existing, Reserved), RequiredColumns(r))
  }

  /** The columns kept by the first half of `migrate!`: everything but the extras. */
  function Kept(r: Registry, cols: seq<Column>): seq<Column> {
    Without(cols, Extras(r, ColumnNames(cols)))
  }

  /** The columns after a successful `migrate!`: the kept ones, then the missing ones added. */
  function Reconciled(r: Registry, segmentCategories: set<string>, cols: seq<Column>): seq<Column>
    requires r.Valid()
  {
    var kept := Kept(r, cols);
    kept + NewColumns(r, segmentCategories, MissingColumns(r, ColumnNames(kept)))
  }

  lemma KeptNames(r: Registry, cols: seq<Column>)
    ensures forall c :: c in ColumnNames(Kept(r, cols)) <==>
              c in ColumnNames(cols) && (c in Reserved || c in RequiredColumns(r))
  {
    WithoutNames(cols, Extras(r, ColumnNames(cols)));
    MinusMembers(ColumnNames(cols), Extras(r, ColumnNames(cols)));
    ExtraMembers(r, ColumnNames(cols));
  }

  /**
   * After reconciliation the columns are exactly the required ones plus the
   * reserved ones the table had; every reserved or still required column the
   * table had is kept as it was, and every other column is dropped.
   */
  lemma ReconciledColumns(r: Registry, segmentCategories: set<string>, cols: seq<Column>)
    requires r.Valid()
    ensures forall c :: c in ColumnNames(Reconciled(r, segmentCategories, cols)) <==>
              c in RequiredColumns(r) || (c in ColumnNames(cols) && c in Reserved)
    ensures forall col :: col in cols && (col.name in Reserved || col.name in RequiredColumns(r)) ==>
              col in Reconciled(r, segmentCategories, cols)
  {
    var kept := Kept(r, cols);
    var missing := MissingColumns(r, ColumnNames(kept));
    ColumnNamesAppend(kept, NewColumns(r, segmentCategories, missing));
    NewColumnsNames(r, segmentCategories, missing);
    KeptNames(r, cols);
    MissingMembers(r, ColumnNames(kept));
    WithoutMembers(cols, Extras(r, ColumnNames(cols)));
    ExtraMembers(r, ColumnNames(cols));
  }

  lemma {:induction false} UpdatedAtColumnsAppend(names: seq<string>, name: string)
    ensures UpdatedAtColumns(names + [name]) == UpdatedAtColumns(names) + [UpdatedAtColumn(name)]
  {
    if names != [] {
      assert (names + [name])[1..] == names[1..] + [name];
      UpdatedAtColumnsAppend(names[1..], name);
    }
  }

  /** The registered metric's required columns: the old ones with its name and its timestamp column inserted. */
  lemma RequiredAfterRegistering(r: Registry, name: string, options: Options)
    requires r.Valid() && name !in r.defs
    ensures RequiredColumns(Registered(r, name, options)) ==
            r.names + [name] + UpdatedAtColumns(r.names) + [UpdatedAtColumn(name)]
  {
    UpdatedAtColumnsAppend(r.names, name);
  }

  /**
   * On a table holding exactly the required and some reserved columns of `r`,
   * the one more metric `name` is missing exactly its two columns.
   */
  lemma MissingAfterRegistering(r: Registry, existing: seq<string>, name: string, options: Options)
    requires r.Valid() && NoReservedMetric(r) && name !in r.defs && name !in Reserved
    requires forall n :: n in r.names ==> name != UpdatedAtColumn(n) && n != UpdatedAtColumn(name)
    requires forall c :: c in existing ==> c in Reserved || c in RequiredColumns(r)
    requires forall c :: c in RequiredColumns(r) ==> c in existing
    ensures MissingColumns(Registered(r, name, options), existing) == [name, UpdatedAtColumn(name)]
  {
    var present := Minus(existing, Reserved);
    var u := UpdatedAtColumns(r.names);
    var stamp := UpdatedAtColumn(name);
    assert RequiredColumns(Registered(r, name, options)) == r.names + [name] + u + [stamp] by {
      RequiredAfterRegistering(r, name, options);
    }
    assert Minus(r.names + [name] + u + [stamp], present) == [name, stamp] by {
      MinusOfFour(r.names, [name], u, [stamp], present);
      assert Minus(r.names, present) == [] && Minus(u, present) == [] by {
        PresentCoversRequired(r, existing);
      }
      assert Minus([name], present) == [name] && Minus([stamp], present) == [stamp] by {
        assert name !in r.names;
        NewColumnsAbsent(r, existing, name);
      }
    }
  }

  lemma MinusOfFour(a: seq<string>, b: seq<string>, c: seq<string>, d: seq<string>, p: seq<string>)
    ensures Minus(a + b + c + d, p) == Minus(a, p) + Minus(b, p) + Minus(c, p) + Minus(d, p)
  {
    MinusAppend(a + b + c, d, p);
    MinusAppend(a + b, c, p);
    MinusAppend(a, b, p);
  }

  /** A table holding every required column leaves none of them missing. */
  lemma PresentCoversRequired(r: Registry, existing: seq<string>)
    requires NoReservedMetric(r)
    requires forall c :: c in RequiredColumns(r) ==> c in existing
    ensures Minus(r.names, Minus(existing, Reserved)) == []
    ensures Minus(UpdatedAtColumns(r.names), Minus(existing, Reserved)) == []
  {
    var present := Minus(existing, Reserved);
    assert forall c :: c in RequiredColumns(r) ==> c in present by {
      RequiredNotReserved(r);
      MinusMembers(existing, Reserved);
    }
    MinusEverything(r.names, present);
    MinusEverything(UpdatedAtColumns(r.names), present);
  }

  /** A table holding only reserved and required columns lacks a new metric's two columns. */
  lemma NewColumnsAbsent(r: Registry, existing: seq<string>, name: string)
    requires name !in r.names
    requires forall n :: n in r.names ==> name != UpdatedAtColumn(n) && n != UpdatedAtColumn(name)
    requires forall c :: c in existing ==> c in Reserved || c in RequiredColumns(r)
    ensures Minus([name], Minus(existing, Reserved)) == [name]
    ensures Minus([UpdatedAtColumn(name)], Minus(existing, Reserved)) == [UpdatedAtColumn(name)]
  {
    var present := Minus(existing, Reserved);
    var stamp := UpdatedAtColumn(name);
    assert forall c :: c in present ==> c in RequiredColumns(r) by {
      MinusMembers(existing, Reserved);
    }
    assert name !in RequiredColumns(r) && stamp !in RequiredColumns(r) by {
      UpdatedAtColumnsMembers(r.names);
      forall n | n in r.names
        ensures stamp != UpdatedAtColumn(n)
      {
        UpdatedAtColumnInjective(name, n);
      }
    }
    MinusNothing([name], present);
    MinusNothing([stamp], present);
  }

  /**
   * Registering one more metric (whose name is neither reserved nor the
   * timestamp column of a registered metric, and whose timestamp column is not
   * a registered metric) on a reconciled table adds exactly its two columns,
   * at the end.
   */
  lemma RegisteringAddsTwoColumns(r: Registry, segmentCategories: set<string>, cols: seq<Column>,
                                  name: string, options: Options)
    requires r.Valid() && NoReservedMetric(r) && name !in r.defs && name !in Reserved
    requires forall n :: n in r.names ==> name != UpdatedAtColumn(n) && n != UpdatedAtColumn(name)
    ensures var once := Reconciled(r, segmentCategories, cols);
            var r' := Registered(r, name, options);
            ColumnNames(Reconciled(r', segmentCategories, once)) == ColumnNames(once) + [name, UpdatedAtColumn(name)]
  {
    var once := Reconciled(r, segmentCategories, cols);
    var r' := Registered(r, name, options);
    var names := ColumnNames(once);
    ReconciledColumns(r, segmentCategories, cols);
    RequiredAfterRegistering(r, name, options);
    // nothing is extra: every column is reserved or still required
    MinusMembers(names, Reserved);
    MinusEverything(Minus(names, Reserved), RequiredColumns(r'));
    WithoutNothing(once);
    assert Kept(r', once) == once;
    MissingAfterRegistering(r, names, name, options);
    var missing := MissingColumns(r', names);
    ColumnNamesAppend(once, NewColumns(r', segmentCategories, missing));
    NewColumnsNames(r', segmentCategories, missing);
  }

  /** The metrics of the users table in the gem's own example: four metrics, each with a block (their bodies are not modelled). */
  function UserRegistry(): (r: Registry)
    ensures r.Valid() && NoReservedMetric(r) && |r.names| == 4
    ensures forall n :: n in r.names ==> 0 < |n| <= 18 && n[0] != 'u'
  {
    var names := ["name_length", "pets_count", "average_pet_weight", "sent_activities"];
    assert |names[0]| == 11 && |names[1]| == 10 && |names[2]| == 18 && |names[3]| == 15;
    var plain: Options := map[Single := Block(0)];
    Registry(names, map[names[0] := plain, names[1] := plain,
                        names[2] := plain[OtherKey("infer_aggregate") := Bool(true)], names[3] := plain])
  }

  /**
   * Four metrics on a metrics table holding only `id` reconcile to 9 columns;
   * one more metric with a plain name, reconciled again, gives 11.
   */
  lemma FourMetricsOnIdTable(r: Registry, segmentCategories: set<string>, name: string, options: Options)
    requires r.Valid() && NoReservedMetric(r) && |r.names| == 4
    requires name !in r.defs && name !in Reserved
    requires forall n :: n in r.names ==> name != UpdatedAtColumn(n) && n != UpdatedAtColumn(name)
    ensures var cols := [Column("id", Sym("integer"), false, Nil)];
            var once := Reconciled(r, segmentCategories, cols);
            |once| == 9 && |Reconciled(Registered(r, name, options), segmentCategories, once)| == 11
  {
    var cols := [Column("id", Sym("integer"), false, Nil)];
    assert ColumnNames(cols) == ["id"];
    FreshTable(r, segmentCategories, cols);
    RegisteringAddsTwoColumns(r, segmentCategories, cols, name, options);
  }

  /** A name of 19 characters is none of the names of at most 18, and no name starting other than with `u` is a timestamp column. */
  lemma PlainNewName(names: seq<string>, name: string)
    requires forall n :: n in names ==> 0 < |n| <= 18 && n[0] != 'u'
    requires |name| == 19 && name[0] != 'u'
    ensures name !in names && name !in Reserved
    ensures forall n :: n in names ==> name != UpdatedAtColumn(n) && n != UpdatedAtColumn(name)
  {
    assert forall c :: c in Reserved ==> |c| <= 10;
    forall n | n in names
      ensures name != UpdatedAtColumn(n) && n != UpdatedAtColumn(name)
    {
      assert UpdatedAtColumn(name)[0] == 'u';
      assert UpdatedAtColumn(n)[0] == 'u';
    }
  }

  /** The gem's example: 9 columns for its four metrics, 11 once `name_length_squared` is added. */
  lemma UserMetricsColumnCounts(segmentCategories: set<string>)
    ensures var cols := [Column("id", Sym("integer"), false, Nil)];
            var once := Reconciled(UserRegistry(), segmentCategories, cols);
            var r' := Registered(UserRegistry(), "name_length_squared", map[Single := Block(1)]);
            |once| == 9 && |Reconciled(r', segmentCategories, once)| == 11
  {
    var r := UserRegistry();
    var name := "name_length_squared";
    assert |name| == 19 && name[0] == 'n';
    PlainNewName(r.names, name);
    FourMetricsOnIdTable(r, segmentCategories, name, map[Single := Block(1)]);
  }

  /** The extra columns never include a reserved or a required column. */
  lemma ExtrasSpareReservedAndRequired(r: Registry, existing: seq<string>)
    ensures ExtraColumns(r, existing, false).Ok?
    ensures forall c :: c in ExtraColumns(r, existing, false).value ==> c !in Reserved && c !in RequiredColumns(r)
  {
    ExtraMembers(r, existing);
  }

  /** No metric is named like a reserved column (an `id` metric could never be added). */
  predicate NoReservedMetric(r: Registry) {
    forall n :: n in r.names ==> n !in Reserved
  }

  lemma RequiredNotReserved(r: Registry)
    requires NoReservedMetric(r)
    ensures forall c :: c in RequiredColumns(r) ==> c !in Reserved
  {
    RequiredMembership(r);
    forall n | n in r.names {
      UpdatedAtColumnNotReserved(n);
    }
  }

  /** A second reconciliation changes nothing. */
  lemma ReconcileIdempotent(r: Registry, segmentCategories: set<string>, cols: seq<Column>)
    requires r.Valid() && NoReservedMetric(r)
    ensures Reconciled(r, segmentCategories, Reconciled(r, segmentCategories, cols)) == Reconciled(r, segmentCategories, cols)
  {
    var once := Reconciled(r, segmentCategories, cols);
    var names := ColumnNames(once);
    ReconciledColumns(r, segmentCategories, cols);
    RequiredNotReserved(r);
    MinusMembers(names, Reserved);
    MinusEverything(Minus(names, Reserved), RequiredColumns(r));
    WithoutNothing(once);
    assert Kept(r, once) == once;
    MinusEverything(RequiredColumns(r), Minus(names, Reserved));
    assert NewColumns(r, segmentCategories, []) == [];
  }

  /**
   * On a table holding only reserved columns, reconciliation adds every
   * required column in order: two per metric.
   */
  lemma FreshTable(r: Registry, segmentCategories: set<string>, cols: seq<Column>)
    requires r.Valid()
    requires forall c :: c in ColumnNames(cols) ==> c in Reserved
    requires NoReservedMetric(r)
    ensures ColumnNames(Reconciled(r, segmentCategories, cols)) == ColumnNames(cols) + RequiredColumns(r)
    ensures |Reconciled(r, segmentCategories, cols)| == |cols| + 2 * |r.names|
  {
    var names := ColumnNames(cols);
    RequiredNotReserved(r);
    MinusEverything(names, Reserved);
    WithoutNothing(cols);
    var kept := Kept(r, cols);
    assert kept == cols;
    MinusNothing(RequiredColumns(r), []);
    var missing := MissingColumns(r, names);
    ColumnNamesAppend(kept, NewColumns(r, segmentCategories, missing));
    NewColumnsNames(r, segmentCategories, missing);
  }

  /**
   * Whether `migrate!` gets through on a table with columns `cols`: after the
   * extras are dropped, the missing columns are distinct and none is present
   * already (only a reserved metric name can break this).
   */
  predicate MigrationSucceeds(r: Registry, cols: seq<Column>) {
    var kept := Kept(r, cols);
    AllNew(MissingColumns(r, ColumnNames(kept)), ColumnNames(kept))
  }

  /** Migrating against no metrics only drops columns, so it cannot fail. */
  lemma EmptyMigrationSucceeds(cols: seq<Column>)
    ensures MigrationSucceeds(Empty, cols)
  {
    assert RequiredColumns(Empty) == [];
  }

  /** `added` holds no name twice and none of `before`. */
  /**
   * The columns `after` a `Migration.up` over the columns `base` that stopped,
   * with error `e`, at the first missing column already present: the missing
   * columns before it were added, in order, and nothing else changed.
   */
  predicate StoppedAdding(r: Registry, segmentCategories: set<string>, base: seq<Column>, after: seq<Column>, e: Error)
    requires r.Valid()
  {
    var missing := MissingColumns(r, ColumnNames(base));
    exists i :: 0 <= i < |missing| && missing[i] in ColumnNames(base) + missing[..i] &&
                after == base + NewColumns(r, segmentCategories, missing[..i]) && e == ColumnAlreadyExists(missing[i])
  }

  predicate AllNew(added: seq<string>, before: seq<string>) {
    Distinct(added) && forall c :: c in added ==> c !in before
  }

  lemma AllNewStep(added: seq<string>, before: seq<string>, x: string)
    requires AllNew(added, before) && x !in before + added
    ensures AllNew(added + [x], before)
  {
  }

  /** A name already among `before` or earlier in `all` makes `all` not all new. */
  lemma AllNewBlocked(all: seq<string>, before: seq<string>, i: int)
    requires 0 <= i < |all| && all[i] in before + all[..i]
    ensures !AllNew(all, before)
  {
    if all[i] !in before {
      var j :| 0 <= j < i && all[..i][j] == all[i];
      assert all[j] == all[i];
    }
  }

  lemma DistinctJoin(a: seq<string>, b: seq<string>)
    requires Distinct(a) && AllNew(b, a)
    ensures Distinct(a + b)
  {
    forall i, j | 0 <= i < j < |a + b|
      ensures (a + b)[i] != (a + b)[j]
    {
      if i < |a| && j >= |a| {
        assert (a + b)[j] == b[j - |a|] && b[j - |a|] in b;
      }
    }
  }

  /**
   * The migration always gets through when no metric is named like a reserved
   * column or like the timestamp column of another metric.
   */
  lemma MigrationSucceedsOnPlainNames(r: Registry, cols: seq<Column>)
    requires r.Valid() && NoReservedMetric(r)
    requires forall a, b :: a in r.names && b in r.names ==> a != UpdatedAtColumn(b)
    ensures MigrationSucceeds(r, cols)
  {
    var kept := Kept(r, cols);
    UpdatedAtColumnsDistinct(r.names);
    UpdatedAtColumnsMembers(r.names);
    var req := RequiredColumns(r);
    assert Distinct(req) by {
      var u := UpdatedAtColumns(r.names);
      forall i, j | 0 <= i < j < |req|
        ensures req[i] != req[j]
      {
        if j < |r.names| {
        } else if i >= |r.names| {
          assert req[i] == u[i - |r.names|] && req[j] == u[j - |r.names|];
        } else {
          assert req[i] in r.names && req[j] == u[j - |r.names|] && req[j] in u;
        }
      }
    }
    MinusDistinct(req, Minus(ColumnNames(kept), Reserved));
    MissingMembers(r, ColumnNames(kept));
    RequiredNotReserved(r);
  }

  /**
   * The metrics table of a model class. `host` is the model (`object_class`);
   * `selfStoring` says the metrics live on the model's own table.
   */
  class MetricsTable {
    const tableName: string
    const host: MetricHost
    const selfStoring: bool
    var columns: seq<Column>

    ghost predicate Valid()
      reads this, host
    {
      host.Valid() && Distinct(ColumnNames(columns))
    }

    constructor (tableName: string, host: MetricHost, selfStoring: bool, columns: seq<Column>)
      requires host.Valid() && Distinct(ColumnNames(columns))
      ensures Valid()
      ensures this.tableName == tableName && this.host == host
      ensures this.selfStoring == selfStoring && this.columns == columns
    {
      this.tableName := tableName;
      this.host := host;
      this.selfStoring := selfStoring;
      this.columns := columns;
    }

    /** `Migration.down`: removes each extra column, one at a time. */
    method MigrationDown() returns (r: Result<()>)
      requires Valid()
      modifies this
      ensures Valid()
      ensures selfStoring ==> r == Err(ExtraColumnsUndecidable) && columns == old(columns)
      ensures !selfStoring ==> r == Ok(()) && columns == Kept(host.registry, old(columns))
    {
      var extra := ExtraColumns(host.registry, ColumnNames(columns), selfStoring);
      if extra.Err? {
        return Err(extra.error);
      }
      ghost var start := columns;
      WithoutNothing(start);
      var i := 0;
      while i < |extra.value|
        invariant 0 <= i <= |extra.value|
        invariant columns == Without(start, extra.value[..i])
      {
        WithoutStep(start, extra.value[..i], extra.value[i]);
        assert extra.value[..i + 1] == extra.value[..i] + [extra.value[i]];
        columns := Without(columns, [extra.value[i]]);
        i := i + 1;
      }
      assert extra.value[..i] == extra.value;
      WithoutNames(start, extra.value);
      MinusDistinct(ColumnNames(start), extra.value);
      r := Ok(());
    }

    /**
     * `Migration.up`: adds each missing column with its inferred type; adding a
     * column the table already has fails and stops the migration.
     */
    method MigrationUp() returns (r: Result<()>)
      requires Valid()
      modifies this
      ensures Valid()
      ensures r.Ok? <==> AllNew(MissingColumns(host.registry, ColumnNames(old(columns))), ColumnNames(old(columns)))
      ensures r.Ok? ==>
              columns == old(columns) + NewColumns(host.registry, host.segmentCategories,
                                                   MissingColumns(host.registry, ColumnNames(old(columns))))
      ensures r.Err? ==> r.error.ColumnAlreadyExists?
      ensures r.Err? ==> StoppedAdding(host.registry, host.segmentCategories, old(columns), columns, r.error)
    {
      var missing := MissingColumns(host.registry, ColumnNames(columns));
      ghost var before := ColumnNames(columns);
      for i := 0 to |missing|
        invariant columns == old(columns) + NewColumns(host.registry, host.segmentCategories, missing[..i])
        invariant ColumnNames(columns) == before + missing[..i]
        invariant AllNew(missing[..i], before)
      {
        assert missing[..i + 1] == missing[..i] + [missing[i]];
        if missing[i] in ColumnNames(columns) {
          AllNewBlocked(missing, before, i);
          DistinctJoin(before, missing[..i]);
          assert StoppedAdding(host.registry, host.segmentCategories, old(columns), columns, ColumnAlreadyExists(missing[i])) by {
            assert 0 <= i < |missing| && missing[i] in ColumnNames(old(columns)) + missing[..i];
          }
          return Err(ColumnAlreadyExists(missing[i]));
        }
        AllNewStep(missing[..i], before, missing[i]);
        var column := NewColumn(host.registry, host.segmentCategories, missing[i]);
        ColumnNamesAppend(columns, [column]);
        columns := columns + [column];
      }
      assert missing[..|missing|] == missing;
      DistinctJoin(before, missing);
      r := Ok(());
    }

    /**
     * `migrate!`: nothing when the metrics live on the model's own table;
     * otherwise drop the extra columns, then add the missing ones.
     */
    method Migrate() returns (r: Result<()>)
      requires Valid()
      modifies this
      ensures Valid()
      ensures selfStoring ==> r == Ok(()) && columns == old(columns)
      ensures !selfStoring ==> (r.Ok? <==> MigrationSucceeds(host.registry, old(columns)))
      ensures r.Err? ==> r.error.ColumnAlreadyExists?
      ensures !selfStoring && r.Ok? ==> columns == Reconciled(host.registry, host.segmentCategories, old(columns))
      ensures !selfStoring && r.Err? ==>
              StoppedAdding(host.registry, host.segmentCategories, Kept(host.registry, old(columns)), columns, r.error)
    {
      if selfStoring {
        return Ok(());
      }
      var extra := ExtraColumns(host.registry, ColumnNames(columns), selfStoring);
      if extra.value != [] {
        r := MigrationDown();
      } else {
        WithoutNothing(columns);
      }
      var missing := MissingColumns(host.registry, ColumnNames(columns));
      if missing != [] {
        r := MigrationUp();
      } else {
        r := Ok(());
      }
    }

    /**
     * `remigrate!` as written: the registry is replaced by an empty Array, so
     * unless the metrics live on the model's own table the first `migrate!`
     * fails on `[].keys` (in `required_columns`) before touching the table, and
     * the registry is never restored.
     */
    method RemigrateAsWritten() returns (r: Result<()>)
      requires Valid()
      modifies this, host
      ensures Valid()
      ensures host.readers == old(host.readers) && columns == old(columns)
      ensures selfStoring ==> r == Ok(()) && host.registry == old(host.registry)
      ensures !selfStoring ==> r == Err(NoMethod("keys")) && host.registry == Empty
    {
      var saved := host.registry;
      host.registry := Empty;
      if !selfStoring {
        return Err(NoMethod("keys"));
      }
      host.registry := saved;
      r := Ok(());
    }

    /**
     * `remigrate!` as intended: migrate with an empty registry (dropping every
     * metric column), restore the registry, and migrate again.
     */
    method Remigrate() returns (r: Result<()>)
      requires Valid()
      modifies this, host
      ensures Valid()
      ensures host.registry == old(host.registry) && host.readers == old(host.readers)
      ensures selfStoring ==> r == Ok(()) && columns == old(columns)
      ensures !selfStoring && r.Ok? ==>
              columns == Reconciled(host.registry, host.segmentCategories,
                                    Reconciled(Empty, host.segmentCategories, old(columns)))
      ensures !selfStoring && r.Err? ==>
              r.error.ColumnAlreadyExists? &&
              StoppedAdding(host.registry, host.segmentCategories,
                            Kept(host.registry, Reconciled(Empty, host.segmentCategories, old(columns))), columns, r.error)
    {
      var saved := host.registry;
      host.registry := Empty;
      EmptyMigrationSucceeds(columns);
      r := Migrate();
      host.registry := saved;
      if r.Ok? {
        r := Migrate();
      }
    }
  }
}
