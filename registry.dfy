/**
 * The metric registry of a model class (its class-level `metrics` hash), the
 * declarations `has_metric` and `has_aggregate_metric` that fill it, the
 * partition into single-only and aggregate metrics, and the column type
 * inferred for a column of the metrics table.
 */
module Registry {
  import opened Values
  import opened Text

  /** The `metrics` hash: metric names in insertion order, each with its merged options. */
  datatype Registry = Registry(names: seq<string>, defs: map<string, Options>) {
    ghost predicate Valid() {
      Distinct(names) && forall n :: n in defs <==> n in names
    }
  }

  const Empty := Registry([], map[])

  /** `has_metric`'s own options: the block, when one is given, becomes `:single`. */
  function WithBlock(options: Options, block: Option<nat>): (o: Options)
    ensures block.Some? ==> Get(o, Single) == Block(block.value)
    ensures forall k :: k != Single ==> Get(o, k) == Get(options, k)
    ensures block.None? ==> o == options
  {
    if block.Some? then options[Single := Block(block.value)] else options
  }

  /**
   * The registry after `metrics[name] ||= {}` and `metrics[name].merge!(options)`:
   * the options are merged into the entry of `name`, a new name goes last, and
   * every other entry stays as it was.
   */
  function Registered(r: Registry, name: string, options: Options): (r': Registry)
    requires r.Valid()
    ensures r'.Valid()
    ensures r'.names == if name in r.defs then r.names else r.names + [name]
    ensures forall n :: n in r.defs && n != name ==> n in r'.defs && r'.defs[n] == r.defs[n]
    ensures name in r'.defs
    ensures forall k :: k in options ==> k in r'.defs[name] && r'.defs[name][k] == options[k]
    ensures forall k :: k !in options ==>
              (k in r'.defs[name] <==> name in r.defs && k in r.defs[name]) &&
              (k in r'.defs[name] ==> r'.defs[name][k] == r.defs[name][k])
  {
    var prior := if name in r.defs then r.defs[name] else map[];
    var names := if name in r.defs then r.names else r.names + [name];
    assert Distinct(names) by {
      if name !in r.defs {
        assert forall i :: 0 <= i < |r.names| ==> names[i] == r.names[i] != name;
      }
    }
    Registry(names, r.defs[name := prior + options])
  }

  /** The names among `names` whose options have (or, with `aggregate` false, lack) the key `:aggregate`. */
  function SelectNames(names: seq<string>, defs: map<string, Options>, aggregate: bool): (s: seq<string>)
    requires forall n :: n in names ==> n in defs
    ensures forall n :: n in s <==> n in names && (Aggregate in defs[n]) == aggregate
    ensures Distinct(names) ==> Distinct(s)
    ensures Subsequence(s, names)
    ensures |s| <= |names|
  {
    if names == [] then []
    else
      var rest := SelectNames(names[1..], defs, aggregate);
      if (Aggregate in defs[names[0]]) == aggregate then
        assert Distinct(names) ==> names[0] !in names[1..];
        [names[0]] + rest
      else rest
  }

  /** `metrics.select { ... }` on the presence of `:aggregate`, keeping the registry's order. */
  function Select(r: Registry, aggregate: bool): (s: Registry)
    requires r.Valid()
    ensures s.Valid()
    ensures Subsequence(s.names, r.names)
    ensures forall n :: n in s.defs <==> n in r.defs && (Aggregate in r.defs[n]) == aggregate
    ensures forall n :: n in s.defs ==> s.defs[n] == r.defs[n]
  {
    var names := SelectNames(r.names, r.defs, aggregate);
    Registry(names, map n | n in names :: r.defs[n])
  }

  /** `single_only_metrics`: the metrics declared without the key `:aggregate`. */
  function SingleOnlyMetrics(r: Registry): (s: Registry)
    requires r.Valid()
    ensures s.Valid()
    ensures Subsequence(s.names, r.names)
    ensures forall n :: n in s.defs <==> n in r.defs && Aggregate !in r.defs[n]
    ensures forall n :: n in s.defs ==> s.defs[n] == r.defs[n]
  {
    Select(r, false)
  }

  /** `aggregate_metrics`: the metrics declared with the key `:aggregate`, whatever its value. */
  function AggregateMetrics(r: Registry): (s: Registry)
    requires r.Valid()
    ensures s.Valid()
    ensures Subsequence(s.names, r.names)
    ensures forall n :: n in s.defs <==> n in r.defs && Aggregate in r.defs[n]
    ensures forall n :: n in s.defs ==> s.defs[n] == r.defs[n]
  {
    Select(r, true)
  }

  /** The two selections split the registry: disjoint, and together every metric exactly once. */
  lemma {:induction false} PartitionCounts(names: seq<string>, defs: map<string, Options>)
    requires forall n :: n in names ==> n in defs
    ensures |SelectNames(names, defs, false)| + |SelectNames(names, defs, true)| == |names|
  {
    if names != [] {
      PartitionCounts(names[1..], defs);
    }
  }

  lemma Partition(r: Registry)
    requires r.Valid()
    ensures SingleOnlyMetrics(r).defs.Keys !! AggregateMetrics(r).defs.Keys
    ensures SingleOnlyMetrics(r).defs.Keys + AggregateMetrics(r).defs.Keys == r.defs.Keys
    ensures |SingleOnlyMetrics(r).names| + |AggregateMetrics(r).names| == |r.names|
  {
    PartitionCounts(r.names, r.defs);
  }

  /**
   * `metrics_column_type`: an explicit truthy `:type` of the metric named
   * `column` wins; then `by_<x>` with `<x>` a segment category is `:string`; then
   * a name ending in `_at` is `:datetime`; everything else is `:integer`.
   */
  function ColumnType(r: Registry, segmentCategories: set<string>, column: string): (t: Value)
    requires r.Valid()
    ensures Truthy(t)
    ensures ExplicitlyTyped(r, column) ==> t == r.defs[column][Type]
    ensures !ExplicitlyTyped(r, column) && SegmentColumn(segmentCategories, column) ==> t == Sym("string")
    ensures !ExplicitlyTyped(r, column) && !SegmentColumn(segmentCategories, column) && EndsWith(column, "_at")
            ==> t == Sym("datetime")
    ensures !ExplicitlyTyped(r, column) && !SegmentColumn(segmentCategories, column) && !EndsWith(column, "_at")
            ==> t == Sym("integer")
  {
    if ExplicitlyTyped(r, column) then r.defs[column][Type]
    else if SegmentColumn(segmentCategories, column) then Sym("string")
    else if EndsWith(column, "_at") then Sym("datetime")
    else Sym("integer")
  }

  /** The metric named `column` has a truthy `:type`. */
  predicate ExplicitlyTyped(r: Registry, column: string) {
    column in r.defs && Truthy(Get(r.defs[column], Type))
  }

  /** `column =~ /^by_(.+)$/` with the captured part one of the segment categories. */
  predicate SegmentColumn(segmentCategories: set<string>, column: string) {
    StartsWith(column, "by_") && |column| > 3 && column[3..] in segmentCategories
  }

  /** A column type is one of the three inferred ones, or the explicit `:type` of its metric. */
  lemma ColumnTypeRange(r: Registry, segmentCategories: set<string>, column: string)
    requires r.Valid()
    ensures var t := ColumnType(r, segmentCategories, column);
            t == Sym("string") || t == Sym("datetime") || t == Sym("integer") ||
            (column in r.defs && Type in r.defs[column] && t == r.defs[column][Type])
  {
  }

  /** Every timestamp column without an explicit type of its own is a datetime column. */
  lemma UpdatedAtColumnIsDatetime(r: Registry, segmentCategories: set<string>, name: string)
    requires r.Valid()
    requires !ExplicitlyTyped(r, UpdatedAtColumn(name))
    ensures ColumnType(r, segmentCategories, UpdatedAtColumn(name)) == Sym("datetime")
  {
    var c := UpdatedAtColumn(name);
    assert c[0] == 'u';
    assert !StartsWith(c, "by_") by { assert "by_"[0] == 'b'; }
    assert c[|c| - 3..] == "_at";
  }

  /** A `by_<x>` column whose `<x>` is a segment category is a string column unless typed explicitly. */
  lemma SegmentColumnIsString(r: Registry, segmentCategories: set<string>, category: string)
    requires r.Valid() && category in segmentCategories && category != []
    requires !ExplicitlyTyped(r, "by_" + category)
    ensures ColumnType(r, segmentCategories, "by_" + category) == Sym("string")
  {
    var c := "by_" + category;
    assert c[3..] == category;
  }

  /**
   * A model class's declarations: its metric registry, and the reader method
   * defined for each metric with a `:single` block (the options it captured).
   */
  class MetricHost {
    var registry: Registry
    var readers: map<string, Options>
    const segmentCategories: set<string>

    ghost predicate Valid()
      reads this
    {
      registry.Valid()
    }

    constructor (segmentCategories: set<string>)
      ensures Valid()
      ensures registry == Empty && readers == map[]
      ensures this.segmentCategories == segmentCategories
    {
      registry := Empty;
      readers := map[];
      this.segmentCategories := segmentCategories;
    }

    /**
     * `has_metric name, options, &block`: merges the options (and the block, as
     * `:single`) into the entry of `name`; when `:single` is truthy it (re)defines
     * the reader method, which keeps these options, not the merged entry.
     */
    method HasMetric(name: string, options: Options, block: Option<nat>)
      requires Valid()
      modifies this
      ensures Valid()
      ensures registry == Registered(old(registry), name, WithBlock(options, block))
      ensures readers == if Truthy(Get(WithBlock(options, block), Single))
                         then old(readers)[name := WithBlock(options, block)]
                         else old(readers)
    {
      var opts := WithBlock(options, block);
      if Truthy(Get(opts, Single)) {
        readers := readers[name := opts];
      }
      registry := Registered(registry, name, opts);
    }

    /** `has_aggregate_metric name, sql`: a `has_metric` whose only option is `:aggregate`. */
    method HasAggregateMetric(name: string, sql: string)
      requires Valid()
      modifies this
      ensures Valid()
      ensures registry == Registered(old(registry), name, map[Aggregate := Str(sql)])
      ensures readers == old(readers)
      ensures name in AggregateMetrics(registry).defs && name !in SingleOnlyMetrics(registry).defs
    {
      HasMetric(name, map[Aggregate := Str(sql)], None);
    }
  }
}
