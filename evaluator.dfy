/**
 * The per-instance evaluator: the body of the reader method that
 * `define_single_method` gives each metric. It decides whether the cached value
 * is still good, and otherwise runs the metric's block, writes the result and
 * its timestamp into the owner's metrics row, and saves that row when the owner
 * has no unsaved changes.
 */
module Evaluator {
  import opened Values
  import opened Text

  /** `20.hours`, in seconds: the staleness frequency of a metric without `:every`. */
  const DefaultFrequency := 72000

  /** `[:force, true].include?(args[0])`. */
  predicate Forces(arg: Value) {
    arg == Sym("force") || arg == Bool(true)
  }

  /** `options[:every] || 20.hours`. */
  function Frequency(options: Options): Value {
    if Truthy(Get(options, Every)) then Get(options, Every) else Int(DefaultFrequency)
  }

  datatype Decision = Reuse(cached: Value) | Recompute

  /**
   * The staleness decision, given the first argument of the call, the cached
   * value and the cached timestamp of the metric and the current time.
   */
  function Decide(options: Options, arg: Value, cached: Value, stamp: Value, now: int): (d: Decision)
    // `true` or `:force` always recomputes
    ensures Forces(arg) ==> d == Recompute
    // `every: :always` ignores the cached value and always recomputes
    ensures Get(options, Every) == Sym("always") ==> d == Recompute
    // a `once` metric with a non-nil cached value keeps it
    ensures !Forces(arg) && Get(options, Every) != Sym("always") && Truthy(cached) && Truthy(Get(options, Once))
            ==> d == Reuse(cached)
    // otherwise, with a numeric frequency F, the cache is good exactly while its timestamp is after now - F
    ensures !Forces(arg) && !(Truthy(cached) && Truthy(Get(options, Once))) && Frequency(options).Int?
            ==> (d.Reuse? <==> stamp.Time? && stamp.t > now - Frequency(options).i)
    // a frequency that is not an Integer (a Float duration, say) never reuses by age
    ensures !Forces(arg) && Get(options, Every) != Sym("always") && !(Truthy(cached) && Truthy(Get(options, Once))) &&
            !Frequency(options).Int?
            ==> d == Recompute
    // a reused value is the cached one (possibly nil)
    ensures d.Reuse? ==> d.cached == cached
  {
    var previous := if Get(options, Every) == Sym("always") then Nil else cached;
    var frequency := Frequency(options);
    if !Forces(arg) && Truthy(previous) && Truthy(Get(options, Once)) then Reuse(previous)
    else if !Forces(arg) && frequency.Int? && stamp.Time? && stamp.t > now - frequency.i then Reuse(previous)
    else Recompute
  }

  /** A metric with frequency F computed at `computedAt` is reused before `computedAt + F` and recomputed from then on. */
  lemma StaleExactlyAfterFrequency(options: Options, cached: Value, computedAt: int, now: int)
    requires !Truthy(Get(options, Once)) && Frequency(options).Int?
    ensures Decide(options, Nil, cached, Time(computedAt), now).Reuse?
            <==> now < computedAt + Frequency(options).i
  {
  }

  /** A non-finite Float result becomes nil; every other result is kept. */
  function Normalize(v: Value): (r: Value)
    ensures r != NonFinite
    ensures v == NonFinite ==> r == Nil
    ensures v != NonFinite ==> r == v
  {
    if v == NonFinite then Nil else v
  }

  /** What running a metric's block gives: a value, or an exception. */
  datatype Computation = Returned(value: Value) | Raised(message: string)

  /**
   * One row of the metrics table: its attributes in memory (the keys are the
   * columns the table has) and the attributes last saved to the database.
   */
  class MetricRecord {
    var attrs: map<string, Value>
    var stored: map<string, Value>

    /** A freshly loaded row: memory and database agree. */
    constructor Load(saved: map<string, Value>)
      ensures attrs == saved && stored == saved
    {
      attrs := saved;
      stored := saved;
    }

    /** `attributes[column]`: nil for a column that is unset or missing. */
    function Attribute(column: string): Value
      reads this
    {
      if column in attrs then attrs[column] else Nil
    }

    /** `send("#{column}=", v)`: fails, changing nothing, when the column does not exist. */
    method Assign(column: string, v: Value) returns (ok: bool)
      modifies this
      ensures ok == (column in old(attrs))
      ensures attrs == if ok then old(attrs)[column := v] else old(attrs)
      ensures stored == old(stored)
    {
      ok := column in attrs;
      if ok {
        attrs := attrs[column := v];
      }
    }

    /** `save`: the database now holds the attributes in memory. */
    method Save()
      modifies this
      ensures attrs == old(attrs) && stored == old(attrs)
    {
      stored := attrs;
    }
  }

  /**
   * The reader method of metric `name` with the options it captured, called on
   * an owner whose metrics row is `row`. `computation` is what the block gives
   * when run now, `ownerChanged` is the owner's `changed?`.
   */
  method Evaluate(row: MetricRecord, name: string, options: Options, arg: Value, now: int,
                  computation: Computation, ownerChanged: bool) returns (r: Result<Value>)
    modifies row
    ensures var d := Decide(options, arg, old(row.Attribute(name)), old(row.Attribute(UpdatedAtColumn(name))), now);
            d.Reuse? ==> r == Ok(d.cached) && unchanged(row)
    ensures var d := Decide(options, arg, old(row.Attribute(name)), old(row.Attribute(UpdatedAtColumn(name))), now);
            d.Recompute? && computation.Raised? ==> r == Err(ComputeRaised(computation.message)) && unchanged(row)
    // the column is not migrated yet: the value is returned but not written
    ensures var d := Decide(options, arg, old(row.Attribute(name)), old(row.Attribute(UpdatedAtColumn(name))), now);
            d.Recompute? && computation.Returned? && name !in old(row.attrs) ==>
              r == Ok(Normalize(computation.value)) && row.attrs == old(row.attrs) &&
              row.stored == (if ownerChanged then old(row.stored) else old(row.attrs))
    // the value column exists but its timestamp column does not: that NoMethodError propagates
    ensures var d := Decide(options, arg, old(row.Attribute(name)), old(row.Attribute(UpdatedAtColumn(name))), now);
            d.Recompute? && computation.Returned? && name in old(row.attrs) && UpdatedAtColumn(name) !in old(row.attrs) ==>
              r == Err(NoMethod(UpdatedAtColumn(name) + "=")) &&
              row.attrs == old(row.attrs)[name := Normalize(computation.value)] && row.stored == old(row.stored)
    // both columns exist: value and timestamp are written, and saved unless the owner has unsaved changes
    ensures var d := Decide(options, arg, old(row.Attribute(name)), old(row.Attribute(UpdatedAtColumn(name))), now);
            d.Recompute? && computation.Returned? && name in old(row.attrs) && UpdatedAtColumn(name) in old(row.attrs) ==>
              r == Ok(Normalize(computation.value)) &&
              row.attrs == old(row.attrs)[name := Normalize(computation.value)][UpdatedAtColumn(name) := Time(now)] &&
              row.stored == (if ownerChanged then old(row.stored) else row.attrs)
  {
    var stampColumn := UpdatedAtColumn(name);
    var d := Decide(options, arg, row.Attribute(name), row.Attribute(stampColumn), now);
    if d.Reuse? {
      return Ok(d.cached);
    }
    if computation.Raised? {
      return Err(ComputeRaised(computation.message));
    }
    var result := Normalize(computation.value);
    var wroteValue := row.Assign(name, result);
    if wroteValue {
      var wroteStamp := row.Assign(stampColumn, Time(now));
      if !wroteStamp {
        return Err(NoMethod(stampColumn + "="));
      }
    }
    if !ownerChanged {
      row.Save();
    }
    r := Ok(result);
  }

  /**
   * A user named "Fuzz" has `name_length` 4; renamed to "Bib" (unsaved) and
   * forced, it is 3, while a copy loaded from the database still reports 4.
   */
  method RenameBeforeSave(now: int) returns (first: Result<Value>, forced: Result<Value>, fromCopy: Result<Value>)
    ensures first == Ok(Int(4)) && forced == Ok(Int(3)) && fromCopy == Ok(Int(4))
  {
    var name := "name_length";
    var stamp := UpdatedAtColumn(name);
    var options: Options := map[Single := Block(0)];
    var row := new MetricRecord.Load(map[name := Nil, stamp := Nil]);

    assert Decide(options, Nil, Nil, Nil, now) == Recompute;
    first := Evaluate(row, name, options, Nil, now, Returned(Int(4)), false);
    var computed := map[name := Int(4), stamp := Time(now)];
    assert row.attrs == computed && row.stored == computed;

    // user.name = "Bib"; user.name_length(true): the owner has unsaved changes
    forced := Evaluate(row, name, options, Bool(true), now, Returned(Int(3)), true);
    assert row.stored == computed;

    // User.find_by_name("Fuzz").name_length
    var copy := new MetricRecord.Load(row.stored);
    assert Decide(options, Nil, Int(4), Time(now), now) == Reuse(Int(4));
    fromCopy := Evaluate(copy, name, options, Nil, now, Returned(Int(3)), false);
  }

  /**
   * Once the renamed user is saved, forcing `name_length` gives 3 and stores
   * it, so a copy loaded from the database reports 3 as well.
   */
  method RenameAfterSave(now: int, computedAt: int) returns (again: Result<Value>, fromReloaded: Result<Value>)
    ensures again == Ok(Int(3)) && fromReloaded == Ok(Int(3))
  {
    var name := "name_length";
    var stamp := UpdatedAtColumn(name);
    var options: Options := map[Single := Block(0)];
    var row := new MetricRecord.Load(map[name := Int(4), stamp := Time(computedAt)]);

    // user.save; user.name_length(true)
    again := Evaluate(row, name, options, Bool(true), now, Returned(Int(3)), false);
    var recomputed := map[name := Int(3), stamp := Time(now)];
    assert row.stored == recomputed;

    // User.find_by_name("Bib").name_length
    var reloaded := new MetricRecord.Load(row.stored);
    assert Decide(options, Nil, Int(3), Time(now), now) == Reuse(Int(3));
    fromReloaded := Evaluate(reloaded, name, options, Nil, now, Returned(Int(0)), false);
  }
}
