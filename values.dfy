/**
 * The Ruby values the metrics layer handles: option hashes, metric results,
 * cached attributes and the errors an operation can end in.
 */
module Values {

  datatype Option<T> = None | Some(value: T)

  /** One dynamically typed Ruby value, as far as the metrics layer tells values apart. */
  datatype Value =
    | Nil
    | Bool(b: bool)
    | Int(i: int)          // a Fixnum; an ActiveSupport duration such as `20.hours` is its seconds
    | Float(x: real)       // a finite Float
    | NonFinite            // Float::INFINITY, -Float::INFINITY or NaN
    | Sym(name: string)    // a Symbol such as :always or :string
    | Str(s: string)
    | Time(t: int)         // a point in time, in seconds
    | Block(id: nat)       // a Proc given as a metric's body

  /** Ruby truthiness: everything except nil and false. */
  predicate Truthy(v: Value) {
    v != Nil && v != Bool(false)
  }

  /** The keys an options hash of `has_metric` may carry. */
  datatype Key = Single | Aggregate | Once | Every | Type | OtherKey(name: string)

  /** An options hash. Ruby's `merge` is Dafny's map union `a + b`: keys of `b` win. */
  type Options = map<Key, Value>

  /** `options[k]`: nil when the key is absent. */
  function Get(o: Options, k: Key): Value {
    if k in o then o[k] else Nil
  }

  /** The ways an operation of the metrics layer can fail. */
  datatype Error =
    | ComputeRaised(message: string)      // a metric's block raised
    | NoMethod(selector: string)          // a method the receiver does not have (a missing column's writer, `keys` on an Array)
    | NoBlockGiven(metric: string)        // `instance_exec` of a metric that has no :single block
    | ExtraColumnsUndecidable             // `extra_columns` when the metrics live on the model's own table
    | ColumnAlreadyExists(column: string) // `add_column` of a column the table already has
    | StatementFailed(statement: string)  // a declared aggregate statement failed to execute
    | NotAStatement(metric: string)       // a declared aggregate whose :aggregate is not SQL text
    | RowPassFailed(metrics: seq<string>) // a per-row pass raised inside one of its batches

  datatype Result<T> = Ok(value: T) | Err(error: Error)
}
