/**
 * An abstract stand-in for the Eloquent query builder. Only what the core
 * touches is kept: whether the model uses soft deletes, the soft-delete
 * scope, and the fragments other directives contribute, in order.
 */
module Eloquent {
  import opened Wrappers

  datatype Model = Model(table: string, softDeletes: bool)

  /** Which rows the soft-delete scope lets through. */
  datatype Scope = ExcludeTrashed | IncludeTrashed | OnlyTrashedRows

  /** A piece of query contributed by a directive handler: its name and tokens. */
  datatype Fragment = Fragment(action: string, tokens: seq<string>)

  datatype Builder = Builder(table: string, softDeletes: bool, scope: Scope, fragments: seq<Fragment>)

  /** What the builder throws when asked for a method it does not have. */
  datatype BuilderError = BadMethodCall(name: string)

  /** `$model->query()`: a fresh builder with the default scope and no fragments. */
  function NewQuery(m: Model): Builder
  {
    Builder(m.table, m.softDeletes, ExcludeTrashed, [])
  }

  /** `$builder->onlyTrashed()`: a macro present only on soft-deleting models. */
  function CallOnlyTrashed(b: Builder): Result<Builder, BuilderError>
  {
    if b.softDeletes then Success(b.(scope := OnlyTrashedRows)) else Failure(BadMethodCall("onlyTrashed"))
  }

  /** `$builder->withTrashed()`: a macro present only on soft-deleting models. */
  function CallWithTrashed(b: Builder): Result<Builder, BuilderError>
  {
    if b.softDeletes then Success(b.(scope := IncludeTrashed)) else Failure(BadMethodCall("withTrashed"))
  }
}
