/**
 * Directive handlers. The source has one class per directive deriving from
 * an abstract parser; here one class `Parser` carries a `Kind` tag and the
 * per-class behaviour is selected on it. `OnlyTrashedParser` and
 * `WithTrashedParser` are the two handlers modelled in full; `OtherParser`
 * stands for every handler class not part of this model, abstracted as
 * recording its raw argument and contributing one fragment.
 */
module Parsers {
  import opened Wrappers
  import opened Eloquent

  datatype Kind = OnlyTrashedParser | WithTrashedParser | OtherParser

  /** The failures that abort compilation. */
  datatype ApiError =
    | UnknownDirective(name: string)   // the factory has no parser for the name
    | ApiException(message: string)    // Restive\Exceptions\ApiException

  const SoftDeleteMessage := "Model does not support soft deletes"

  /** The value of a handler: its directive name, its class and its tokens. */
  datatype Handler = Handler(action: string, kind: Kind, tokens: seq<string>)

  /** What `tokenizeParameters` appends to the handler's tokens. */
  function Tokens(kind: Kind, parameters: string): (t: seq<string>)
    ensures |t| == 1
    ensures kind != OtherParser ==> t == [""]
  {
    match kind
    case OnlyTrashedParser => [""]
    case WithTrashedParser => [""]
    case OtherParser => [parameters]
  }

  /** A fresh handler of class `kind` after `parse(parameters)`. */
  function NewHandler(action: string, kind: Kind, parameters: string): Handler
  {
    Handler(action, kind, Tokens(kind, parameters))
  }

  /** ParserOnlyTrashed::prepareQuery. */
  function OnlyTrashedPrepareQuery(b: Builder): (r: Result<Builder, ApiError>)
    ensures r.Success? <==> b.softDeletes
    ensures r.Success? ==> r.value.scope == OnlyTrashedRows && r.value.(scope := b.scope) == b
    ensures r.Failure? ==> r.error == ApiException(SoftDeleteMessage)
  {
    match CallOnlyTrashed(b)
    case Success(b') => Success(b')
    case Failure(BadMethodCall(_)) => Failure(ApiException(SoftDeleteMessage))
  }

  /** ParserWithTrashed::prepareQuery. */
  function WithTrashedPrepareQuery(b: Builder): (r: Result<Builder, ApiError>)
    ensures r.Success? <==> b.softDeletes
    ensures r.Success? ==> r.value.scope == IncludeTrashed && r.value.(scope := b.scope) == b
    ensures r.Failure? ==> r.error == ApiException(SoftDeleteMessage)
  {
    match CallWithTrashed(b)
    case Success(b') => Success(b')
    case Failure(BadMethodCall(_)) => Failure(ApiException(SoftDeleteMessage))
  }

  /** `addQuery`: the handler contributes its fragment to the builder. */
  function PrepareQuery(h: Handler, b: Builder): (r: Result<Builder, ApiError>)
    ensures r.Failure? <==> h.kind != OtherParser && !b.softDeletes
    ensures r.Failure? ==> r.error == ApiException(SoftDeleteMessage)
    ensures r.Success? ==> r.value.table == b.table && r.value.softDeletes == b.softDeletes
  {
    match h.kind
    case OnlyTrashedParser => OnlyTrashedPrepareQuery(b)
    case WithTrashedParser => WithTrashedPrepareQuery(b)
    case OtherParser => Success(b.(fragments := b.fragments + [Fragment(h.action, h.tokens)]))
  }

  /** One directive occurrence: a handler object whose tokens its tokenizer fills. */
  class Parser {
    const action: string
    const kind: Kind
    var tokenized: seq<string>

    /** `ParserFactory::getParser`: a brand-new handler with no tokens. */
    constructor (action: string, kind: Kind)
      ensures this.action == action && this.kind == kind && tokenized == []
    {
      this.action := action;
      this.kind := kind;
      tokenized := [];
    }

    function View(): Handler
      reads this
    {
      Handler(action, kind, tokenized)
    }

    /** `tokenizeParameters`; both soft-delete toggles append one empty token. */
    method TokenizeParameters(parameters: string)
      modifies this
      ensures kind != OtherParser ==> tokenized == old(tokenized) + [""]
      ensures kind == OtherParser ==> tokenized == old(tokenized) + [parameters]
    {
      match kind
      case OnlyTrashedParser =>
        tokenized := tokenized + [""];
      case WithTrashedParser =>
        tokenized := tokenized + [""];
      case OtherParser =>
        tokenized := tokenized + [parameters];
    }

    /** `parse`: hands the raw argument to the tokenizer. */
    method Parse(parameters: string)
      modifies this
      ensures tokenized == old(tokenized) + Tokens(kind, parameters)
    {
      TokenizeParameters(parameters);
    }

    /** `addQuery`: hands the builder to `prepareQuery`. */
    function AddQuery(b: Builder): (r: Result<Builder, ApiError>)
      reads this
      ensures r.Failure? <==> kind != OtherParser && !b.softDeletes
      ensures r.Success? && kind == OtherParser ==> r.value.fragments == b.fragments + [Fragment(action, tokenized)]
      ensures r.Success? ==> r.value.table == b.table && r.value.softDeletes == b.softDeletes
    {
      PrepareQuery(View(), b)
    }
  }
}
