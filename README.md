# Restive query-directive pipeline in Dafny

This project models the core of Restive's `ApiQueryParser`. The class turns the
query parameters of an HTTP request into an ordered list of directive handlers
("parsers"), then folds those handlers over an Eloquent query builder. The
model covers the three phases a controller chains:

1. `parseRequest` gathers the parameters into `parsedKeys`. It drops the
   pagination keys `page`, `per_page` and `paginate`, and moves `force` to
   the end.
2. `buildParsers` appends one fresh handler to `queryParts` for every value
   of every key, in key order and then value order.
3. `buildQuery` defaults `columns`, then applies every handler left to right
   to `$model->query()`.

It also models the two soft-delete handlers `ParserOnlyTrashed` and
`ParserWithTrashed`.

Modules:

- `PhpArrays`: the PHP ordered array as a sequence of `(key, value)` entries.
  It has PHP's assignment (`Put`: replace in place, or append a new key) and
  `unset` (`Unset`), plus lemmas about both.
- `Eloquent`: an abstract query builder. It records whether the model uses
  soft deletes, the soft-delete scope and the fragments other directives add.
  `onlyTrashed`/`withTrashed` throw `BadMethodCall` on models without soft
  deletes.
- `Parsers`: the handler class `Parser`, where a `Kind` tag stands in for the
  PHP subclass. It has `tokenizeParameters`, `parse` and `addQuery`. The two
  `prepareQuery` methods are pure builder-to-result functions.
- `Directives`: value-level specifications of every phase (`Gathered`,
  `ForceLast`, `CompileValues`/`Compile`, `ApplyAll`, `DefaultColumns`) and
  their properties.
- `Pipeline`: end-to-end guarantees of `parseRequest` followed by
  `buildParsers`. Reserved keys never reach the plan. `force` handlers form
  the tail of the plan. Other handlers keep the request's order. The plan
  has one handler per value. Unknown directives fail exactly when a
  non-reserved key has no parser and carries a value.
- `QueryParser`: the class `ApiQueryParser` with its fields `parserFactory`,
  `queryParts` and `parsedKeys`. Its loops are written as in the source, and
  each method is proved to compute the `Directives` function of the old state.

Exceptions become `Result`/`Outcome` values. When an unknown directive aborts
`buildParsers`, the model keeps the handlers already appended, as PHP does.

Behaviour of the code worth noting:

- The code moves the `force` **key** to the end of `parsedKeys` before any
  handler is built. It never reorders the finished plan; the `force` handlers
  end up last all the same, as `Pipeline.ForceHandlersLast` proves.
- `buildQuery` adds the default `columns` entry after `buildParsers` has run.
  So the default adds no handler and does not change the built query. It is
  only visible through `parsedKeys` and `hasPart`.
- `getLimit` returns the raw first element. It does not convert it to an
  integer.
- An unknown directive whose value is an empty list never reaches the parser
  factory, so it does not fail.

## Model

| member | source | states |
|---|---|---|
| `PhpArrays.Values` | src/ApiQueryParser.php:107-109 | a scalar becomes a one-element list and a list is kept as is, so the number of values equals the value's count |
| `PhpArrays.PutAppends` | src/ApiQueryParser.php:100 | assigning a key that is absent appends it after every existing entry |
| `PhpArrays.PutGet` | src/ApiQueryParser.php:100 | after assignment the key holds the new value, and every other key is still present with its old value |
| `PhpArrays.PutInPlace` | src/ApiQueryParser.php:100 | re-assigning an existing key keeps the array's length, puts the new value at that key's own position and leaves every other entry where and as it was |
| `PhpArrays.PutDistinct` | src/ApiQueryParser.php:100 | assignment keeps keys unique |
| `PhpArrays.DropHasKey` | src/ApiQueryParser.php:148 | removing keys deletes exactly those keys |
| `PhpArrays.DropGet` | src/ApiQueryParser.php:148 | removing keys leaves the values of the remaining keys unchanged |
| `PhpArrays.DropAbsent` | src/ApiQueryParser.php:148 | removing a key that is absent changes nothing |
| `PhpArrays.EntryGet` | src/ApiQueryParser.php:106 | in an array with unique keys, looking up an entry's key yields that entry's value |
| `Parsers.Tokens` | src/Parsers/ParserWithTrashed.php:10-13 | tokenizing appends exactly one token, and for both soft-delete parsers it is the empty string whatever the argument |
| `Parsers.Parser.TokenizeParameters` | src/Parsers/ParserOnlyTrashed.php:10-13 | the token list is the old list plus one empty token, so earlier tokens are untouched |
| `Parsers.Parser.Parse` | src/ApiQueryParser.php:124 | parsing appends to the tokens what the handler's tokenizer produces for the argument |
| `Parsers.Parser.constructor` | src/ApiQueryParser.php:123 | the factory yields a handler of the named class with no tokens |
| `Parsers.OnlyTrashedPrepareQuery` | src/Parsers/ParserOnlyTrashed.php:15-23 | succeeds iff the model supports soft deletes; then the scope is only-trashed and nothing else changes; otherwise fails with ApiException "Model does not support soft deletes" |
| `Parsers.WithTrashedPrepareQuery` | src/Parsers/ParserWithTrashed.php:15-23 | succeeds iff the model supports soft deletes; then the scope includes trashed rows and nothing else changes; otherwise fails with ApiException "Model does not support soft deletes" |
| `Parsers.PrepareQuery` | src/ApiQueryParser.php:131 | a handler fails iff it is a soft-delete toggle on a model without soft deletes, and the failure is the soft-delete ApiException |
| `Parsers.Parser.AddQuery` | src/ApiQueryParser.php:131 | applying a handler keeps the model; another directive adds its fragment after the existing ones |
| `Directives.GatheredAppends` | src/ApiQueryParser.php:96-101 | gathering keys that are new appends the non-reserved entries in arrival order |
| `Directives.GatherKeysFilters` | src/ApiQueryParser.php:93-102 | gathered keys are the request's entries minus page, per_page and paginate; every other key keeps its value; keys stay unique |
| `Directives.ForceLastPartition` | src/ApiQueryParser.php:142-150 | without force nothing changes; with force the result is the other entries in their old order followed by force with its old value |
| `Directives.ForceLastKeepsEntries` | src/ApiQueryParser.php:147-149 | reordering keeps the same keys with the same values, still unique |
| `Directives.CompileValues` | src/ApiQueryParser.php:114-119 | one handler per value; an unknown name fails with UnknownDirective iff it has a value, before any handler is added |
| `Directives.CompileValuesAt` | src/ApiQueryParser.php:116-125 | handler i is a fresh handler of the key's class that parsed value i |
| `Directives.CompileOutcome` | src/ApiQueryParser.php:104-126 | building succeeds iff no key is unknown with a value, and then has one handler per value; otherwise it names the first failing key and keeps exactly the handlers built for the keys before it |
| `Directives.CompileActions` | src/ApiQueryParser.php:121-125 | every handler belongs to a key of the map and was made by that key's factory entry |
| `Directives.CompileAppend` | src/ApiQueryParser.php:106-111 | building over two maps in a row equals building over their concatenation, stopping at the first failure |
| `Directives.CompileOrdered` | src/ApiQueryParser.php:106-111 | handlers appear in the order of their keys |
| `Directives.ApplyAllAppend` | src/ApiQueryParser.php:128-134 | applying a concatenated plan is applying the first part and then the second; a failure aborts |
| `Directives.ApplyAllOutcome` | src/ApiQueryParser.php:128-134 | the fold fails iff the model lacks soft deletes and the plan has a toggle; otherwise the model is kept, all fragments are added in plan order, and the last toggle sets the scope; an empty plan returns the builder unchanged |
| `Directives.DefaultColumnsSpec` | src/ApiQueryParser.php:54-56 | afterwards columns is set; an existing value is kept, otherwise `table.*` is appended last; defaulting twice changes nothing |
| `Pipeline.ParsedKeysEntries` | src/ApiQueryParser.php:35-44 | after parseRequest the keys are exactly the request's non-reserved keys, with their values and unique, independent of earlier state |
| `Pipeline.ReservedNeverInPlan` | src/ApiQueryParser.php:95-98 | no handler is built for a reserved key, and a reserved key is never reported as an unknown directive |
| `Pipeline.ForceHandlersLast` | src/ApiQueryParser.php:142-150 | every handler after a force handler is a force handler, so force handlers are the tail of the plan |
| `Pipeline.PlanLength` | src/ApiQueryParser.php:104-126 | a successful plan has exactly as many handlers as the non-reserved keys have values |
| `Pipeline.DropKeepsOrder` | src/ApiQueryParser.php:97-100 | dropping keys keeps the relative order of the remaining keys |
| `Pipeline.PlanFollowsRequestOrder` | src/ApiQueryParser.php:106-111 | handlers of keys other than force follow the order in which their keys arrived in the request |
| `Pipeline.NoDirectivesPlainQuery` | src/ApiQueryParser.php:52-60 | a request holding only reserved keys compiles to the model's plain query |
| `Pipeline.UnknownDirectiveIff` | src/ApiQueryParser.php:121-126 | building fails iff some non-reserved request key has no parser and carries at least one value |
| `QueryParser.ApiQueryParser.constructor` | src/ApiQueryParser.php:29-33 | a new parser holds the factory, no handlers and no parsed keys |
| `QueryParser.ApiQueryParser.ParseRequest` | src/ApiQueryParser.php:35-44 | the parsed keys become the gathered request with force moved last, whatever they were before; the handlers are untouched |
| `QueryParser.ApiQueryParser.GatherKeys` | src/ApiQueryParser.php:93-102 | the loop assigns every non-reserved parameter in order and leaves the handlers alone |
| `QueryParser.ApiQueryParser.SortParsedKeys` | src/ApiQueryParser.php:142-150 | the parsed keys become their force-last reordering |
| `QueryParser.ApiQueryParser.BuildParsers` | src/ApiQueryParser.php:46-50 | keeps every existing handler object in place and appends the compiled plan of the parsed keys after them, each a newly allocated object; reports its failure |
| `QueryParser.ApiQueryParser.ParseKeys` | src/ApiQueryParser.php:104-112 | the nested loop only appends newly allocated handlers, one per value in key and value order, and stops at the first unknown directive |
| `QueryParser.ApiQueryParser.ParseKeysFromArray` | src/ApiQueryParser.php:114-119 | appends one newly allocated handler per value in value order, or fails on an unknown name |
| `QueryParser.ApiQueryParser.CallParser` | src/ApiQueryParser.php:121-126 | for a known name, keeps the existing handler objects and appends exactly one newly allocated parsed handler; for an unknown name, fails and changes nothing |
| `QueryParser.ApiQueryParser.BuildQuery` | src/ApiQueryParser.php:52-60 | defaults columns, adds no handler, and returns the fold of the handlers over the model's fresh query |
| `QueryParser.ApiQueryParser.BuildRawQuery` | src/ApiQueryParser.php:128-134 | the loop computes the left fold of addQuery over the handlers, aborting on the first failure |
| `QueryParser.ApiQueryParser.HasPart` | src/ApiQueryParser.php:77-83 | true iff some entry has the key and a non-zero count; an absent key gives false |
| `QueryParser.ApiQueryParser.GetLimit` | src/ApiQueryParser.php:85-91 | 0 when limit is not a part; otherwise element 0 of the stored value (first character of a scalar) |
| `QueryParser.HasPartAfterParse` | src/ApiQueryParser.php:77-83 | after parseRequest a reserved name is never a part; any other name is a part iff the request carries it with a non-zero count |
| `QueryParser.GetLimitAfterParse` | src/ApiQueryParser.php:85-91 | after parseRequest the limit is 0 without a limit parameter or with an empty list, the first item of a non-empty list, and the first character of a scalar |
| `QueryParser.ApiQueryParser.GetLimitIntended` | src/ApiQueryParser.php:85-91 | the corrected limit: 0 when limit is not a part, otherwise the whole first value of the stored parameter |
| `QueryParser.GetLimitIntendedAfterParse` | src/ApiQueryParser.php:85-91 | after parseRequest the corrected limit is 0 without limit values, and otherwise the request's whole first limit value, a scalar included |
| `QueryParser.GetLimitTruncatesScalar` | src/ApiQueryParser.php:90 | for the request `?limit=10`, getLimit yields "1" while the corrected limit is "10" |
| `QueryParser.CompileRequest` | tests/TestCase.php:104-107 | parseRequest, buildParsers and buildQuery on a new parser yield the pipeline's query or its first failure |

## Findings

| source | as written | input that shows it | evidently intended | confidence | as-written member | corrected member |
|---|---|---|---|---|---|---|
| src/ApiQueryParser.php:90 | `$this->parsedKeys['limit'][0]` indexes a scalar parameter as a string and returns its first character | `?limit=10` gives `"1"` | the whole first value, `"10"` | medium, not executed; the error shows only for limits of two or more digits | `QueryParser.GetLimitTruncatesScalar` (about `QueryParser.ApiQueryParser.GetLimit`) | `QueryParser.ApiQueryParser.GetLimitIntended` |

## Left out

- Reading the request (`getQueryParams`, `Request::query()`). The model takes the query-parameter map as input, with unique keys as a PHP array has.
- The getters `getQueryParts`, `getParserFactory` and `getParsedKeys`, and the `return $this` chaining. The fields are read directly, and `CompileRequest` sequences the calls.
- `ParserFactory`, `ParserAbstract` and every parser class other than the two soft-delete ones are not part of this model. The factory is a map from name to handler class, and an absent name fails with `UnknownDirective`; no message is claimed. `parse` and `addQuery` call `tokenizeParameters` and `prepareQuery`. Any other handler keeps its raw argument as its one token and adds one fragment; it never fails.
- The Eloquent builder and SQL execution (`get`, `count`, `paginate`). The builder is an abstract record. The soft-delete scope is set by the last toggle applied; Eloquent's own composition of `onlyTrashed` and `withTrashed` constraints is not modelled.
- `parsedKeys` starts as `null` in PHP and as an empty array here. Every modelled operation treats the two alike.
- PHP-version behaviour: a scalar counts as 1 (PHP 8 throws a TypeError instead), and `getLimit` on a scalar returns its first character, or "" when it is empty.
- Strings are sequences of characters; PHP string offsets are bytes, so "first character" in `GetLimit` agrees with PHP only for ASCII text.
- Null parameter values. `isset` (src/ApiQueryParser.php:54, 79) is false for a key holding `null`, while `array_key_exists` (src/ApiQueryParser.php:144) is true; the model has no null value and treats all three as key presence.
- Integer array keys, the loose comparison of `in_array` (which drops key `0` before PHP 8), nested or associative arrays as values, and `(string)` casts. Keys and values are strings, and multi-values are lists of strings.
- `src/Controllers/ApiController.php`: validation, persistence, JSON responses, mapping exceptions to status 400, and the pagination default that needs `count()`.
