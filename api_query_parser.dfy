/**
 * `Restive\ApiQueryParser`: the stateful orchestrator. `parsedKeys` is the
 * ordered PHP array of directives, `queryParts` the handler objects built
 * from it. Every method is proved to compute the value-level functions of
 * modules Directives and Pipeline.
 */
module QueryParser {
  import opened Wrappers
  import opened PhpArrays
  import opened Eloquent
  import opened Parsers
  import opened Directives
  import opened Pipeline

  /** A PHP scalar as `getLimit` returns it: the integer 0, or a string. */
  datatype PhpScalar = Int(n: int) | Str(s: string)

  /** The handler values of a sequence of handler objects, in order. */
  function Views(ps: seq<Parser>): (hs: seq<Handler>)
    reads ps
    ensures |hs| == |ps|
  {
    if ps == [] then [] else [ps[0].View()] + Views(ps[1..])
  }

  lemma {:induction false} ViewsAt(ps: seq<Parser>, i: nat)
    requires i < |ps|
    ensures Views(ps)[i] == ps[i].View()
  {
    if i > 0 {
      ViewsAt(ps[1..], i - 1);
    }
  }

  lemma {:induction false} ViewsAppend(ps: seq<Parser>, p: Parser)
    ensures Views(ps + [p]) == Views(ps) + [p.View()]
  {
    if ps != [] {
      assert (ps + [p])[1..] == ps[1..] + [p];
      ViewsAppend(ps[1..], p);
    }
  }

  /** `parseKeys` stops at key `i`: the plan keeps the handlers of the keys before it. */
  lemma ParseStop(f: Registry, keys: OrderedMap, i: nat, start: seq<Handler>, done: seq<Handler>, after: seq<Handler>)
    requires i < |keys| && Compile(f, keys) == Prepend(done, Compile(f, keys[i..]))
    requires CompileValues(f, keys[i].0, Values(keys[i].1)).failure.Some?
    requires after == start + done + CompileValues(f, keys[i].0, Values(keys[i].1)).handlers
    ensures after == start + Compile(f, keys).handlers
    ensures Compile(f, keys).failure == CompileValues(f, keys[i].0, Values(keys[i].1)).failure
  {
    CompileStop(f, keys, i, done);
    assert start + done + [] == start + done;
  }

  /** `parseKeys` past key `i`: its handlers join the plan. */
  lemma ParseAdvance(f: Registry, keys: OrderedMap, i: nat, start: seq<Handler>, done: seq<Handler>, after: seq<Handler>)
    requires i < |keys| && Compile(f, keys) == Prepend(done, Compile(f, keys[i..]))
    requires CompileValues(f, keys[i].0, Values(keys[i].1)).failure.None?
    requires after == start + done + CompileValues(f, keys[i].0, Values(keys[i].1)).handlers
    ensures after == start + (done + CompileValues(f, keys[i].0, Values(keys[i].1)).handlers)
    ensures Compile(f, keys) ==
              Prepend(done + CompileValues(f, keys[i].0, Values(keys[i].1)).handlers, Compile(f, keys[i + 1..]))
  {
    CompileAdvance(f, keys, i, done);
  }

  class ApiQueryParser {
    const parserFactory: Registry
    var queryParts: seq<Parser>
    var parsedKeys: OrderedMap

    /** The plan: the values of the handlers in `queryParts`. */
    /** `parsedKeys` is a PHP array, so its keys are unique. */
    ghost predicate Valid()
      reads this
    {
      DistinctKeys(parsedKeys)
    }

    /**
     * Since the previous state, `queryParts` has only grown: the old handler
     * objects are a prefix and every handler after them is a new object.
     */
    twostate predicate OnlyAppended()
      reads this
    {
      old(queryParts) <= queryParts &&
      forall i :: |old(queryParts)| <= i < |queryParts| ==> fresh(queryParts[i])
    }

    ghost function Plan(): seq<Handler>
      reads this, queryParts
    {
      Views(queryParts)
    }

    constructor (parserFactory: Registry)
      ensures this.parserFactory == parserFactory
      ensures queryParts == [] && parsedKeys == []
      ensures Valid()
    {
      this.parserFactory := parserFactory;
      queryParts := [];
      parsedKeys := [];
    }

    /**
     * `parseRequest`: starts from empty parsed keys, gathers the request's
     * parameters and moves `force` last. The handlers are not touched.
     */
    method ParseRequest(query: OrderedMap)
      requires DistinctKeys(query)
      modifies this
      ensures parsedKeys == ParsedKeys(query)
      ensures queryParts == old(queryParts)
      ensures Valid()
    {
      parsedKeys := [];
      if |query| != 0 {
        GatherKeys(query);
      }
      SortParsedKeys();
      ParsedKeysEntries(query, ForceKey);
    }

    /** `gatherKeys`: assigns every non-reserved parameter, in order. */
    method GatherKeys(query: OrderedMap)
      requires Valid()
      modifies this
      ensures parsedKeys == Gathered(old(parsedKeys), query)
      ensures queryParts == old(queryParts)
      ensures Valid()
    {
      for i := 0 to |query|
        invariant Gathered(old(parsedKeys), query) == Gathered(parsedKeys, query[i..])
        invariant queryParts == old(queryParts)
        invariant Valid()
      {
        assert query[i..][1..] == query[i + 1..];
        var (key, value) := query[i];
        if key in Reserved {
          continue;
        }
        PutDistinct(parsedKeys, key, value);
        parsedKeys := Put(parsedKeys, key, value);
      }
    }

    /** `sortParsedKeys`: unsets `force` and assigns it again, so it becomes the last key. */
    method SortParsedKeys()
      requires Valid()
      modifies this
      ensures parsedKeys == ForceLast(old(parsedKeys))
      ensures queryParts == old(queryParts)
      ensures Valid()
    {
      ForceLastKeepsEntries(parsedKeys, ForceKey);
      if !HasKey(parsedKeys, ForceKey) {
        return;
      }
      var forced := Get(parsedKeys, ForceKey);
      parsedKeys := Unset(parsedKeys, ForceKey);
      parsedKeys := Put(parsedKeys, ForceKey, forced);
    }

    /** `buildParsers`. */
    method BuildParsers() returns (r: Outcome<ApiError>)
      modifies this
      ensures parsedKeys == old(parsedKeys) && (old(Valid()) ==> Valid())
      ensures OnlyAppended()
      ensures Plan() == old(Plan()) + Compile(parserFactory, parsedKeys).handlers
      ensures r == match Compile(parserFactory, parsedKeys).failure
                   case None => Pass
                   case Some(e) => Fail(e)
    {
      r := ParseKeys();
    }

    /**
     * `parseKeys`: appends one handler per value of each key, in key order;
     * an unknown directive stops it, keeping the handlers already appended.
     */
    method ParseKeys() returns (r: Outcome<ApiError>)
      modifies this
      ensures parsedKeys == old(parsedKeys)
      ensures OnlyAppended()
      ensures Plan() == old(Plan()) + Compile(parserFactory, parsedKeys).handlers
      ensures r == match Compile(parserFactory, parsedKeys).failure
                   case None => Pass
                   case Some(e) => Fail(e)
    {
      var keys := parsedKeys;
      ghost var start, done: seq<Handler> := Plan(), [];
      assert keys[0..] == keys;
      for i := 0 to |keys|
        invariant parsedKeys == keys
        invariant OnlyAppended()
        invariant Plan() == start + done
        invariant Compile(parserFactory, keys) == Prepend(done, Compile(parserFactory, keys[i..]))
      {
        var action, parameters := keys[i].0, keys[i].1;
        r := ParseKeysFromArray(action, Values(parameters));
        if r.Fail? {
          ParseStop(parserFactory, keys, i, start, done, Plan());
          return;
        }
        ParseAdvance(parserFactory, keys, i, start, done, Plan());
        done := done + CompileValues(parserFactory, action, Values(parameters)).handlers;
      }
      assert keys[|keys|..] == [];
      r := Pass;
    }

    /** `parseKeysFromArray`: one handler per value, in value order. */
    method ParseKeysFromArray(action: string, parameters: seq<string>) returns (r: Outcome<ApiError>)
      modifies this
      ensures parsedKeys == old(parsedKeys)
      ensures OnlyAppended()
      ensures Plan() == old(Plan()) + CompileValues(parserFactory, action, parameters).handlers
      ensures r == match CompileValues(parserFactory, action, parameters).failure
                   case None => Pass
                   case Some(e) => Fail(e)
    {
      ghost var done: seq<Handler> := [];
      for i := 0 to |parameters|
        invariant parsedKeys == old(parsedKeys)
        invariant OnlyAppended()
        invariant Plan() == old(Plan()) + done
        invariant CompileValues(parserFactory, action, parameters) ==
                  Prepend(done, CompileValues(parserFactory, action, parameters[i..]))
      {
        assert parameters[i..][0] == parameters[i] && parameters[i..][1..] == parameters[i + 1..];
        r := CallParser(action, parameters[i]);
        if r.Fail? {
          assert CompileValues(parserFactory, action, parameters[i..]) == Compiled([], Some(UnknownDirective(action)));
          return;
        }
        ghost var h := NewHandler(action, parserFactory[action], parameters[i]);
        ghost var rest := CompileValues(parserFactory, action, parameters[i + 1..]);
        assert CompileValues(parserFactory, action, parameters[i..]) == Prepend([h], rest);
        PrependTwice(done, [h], rest);
        done := done + [h];
      }
      r := Pass;
    }

    /** `callParser`: a fresh handler from the factory parses the value and is appended. */
    method CallParser(action: string, parameters: string) returns (r: Outcome<ApiError>)
      modifies this
      ensures parsedKeys == old(parsedKeys)
      ensures action in parserFactory ==>
                |queryParts| == |old(queryParts)| + 1 && queryParts[..|old(queryParts)|] == old(queryParts) &&
                r == Pass && Plan() == old(Plan()) + [NewHandler(action, parserFactory[action], parameters)]
      ensures action !in parserFactory ==>
                r == Fail(UnknownDirective(action)) && queryParts == old(queryParts)
      ensures forall i :: |old(queryParts)| <= i < |queryParts| ==> fresh(queryParts[i])
    {
      if action !in parserFactory {
        return Fail(UnknownDirective(action));
      }
      ghost var before := Views(queryParts);
      var parser := new Parser(action, parserFactory[action]);
      parser.Parse(parameters);
      assert Views(queryParts) == before;
      ViewsAppend(queryParts, parser);
      queryParts := queryParts + [parser];
      assert parser.View() == NewHandler(action, parserFactory[action], parameters);
      assert old(Plan()) == before;
      r := Pass;
    }

    /**
     * `buildQuery`: defaults `columns` to every column of the model's table,
     * then folds the already built handlers over `$model->query()`.
     */
    method BuildQuery(model: Model) returns (r: Result<Builder, ApiError>)
      requires Valid()
      modifies this
      ensures Valid()
      ensures parsedKeys == DefaultColumns(old(parsedKeys), model.table)
      ensures queryParts == old(queryParts)
      ensures r == ApplyAll(Plan(), NewQuery(model))
    {
      if !HasKey(parsedKeys, ColumnsKey) {
        PutDistinct(parsedKeys, ColumnsKey, Scalar(model.table + ".*"));
        parsedKeys := Put(parsedKeys, ColumnsKey, Scalar(model.table + ".*"));
      }
      var query := NewQuery(model);
      r := BuildRawQuery(query);
    }

    /** `buildRawQuery`: `addQuery` of every handler, left to right; the first failure aborts. */
    method BuildRawQuery(eloquentQB: Builder) returns (r: Result<Builder, ApiError>)
      ensures r == ApplyAll(Plan(), eloquentQB)
    {
      var qb := eloquentQB;
      for i := 0 to |queryParts|
        invariant ApplyAll(Plan(), eloquentQB) == ApplyAll(Plan()[i..], qb)
      {
        assert Plan()[i..][1..] == Plan()[i + 1..];
        ViewsAt(queryParts, i);
        var step := queryParts[i].AddQuery(qb);
        if step.Failure? {
          return step;
        }
        qb := step.value;
      }
      r := Success(qb);
    }

    /** `hasPart`: the key is set and its value has a non-zero count. */
    function HasPart(part: string): (r: bool)
      reads this
      requires Valid()
      ensures r <==> exists i :: 0 <= i < |parsedKeys| && parsedKeys[i].0 == part && Count(parsedKeys[i].1) != 0
    {
      if !HasKey(parsedKeys, part) then false
      else
        EntryGet(parsedKeys, (part, Get(parsedKeys, part)));
        Count(Get(parsedKeys, part)) != 0
    }

    /** `getLimit`: 0 without a `limit` part, otherwise element 0 of its raw value. */
    function GetLimit(): (r: PhpScalar)
      reads this
      requires Valid()
      ensures !HasPart(LimitKey) ==> r == Int(0)
      ensures HasPart(LimitKey) ==>
                r.Str? &&
                (exists i :: 0 <= i < |parsedKeys| && parsedKeys[i].0 == LimitKey &&
                   match parsedKeys[i].1
                   case Multi(items) => r.s == items[0]
                   case Scalar(text) => r.s == (if text == "" then "" else [text[0]]))
    {
      if !HasPart(LimitKey) then Int(0)
      else
        match Get(parsedKeys, LimitKey)
        case Multi(items) => Str(items[0])
        case Scalar(text) => Str(if text == "" then "" else [text[0]])
    }

    /**
     * What `getLimit` evidently means to return: the first value of the
     * `limit` parameter, a scalar being its own only value.
     */
    function GetLimitIntended(): (r: PhpScalar)
      reads this
      requires Valid()
      ensures !HasPart(LimitKey) ==> r == Int(0)
      ensures HasPart(LimitKey) ==>
                exists i :: 0 <= i < |parsedKeys| && parsedKeys[i].0 == LimitKey &&
                  Values(parsedKeys[i].1) != [] && r == Str(Values(parsedKeys[i].1)[0])
    {
      if !HasPart(LimitKey) then Int(0)
      else
        EntryGet(parsedKeys, (LimitKey, Get(parsedKeys, LimitKey)));
        Str(Values(Get(parsedKeys, LimitKey))[0])
    }
  }

  /**
   * After `parseRequest`, `hasPart` answers for the request's own
   * parameters: a reserved name is never a part, any other is one when the
   * request carries it with a non-zero count.
   */
  lemma HasPartAfterParse(p: ApiQueryParser, query: OrderedMap, part: string)
    requires DistinctKeys(query) && p.parsedKeys == ParsedKeys(query)
    ensures p.Valid()
    ensures p.HasPart(part) <==> part !in Reserved && HasKey(query, part) && Count(Get(query, part)) != 0
  {
    ParsedKeysEntries(query, part);
    if HasKey(p.parsedKeys, part) {
      EntryGet(p.parsedKeys, (part, Get(p.parsedKeys, part)));
    }
    if p.HasPart(part) {
      var i :| 0 <= i < |p.parsedKeys| && p.parsedKeys[i].0 == part && Count(p.parsedKeys[i].1) != 0;
      EntryGet(p.parsedKeys, p.parsedKeys[i]);
    }
  }

  /**
   * After `parseRequest`, `getLimit` is 0 unless the request has a `limit`
   * parameter with values, and then it is the first of them.
   */
  lemma GetLimitAfterParse(p: ApiQueryParser, query: OrderedMap)
    requires DistinctKeys(query) && p.parsedKeys == ParsedKeys(query)
    ensures p.Valid()
    ensures !HasKey(query, LimitKey) ==> p.GetLimit() == Int(0)
    ensures HasKey(query, LimitKey) && Get(query, LimitKey).Multi? && Get(query, LimitKey).items == [] ==>
              p.GetLimit() == Int(0)
    ensures HasKey(query, LimitKey) && Get(query, LimitKey).Multi? && Get(query, LimitKey).items != [] ==>
              p.GetLimit() == Str(Get(query, LimitKey).items[0])
    ensures HasKey(query, LimitKey) && Get(query, LimitKey).Scalar? ==>
              var text := Get(query, LimitKey).text;
              p.GetLimit() == Str(if text == "" then "" else [text[0]])
  {
    HasPartAfterParse(p, query, LimitKey);
    ParsedKeysEntries(query, LimitKey);
    if HasKey(p.parsedKeys, LimitKey) {
      EntryGet(p.parsedKeys, (LimitKey, Get(p.parsedKeys, LimitKey)));
    }
  }

  /**
   * After `parseRequest`, the intended limit is 0 unless the request has a
   * `limit` parameter with values, and then it is the whole first value.
   */
  lemma GetLimitIntendedAfterParse(p: ApiQueryParser, query: OrderedMap)
    requires DistinctKeys(query) && p.parsedKeys == ParsedKeys(query)
    ensures p.Valid()
    ensures !HasKey(query, LimitKey) ==> p.GetLimitIntended() == Int(0)
    ensures HasKey(query, LimitKey) ==>
              if Count(Get(query, LimitKey)) == 0 then p.GetLimitIntended() == Int(0)
              else p.GetLimitIntended() == Str(Values(Get(query, LimitKey))[0])
  {
    HasPartAfterParse(p, query, LimitKey);
    ParsedKeysEntries(query, LimitKey);
    if HasKey(p.parsedKeys, LimitKey) {
      EntryGet(p.parsedKeys, (LimitKey, Get(p.parsedKeys, LimitKey)));
    }
  }

  /**
   * `?limit=10` arrives as the scalar "10"; `getLimit` indexes it as a
   * string and yields "1", where the intended limit is "10".
   */
  lemma GetLimitTruncatesScalar(p: ApiQueryParser)
    requires p.parsedKeys == ParsedKeys([(LimitKey, Scalar("10"))])
    ensures p.Valid()
    ensures p.GetLimit() == Str("1")
    ensures p.GetLimitIntended() == Str("10")
  {
    var query := [(LimitKey, Scalar("10"))];
    assert Keys(query) == [LimitKey];
    GetLimitAfterParse(p, query);
    GetLimitIntendedAfterParse(p, query);
    assert Get(query, LimitKey) == Scalar("10");
  }

  /**
   * The call sequence a controller makes: a new parser, `parseRequest`,
   * `buildParsers`, `buildQuery`. Its result is the pipeline's.
   */
  method CompileRequest(factory: Registry, query: OrderedMap, model: Model) returns (r: Result<Builder, ApiError>)
    requires DistinctKeys(query)
    ensures r == CompileQuery(factory, query, model)
  {
    var parser := new ApiQueryParser(factory);
    parser.ParseRequest(query);
    assert parser.Plan() == [];
    var built := parser.BuildParsers();
    assert parser.Plan() == Compile(factory, ParsedKeys(query)).handlers;
    if built.Fail? {
      return Failure(built.error);
    }
    r := parser.BuildQuery(model);
  }
}
