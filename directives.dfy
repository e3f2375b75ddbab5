/**
 * The directive pipeline as pure functions on values: what `gatherKeys`,
 * `sortParsedKeys`, `parseKeys` and `buildRawQuery` compute, and the
 * properties the pipeline promises about them. The class `ApiQueryParser`
 * (module QueryParser) is proved to compute exactly these.
 */
module Directives {
  import opened Wrappers
  import opened PhpArrays
  import opened Eloquent
  import opened Parsers

  /** Query parameters that belong to pagination, not to directives. */
  const Reserved: set<string> := {"page", "per_page", "paginate"}

  /** The directive whose handlers always run last. */
  const ForceKey := "force"

  const ColumnsKey := "columns"

  const LimitKey := "limit"

  /** `ParserFactory`: directive name to handler class; names not in it are unknown. */
  type Registry = map<string, Kind>

  // ---------------------------------------------------------------- gatherKeys

  /** `gatherKeys`: assigns every non-reserved entry of `query` into `m`, in order. */
  function Gathered(m: OrderedMap, query: OrderedMap): OrderedMap
    decreases |query|
  {
    if query == [] then m
    else Gathered(if query[0].0 in Reserved then m else Put(m, query[0].0, query[0].1), query[1..])
  }

  /** Gathering distinct keys into a map that has none of them appends the non-reserved ones. */
  lemma {:induction false} GatheredAppends(m: OrderedMap, query: OrderedMap)
    requires DistinctKeys(m + query)
    ensures Gathered(m, query) == m + Drop(query, Reserved)
    decreases |query|
  {
    if query != [] {
      var e := query[0];
      assert m + query == (m + [e]) + query[1..];
      if e.0 in Reserved {
        assert DistinctKeys(m + query[1..]) by {
          forall i, j | 0 <= i < j < |m + query[1..]|
            ensures (m + query[1..])[i].0 != (m + query[1..])[j].0
          {
            var i' := if i < |m| then i else i + 1;
            assert (m + query[1..])[i] == (m + query)[i'];
            var j' := if j < |m| then j else j + 1;
            assert (m + query[1..])[j] == (m + query)[j'];
          }
        }
        GatheredAppends(m, query[1..]);
      } else {
        forall i | 0 <= i < |m| ensures Keys(m)[i] != e.0 {
          assert (m + query)[i] == m[i] && (m + query)[|m|] == e;
        }
        PutAppends(m, e.0, e.1);
        GatheredAppends(m + [e], query[1..]);
      }
    }
  }

  /**
   * After `gatherKeys` on an empty map, the parsed keys are the request's
   * entries minus the reserved ones, in arrival order and with their values.
   */
  lemma GatherKeysFilters(query: OrderedMap, k: string)
    requires DistinctKeys(query)
    ensures Gathered([], query) == Drop(query, Reserved)
    ensures DistinctKeys(Gathered([], query))
    ensures k in Reserved ==> !HasKey(Gathered([], query), k)
    ensures k !in Reserved && HasKey(query, k) ==>
              HasKey(Gathered([], query), k) && Get(Gathered([], query), k) == Get(query, k)
  {
    assert [] + query == query;
    GatheredAppends([], query);
    DropHasKey(query, Reserved, k);
    DropDistinct(query, Reserved);
    if k !in Reserved && HasKey(query, k) {
      DropGet(query, Reserved, k);
    }
  }

  // ------------------------------------------------------------ sortParsedKeys

  /** `sortParsedKeys`: `force` is unset and assigned again, so it becomes the last key. */
  function ForceLast(m: OrderedMap): OrderedMap
  {
    if !HasKey(m, ForceKey) then m
    else Put(Unset(m, ForceKey), ForceKey, Get(m, ForceKey))
  }

  /**
   * Without `force` nothing moves; with it, the result is a stable partition:
   * every other entry in its old order, then `force` with its old value.
   */
  lemma ForceLastPartition(m: OrderedMap)
    ensures !HasKey(m, ForceKey) ==> ForceLast(m) == m
    ensures HasKey(m, ForceKey) ==>
              ForceLast(m) == Drop(m, {ForceKey}) + [(ForceKey, Get(m, ForceKey))]
  {
    if HasKey(m, ForceKey) {
      DropHasKey(m, {ForceKey}, ForceKey);
      PutAppends(Unset(m, ForceKey), ForceKey, Get(m, ForceKey));
    }
  }

  /** Reordering keeps every key and its value, and the keys distinct. */
  lemma ForceLastKeepsEntries(m: OrderedMap, k: string)
    requires DistinctKeys(m)
    ensures DistinctKeys(ForceLast(m))
    ensures HasKey(ForceLast(m), k) <==> HasKey(m, k)
    ensures HasKey(m, k) ==> Get(ForceLast(m), k) == Get(m, k)
  {
    if HasKey(m, ForceKey) {
      var u := Unset(m, ForceKey);
      DropDistinct(m, {ForceKey});
      DropHasKey(m, {ForceKey}, k);
      PutDistinct(u, ForceKey, Get(m, ForceKey));
      PutGet(u, ForceKey, Get(m, ForceKey), k);
      if HasKey(m, k) && k != ForceKey {
        DropGet(m, {ForceKey}, k);
      }
    }
  }

  // ------------------------------------------------------------------ parseKeys

  /**
   * The handlers `parseKeys` appends, and the failure that stopped it, if any.
   * On a failure the handlers are those appended before it.
   */
  datatype Compiled = Compiled(handlers: seq<Handler>, failure: Option<ApiError>)

  function Prepend(hs: seq<Handler>, p: Compiled): Compiled
  {
    Compiled(hs + p.handlers, p.failure)
  }

  lemma PrependTwice(a: seq<Handler>, b: seq<Handler>, p: Compiled)
    ensures Prepend(a, Prepend(b, p)) == Prepend(a + b, p)
  {
    assert a + (b + p.handlers) == (a + b) + p.handlers;
  }

  /**
   * `parseKeysFromArray`: one fresh handler per value, in value order; an
   * unknown name fails at its first value, before any handler is appended.
   */
  function CompileValues(f: Registry, action: string, values: seq<string>): (p: Compiled)
    ensures p.failure.Some? <==> action !in f && values != []
    ensures p.failure.Some? ==> p.handlers == [] && p.failure == Some(UnknownDirective(action))
    ensures p.failure.None? ==> |p.handlers| == |values|
  {
    if values == [] then Compiled([], None)
    else if action !in f then Compiled([], Some(UnknownDirective(action)))
    else Prepend([NewHandler(action, f[action], values[0])], CompileValues(f, action, values[1..]))
  }

  /** The handler for value `i` is a fresh handler of the key's class that parsed exactly that value. */
  lemma {:induction false} CompileValuesAt(f: Registry, action: string, values: seq<string>, i: nat)
    requires CompileValues(f, action, values).failure.None? && i < |values|
    ensures action in f
    ensures CompileValues(f, action, values).handlers[i] == NewHandler(action, f[action], values[i])
  {
    if i > 0 {
      CompileValuesAt(f, action, values[1..], i - 1);
    }
  }

  /** `parseKeys`: the values of every key, a scalar counting as one, in key order. */
  function Compile(f: Registry, m: OrderedMap): Compiled
  {
    if m == [] then Compiled([], None)
    else
      var p := CompileValues(f, m[0].0, Values(m[0].1));
      if p.failure.Some? then p else Prepend(p.handlers, Compile(f, m[1..]))
  }

  /** One step of `parseKeys`: key `i` is compiled, then, unless it failed, the keys after it. */
  lemma CompileStep(f: Registry, m: OrderedMap, i: nat)
    requires i < |m|
    ensures Compile(f, m[i..]) ==
              var c := CompileValues(f, m[i].0, Values(m[i].1));
              if c.failure.Some? then c else Prepend(c.handlers, Compile(f, m[i + 1..]))
  {
    assert m[i..][0] == m[i] && m[i..][1..] == m[i + 1..];
  }

  /** `parseKeys` past key `i` when that key's values all compile. */
  lemma CompileAdvance(f: Registry, m: OrderedMap, i: nat, done: seq<Handler>)
    requires i < |m| && Compile(f, m) == Prepend(done, Compile(f, m[i..]))
    requires CompileValues(f, m[i].0, Values(m[i].1)).failure.None?
    ensures Compile(f, m) ==
              Prepend(done + CompileValues(f, m[i].0, Values(m[i].1)).handlers, Compile(f, m[i + 1..]))
  {
    CompileStep(f, m, i);
    PrependTwice(done, CompileValues(f, m[i].0, Values(m[i].1)).handlers, Compile(f, m[i + 1..]));
  }

  /** `parseKeys` stops at key `i` when that key's values fail to compile. */
  lemma CompileStop(f: Registry, m: OrderedMap, i: nat, done: seq<Handler>)
    requires i < |m| && Compile(f, m) == Prepend(done, Compile(f, m[i..]))
    requires CompileValues(f, m[i].0, Values(m[i].1)).failure.Some?
    ensures Compile(f, m) == Compiled(done, CompileValues(f, m[i].0, Values(m[i].1)).failure)
  {
    CompileStep(f, m, i);
    assert done + [] == done;
  }

  /** The number of values of all keys: `count` of each, a scalar counting one. */
  function SumCounts(m: OrderedMap): nat
  {
    if m == [] then 0 else Count(m[0].1) + SumCounts(m[1..])
  }

  /** A key makes `parseKeys` fail when it is unknown and carries at least one value. */
  predicate Fails(f: Registry, e: Entry)
  {
    e.0 !in f && Count(e.1) != 0
  }

  /**
   * `parseKeys` succeeds iff no key fails; it then builds one handler per
   * value. Otherwise it reports the first key that fails, having appended
   * only handlers of keys before it.
   */
  lemma CompileOutcome(f: Registry, m: OrderedMap)
    ensures Compile(f, m).failure.None? <==> forall i :: 0 <= i < |m| ==> !Fails(f, m[i])
    ensures Compile(f, m).failure.None? ==> |Compile(f, m).handlers| == SumCounts(m)
    ensures Compile(f, m).failure.Some? ==>
              exists i :: 0 <= i < |m| && Fails(f, m[i]) &&
                Compile(f, m).failure == Some(UnknownDirective(m[i].0)) &&
                Compile(f, m).handlers == Compile(f, m[..i]).handlers &&
                |Compile(f, m).handlers| == SumCounts(m[..i]) &&
                forall j :: 0 <= j < i ==> !Fails(f, m[j])
  {
    CompileSucceeds(f, m);
    if Compile(f, m).failure.None? {
      CompileCount(f, m);
    } else {
      var i := CompileFirstFailure(f, m);
    }
  }

  /** `parseKeys` succeeds iff no key is unknown while carrying a value. */
  lemma {:induction false} CompileSucceeds(f: Registry, m: OrderedMap)
    ensures Compile(f, m).failure.None? <==> forall i :: 0 <= i < |m| ==> !Fails(f, m[i])
  {
    if m != [] {
      CompileSucceeds(f, m[1..]);
      if Compile(f, m).failure.None? {
        forall i | 0 <= i < |m|
          ensures !Fails(f, m[i])
        {
          if i > 0 {
            assert m[i] == m[1..][i - 1];
          }
        }
      } else if !Fails(f, m[0]) {
        var k :| 0 <= k < |m[1..]| && Fails(f, m[1..][k]);
        assert m[k + 1] == m[1..][k];
      }
    }
  }

  /** A successful `parseKeys` builds one handler per value. */
  lemma {:induction false} CompileCount(f: Registry, m: OrderedMap)
    requires Compile(f, m).failure.None?
    ensures |Compile(f, m).handlers| == SumCounts(m)
  {
    if m != [] {
      CompileCount(f, m[1..]);
    }
  }

  /**
   * A failing `parseKeys` reports the first key that fails, at position `i`,
   * having appended only the handlers of the keys before it.
   */
  lemma {:induction false} CompileFirstFailure(f: Registry, m: OrderedMap) returns (i: nat)
    requires Compile(f, m).failure.Some?
    ensures i < |m| && Fails(f, m[i])
    ensures Compile(f, m).failure == Some(UnknownDirective(m[i].0))
    ensures Compile(f, m).handlers == Compile(f, m[..i]).handlers
    ensures |Compile(f, m).handlers| == SumCounts(m[..i])
    ensures forall j :: 0 <= j < i ==> !Fails(f, m[j])
  {
    if Fails(f, m[0]) {
      assert m[..0] == [];
      return 0;
    }
    var t := m[1..];
    var k := CompileFirstFailure(f, t);
    i := k + 1;
    var p := CompileValues(f, m[0].0, Values(m[0].1));
    assert Compile(f, m) == Prepend(p.handlers, Compile(f, t));
    assert m[..i][1..] == t[..k] && m[..i][0] == m[0];
    assert Compile(f, m[..i]) == Prepend(p.handlers, Compile(f, t[..k]));
    assert SumCounts(m[..i]) == Count(m[0].1) + SumCounts(t[..k]);
    assert m[i] == t[k];
    forall j | 0 <= j < i
      ensures !Fails(f, m[j])
    {
      if j > 0 {
        assert m[j] == t[j - 1];
      }
    }
  }

  /** Every handler is built for a key of the map, by that key's class. */
  lemma {:induction false} CompileActions(f: Registry, m: OrderedMap, i: nat)
    requires i < |Compile(f, m).handlers|
    ensures HasKey(m, Compile(f, m).handlers[i].action)
    ensures Compile(f, m).handlers[i].action in f
    ensures Compile(f, m).handlers[i].kind == f[Compile(f, m).handlers[i].action]
  {
    var p := CompileValues(f, m[0].0, Values(m[0].1));
    var hs := Compile(f, m).handlers;
    HasKeyCons(m, hs[i].action);
    if i < |p.handlers| {
      CompileValuesAt(f, m[0].0, Values(m[0].1), i);
    } else {
      var t, k := m[1..], i - |p.handlers|;
      assert hs == p.handlers + Compile(f, t).handlers;
      assert hs[i] == Compile(f, t).handlers[k];
      CompileActions(f, t, k);
    }
  }

  /** Running `parseKeys` over two maps in a row is running it over their concatenation. */
  lemma {:induction false} CompileAppend(f: Registry, a: OrderedMap, b: OrderedMap)
    ensures Compile(f, a + b) ==
              if Compile(f, a).failure.Some? then Compile(f, a)
              else Prepend(Compile(f, a).handlers, Compile(f, b))
  {
    if a == [] {
      assert a + b == b;
    } else {
      assert (a + b)[0] == a[0] && (a + b)[1..] == a[1..] + b;
      CompileAppend(f, a[1..], b);
      var p := CompileValues(f, a[0].0, Values(a[0].1));
      var t := Compile(f, a[1..]);
      if p.failure.None? && t.failure.None? {
        PrependTwice(p.handlers, t.handlers, Compile(f, b));
      }
    }
  }

  /** The position in `m` of the key that handler `i` was built for. */
  function Source(f: Registry, m: OrderedMap, i: nat): (x: nat)
    requires i < |Compile(f, m).handlers|
    ensures x < |m| && m[x].0 == Compile(f, m).handlers[i].action
    decreases |m|
  {
    var p := CompileValues(f, m[0].0, Values(m[0].1));
    if i < |p.handlers| then
      CompileValuesAt(f, m[0].0, Values(m[0].1), i);
      0
    else
      var rest := Compile(f, m[1..]).handlers;
      assert Compile(f, m).handlers == p.handlers + rest;
      assert Compile(f, m).handlers[i] == rest[i - |p.handlers|];
      1 + Source(f, m[1..], i - |p.handlers|)
  }

  /** One step of `Source`: the handlers of the first key, then those of the rest. */
  lemma SourceStep(f: Registry, m: OrderedMap, i: nat)
    requires i < |Compile(f, m).handlers|
    ensures var n := |CompileValues(f, m[0].0, Values(m[0].1)).handlers|;
      if i < n then Source(f, m, i) == 0
      else i - n < |Compile(f, m[1..]).handlers| && Source(f, m, i) == 1 + Source(f, m[1..], i - n)
  {
  }

  /** Handlers follow the order of the keys they were built for. */
  lemma {:induction false} SourceMonotone(f: Registry, m: OrderedMap, i: nat, j: nat)
    requires i <= j < |Compile(f, m).handlers|
    ensures Source(f, m, i) <= Source(f, m, j)
    decreases |m|
  {
    var n := |CompileValues(f, m[0].0, Values(m[0].1)).handlers|;
    SourceStep(f, m, i);
    SourceStep(f, m, j);
    if i >= n {
      var t, i1, j1 := m[1..], i - n, j - n;
      SourceMonotone(f, t, i1, j1);
    }
  }

  /**
   * With distinct keys, the key of an earlier handler sits no later in the
   * map than the key of a later one.
   */
  lemma CompileOrdered(f: Registry, m: OrderedMap, i: nat, j: nat, x: nat, y: nat)
    requires DistinctKeys(m)
    requires i <= j < |Compile(f, m).handlers| && x < |m| && y < |m|
    requires m[x].0 == Compile(f, m).handlers[i].action && m[y].0 == Compile(f, m).handlers[j].action
    ensures x <= y
  {
    SourceMonotone(f, m, i, j);
    assert m[Source(f, m, i)].0 == m[x].0 && m[Source(f, m, j)].0 == m[y].0;
  }

  // ------------------------------------------------------------- buildRawQuery

  /** `buildRawQuery`: `addQuery` of each handler in turn; the first failure aborts. */
  function ApplyAll(hs: seq<Handler>, b: Builder): Result<Builder, ApiError>
  {
    if hs == [] then Success(b)
    else
      match PrepareQuery(hs[0], b)
      case Failure(e) => Failure(e)
      case Success(b') => ApplyAll(hs[1..], b')
  }

  /** Applying a concatenated plan is applying its parts one after the other. */
  lemma {:induction false} ApplyAllAppend(a: seq<Handler>, c: seq<Handler>, b: Builder)
    ensures ApplyAll(a + c, b) ==
              match ApplyAll(a, b)
              case Failure(e) => Failure(e)
              case Success(b') => ApplyAll(c, b')
  {
    if a == [] {
      assert a + c == c;
    } else {
      assert (a + c)[0] == a[0] && (a + c)[1..] == a[1..] + c;
      match PrepareQuery(a[0], b)
      case Failure(e) =>
      case Success(b') => ApplyAllAppend(a[1..], c, b');
    }
  }

  /** The fragments the handlers other than the soft-delete toggles contribute, in order. */
  function Fragments(hs: seq<Handler>): seq<Fragment>
  {
    if hs == [] then []
    else (if hs[0].kind == OtherParser then [Fragment(hs[0].action, hs[0].tokens)] else []) + Fragments(hs[1..])
  }

  /** The soft-delete scope after the toggles in `hs`: the last one wins. */
  function FinalScope(hs: seq<Handler>, s: Scope): Scope
  {
    if hs == [] then s
    else FinalScope(hs[1..], match hs[0].kind
                             case OnlyTrashedParser => OnlyTrashedRows
                             case WithTrashedParser => IncludeTrashed
                             case OtherParser => s)
  }

  /**
   * The fold fails exactly when the model lacks soft deletes and the plan
   * holds a soft-delete toggle; otherwise it keeps the builder's model,
   * adds every fragment in plan order and leaves the scope of the last toggle.
   */
  lemma {:induction false} ApplyAllOutcome(hs: seq<Handler>, b: Builder)
    ensures ApplyAll(hs, b).Failure? <==>
              !b.softDeletes && exists i :: 0 <= i < |hs| && hs[i].kind != OtherParser
    ensures ApplyAll(hs, b).Failure? ==> ApplyAll(hs, b).error == ApiException(SoftDeleteMessage)
    ensures ApplyAll(hs, b).Success? ==>
              ApplyAll(hs, b).value ==
                Builder(b.table, b.softDeletes, FinalScope(hs, b.scope), b.fragments + Fragments(hs))
  {
    if hs != [] {
      match PrepareQuery(hs[0], b)
      case Failure(e) =>
      case Success(b') =>
        ApplyAllOutcome(hs[1..], b');
        if !b.softDeletes && exists i :: 0 <= i < |hs| && hs[i].kind != OtherParser {
          var i :| 0 <= i < |hs| && hs[i].kind != OtherParser;
          assert hs[1..][i - 1] == hs[i];
        }
        if exists i :: 0 <= i < |hs[1..]| && hs[1..][i].kind != OtherParser {
          var i :| 0 <= i < |hs[1..]| && hs[1..][i].kind != OtherParser;
          assert hs[i + 1] == hs[1..][i];
        }
    }
  }

  // ------------------------------------------------------------------ buildQuery

  /** `buildQuery`'s default: select every column of the model's table unless `columns` is set. */
  function DefaultColumns(m: OrderedMap, table: string): OrderedMap
  {
    if HasKey(m, ColumnsKey) then m else Put(m, ColumnsKey, Scalar(table + ".*"))
  }

  /**
   * Afterwards `columns` is always set; an existing value is kept, otherwise
   * `table.*` is appended as the last key. Defaulting twice changes nothing more.
   */
  lemma DefaultColumnsSpec(m: OrderedMap, table: string, other: string)
    ensures HasKey(DefaultColumns(m, table), ColumnsKey)
    ensures HasKey(m, ColumnsKey) ==> DefaultColumns(m, table) == m
    ensures !HasKey(m, ColumnsKey) ==> DefaultColumns(m, table) == m + [(ColumnsKey, Scalar(table + ".*"))]
    ensures DefaultColumns(DefaultColumns(m, table), other) == DefaultColumns(m, table)
  {
    if !HasKey(m, ColumnsKey) {
      PutAppends(m, ColumnsKey, Scalar(table + ".*"));
      KeysAppend(m, [(ColumnsKey, Scalar(table + ".*"))]);
      assert Keys([(ColumnsKey, Scalar(table + ".*"))]) == [ColumnsKey];
    }
  }
}
