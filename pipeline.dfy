/**
 * The whole request pipeline, `parseRequest` then `buildParsers` then
 * `buildQuery`, and the guarantees it gives end to end: reserved keys never
 * reach the plan, `force` handlers run last, the other handlers keep the
 * request's order, and the plan has one handler per value.
 */
module Pipeline {
  import opened Wrappers
  import opened PhpArrays
  import opened Eloquent
  import opened Parsers
  import opened Directives

  /** The parsed keys `parseRequest` leaves for a request's query parameters. */
  function ParsedKeys(query: OrderedMap): OrderedMap
  {
    ForceLast(Gathered([], query))
  }

  /** The query the chained calls produce, or the failure that aborts them. */
  function CompileQuery(f: Registry, query: OrderedMap, model: Model): Result<Builder, ApiError>
  {
    var p := Compile(f, ParsedKeys(query));
    match p.failure
    case Some(e) => Failure(e)
    case None => ApplyAll(p.handlers, NewQuery(model))
  }

  /** The parsed keys are the request's non-reserved keys with their values, distinct. */
  lemma ParsedKeysEntries(query: OrderedMap, k: string)
    requires DistinctKeys(query)
    ensures DistinctKeys(ParsedKeys(query))
    ensures HasKey(ParsedKeys(query), k) <==> HasKey(query, k) && k !in Reserved
    ensures HasKey(ParsedKeys(query), k) ==> Get(ParsedKeys(query), k) == Get(query, k)
  {
    var g := Gathered([], query);
    GatherKeysFilters(query, k);
    DropHasKey(query, Reserved, k);
    ForceLastKeepsEntries(g, k);
  }

  /** No handler is built for `page`, `per_page` or `paginate`, and none of them can be an unknown directive. */
  lemma ReservedNeverInPlan(f: Registry, query: OrderedMap, i: nat)
    requires DistinctKeys(query)
    ensures i < |Compile(f, ParsedKeys(query)).handlers| ==>
              Compile(f, ParsedKeys(query)).handlers[i].action !in Reserved
    ensures Compile(f, ParsedKeys(query)).failure.Some? ==>
              Compile(f, ParsedKeys(query)).failure.value.UnknownDirective? &&
              Compile(f, ParsedKeys(query)).failure.value.name !in Reserved
  {
    var m := ParsedKeys(query);
    var p := Compile(f, m);
    if i < |p.handlers| {
      CompileActions(f, m, i);
      ParsedKeysEntries(query, p.handlers[i].action);
    }
    if p.failure.Some? {
      CompileOutcome(f, m);
      var j :| 0 <= j < |m| && p.failure == Some(UnknownDirective(m[j].0));
      assert Keys(m)[j] == m[j].0;
      ParsedKeysEntries(query, m[j].0);
    }
  }

  /** Every handler after a `force` handler is a `force` handler too: they form the tail of the plan. */
  lemma ForceHandlersLast(f: Registry, query: OrderedMap, i: nat, j: nat)
    requires DistinctKeys(query)
    requires i < j < |Compile(f, ParsedKeys(query)).handlers|
    requires Compile(f, ParsedKeys(query)).handlers[i].action == ForceKey
    ensures Compile(f, ParsedKeys(query)).handlers[j].action == ForceKey
  {
    var g := Gathered([], query);
    var m := ParsedKeys(query);
    ForceLastPartition(g);
    SourceMonotone(f, m, i, j);
    var x, y := Source(f, m, i), Source(f, m, j);
    assert Keys(m)[x] == ForceKey;
    if !HasKey(g, ForceKey) {
      assert false;
    } else {
      var d := Drop(g, {ForceKey});
      DropLacksKey(g, ForceKey);
      assert m == d + [(ForceKey, Get(g, ForceKey))];
      assert x == |d|;
    }
  }

  /** No entry left by `unset($a[$k])` has key `k`. */
  lemma DropLacksKey(m: OrderedMap, k: string)
    ensures forall t :: 0 <= t < |Drop(m, {k})| ==> Drop(m, {k})[t].0 != k
  {
    var d := Drop(m, {k});
    forall t | 0 <= t < |d| ensures d[t].0 != k {
      assert d[t] in d;
    }
  }

  lemma {:induction false} SumCountsAppend(a: OrderedMap, b: OrderedMap)
    ensures SumCounts(a + b) == SumCounts(a) + SumCounts(b)
  {
    if a == [] {
      assert a + b == b;
    } else {
      assert (a + b)[0] == a[0] && (a + b)[1..] == a[1..] + b;
      SumCountsAppend(a[1..], b);
    }
  }

  lemma {:induction false} SumCountsUnset(m: OrderedMap, k: string)
    requires DistinctKeys(m) && HasKey(m, k)
    ensures SumCounts(m) == SumCounts(Drop(m, {k})) + Count(Get(m, k))
  {
    HasKeyCons(m, k);
    DistinctTail(m);
    if m[0].0 == k {
      DropAbsent(m[1..], {k});
    } else {
      SumCountsUnset(m[1..], k);
      GetCons(m, k);
      SumCountsAppend([m[0]], Drop(m[1..], {k}));
    }
  }

  /** A plan built without failure has exactly one handler per value of a non-reserved key. */
  lemma PlanLength(f: Registry, query: OrderedMap)
    requires DistinctKeys(query)
    requires Compile(f, ParsedKeys(query)).failure.None?
    ensures |Compile(f, ParsedKeys(query)).handlers| == SumCounts(Drop(query, Reserved))
  {
    var g := Gathered([], query);
    GatherKeysFilters(query, ForceKey);
    CompileOutcome(f, ParsedKeys(query));
    ForceLastPartition(g);
    if HasKey(g, ForceKey) {
      SumCountsAppend(Drop(g, {ForceKey}), [(ForceKey, Get(g, ForceKey))]);
      SumCountsUnset(g, ForceKey);
    }
  }

  /** The position in `m` of the entry that `Drop` keeps at position `x'`. */
  function Origin(m: OrderedMap, ks: set<string>, x': nat): (x: nat)
    requires x' < |Drop(m, ks)|
    ensures x < |m| && m[x] == Drop(m, ks)[x']
    decreases |m|
  {
    if m[0].0 in ks then 1 + Origin(m[1..], ks, x')
    else if x' == 0 then 0
    else 1 + Origin(m[1..], ks, x' - 1)
  }

  /** One step of `Origin` past a first entry that `Drop` keeps. */
  lemma OriginKept(m: OrderedMap, ks: set<string>, x': nat)
    requires m != [] && m[0].0 !in ks && 0 < x' < |Drop(m, ks)|
    ensures x' - 1 < |Drop(m[1..], ks)|
    ensures Origin(m, ks, x') == 1 + Origin(m[1..], ks, x' - 1)
  {
  }

  /** Dropping keys keeps the relative order of the entries that remain. */
  lemma {:induction false} OriginMonotone(m: OrderedMap, ks: set<string>, x': nat, y': nat)
    requires x' <= y' < |Drop(m, ks)|
    ensures Origin(m, ks, x') <= Origin(m, ks, y')
    decreases |m|
  {
    var t := m[1..];
    if m[0].0 in ks {
      assert Drop(m, ks) == Drop(t, ks);
      OriginMonotone(t, ks, x', y');
      assert Origin(m, ks, x') == 1 + Origin(t, ks, x');
      assert Origin(m, ks, y') == 1 + Origin(t, ks, y');
    } else if x' != 0 {
      var x1, y1 := x' - 1, y' - 1;
      assert Drop(m, ks) == [m[0]] + Drop(t, ks);
      OriginMonotone(t, ks, x1, y1);
      OriginKept(m, ks, x');
      OriginKept(m, ks, y');
    }
  }

  /**
   * With distinct keys, two entries of `Drop(m, ks)` sit in the same order
   * in `m`.
   */
  lemma DropKeepsOrder(m: OrderedMap, ks: set<string>, x': nat, y': nat, x: nat, y: nat)
    requires DistinctKeys(m)
    requires x' <= y' < |Drop(m, ks)| && x < |m| && y < |m|
    requires Drop(m, ks)[x'].0 == m[x].0 && Drop(m, ks)[y'].0 == m[y].0
    ensures x <= y
  {
    OriginMonotone(m, ks, x', y');
    assert m[Origin(m, ks, x')].0 == m[x].0 && m[Origin(m, ks, y')].0 == m[y].0;
  }

  /**
   * Handlers of keys other than `force` run in the order their keys arrived
   * in the request: the key of an earlier handler sits no later in the query.
   */
  lemma PlanFollowsRequestOrder(f: Registry, query: OrderedMap, i: nat, j: nat, x: nat, y: nat)
    requires DistinctKeys(query)
    requires i < j < |Compile(f, ParsedKeys(query)).handlers|
    requires Compile(f, ParsedKeys(query)).handlers[j].action != ForceKey
    requires x < |query| && query[x].0 == Compile(f, ParsedKeys(query)).handlers[i].action
    requires y < |query| && query[y].0 == Compile(f, ParsedKeys(query)).handlers[j].action
    ensures x <= y
  {
    var g := Gathered([], query);
    var m := ParsedKeys(query);
    GatherKeysFilters(query, ForceKey);
    ForceLastPartition(g);
    SourceMonotone(f, m, i, j);
    var sx, sy := Source(f, m, i), Source(f, m, j);
    assert m[sy].0 != ForceKey;
    var gx, gy;
    if !HasKey(g, ForceKey) {
      gx, gy := sx, sy;
    } else {
      var d := Drop(g, {ForceKey});
      assert m == d + [(ForceKey, Get(g, ForceKey))];
      assert |m| == |d| + 1 && m[|d|].0 == ForceKey;
      assert sy != |d|;
      assert m[sx] == d[sx] && m[sy] == d[sy];
      OriginMonotone(g, {ForceKey}, sx, sy);
      gx, gy := Origin(g, {ForceKey}, sx), Origin(g, {ForceKey}, sy);
    }
    DropKeepsOrder(query, Reserved, gx, gy, x, y);
  }

  /** A request holding only reserved keys compiles to the model's plain query. */
  lemma NoDirectivesPlainQuery(f: Registry, query: OrderedMap, model: Model)
    requires DistinctKeys(query)
    requires forall i :: 0 <= i < |query| ==> query[i].0 in Reserved
    ensures CompileQuery(f, query, model) == Success(NewQuery(model))
  {
    GatherKeysFilters(query, ForceKey);
    var g := Drop(query, Reserved);
    assert Keys(g) == [];
  }

  /**
   * Building the parsers fails exactly when some non-reserved key of the
   * request names no parser and carries at least one value.
   */
  lemma UnknownDirectiveIff(f: Registry, query: OrderedMap)
    requires DistinctKeys(query)
    ensures Compile(f, ParsedKeys(query)).failure.Some? <==>
              exists i :: 0 <= i < |query| && query[i].0 !in Reserved && Fails(f, query[i])
  {
    if Compile(f, ParsedKeys(query)).failure.Some? {
      var j := FailingRequestKey(f, query);
    }
    if exists i :: 0 <= i < |query| && query[i].0 !in Reserved && Fails(f, query[i]) {
      var i :| 0 <= i < |query| && query[i].0 !in Reserved && Fails(f, query[i]);
      FailingKeyFails(f, query, i);
    }
  }

  /** A failing build is caused by a non-reserved request key `query[j]`. */
  lemma FailingRequestKey(f: Registry, query: OrderedMap) returns (j: nat)
    requires DistinctKeys(query)
    requires Compile(f, ParsedKeys(query)).failure.Some?
    ensures j < |query| && query[j].0 !in Reserved && Fails(f, query[j])
  {
    var m := ParsedKeys(query);
    var i := CompileFirstFailure(f, m);
    ParsedKeysEntries(query, ForceKey);
    EntryGet(m, m[i]);
    var k := m[i].0;
    ParsedKeysEntries(query, k);
    EntryIndex(query, k);
    j :| 0 <= j < |query| && query[j] == (k, Get(query, k));
  }

  /** A non-reserved request key that fails makes the build fail. */
  lemma FailingKeyFails(f: Registry, query: OrderedMap, i: nat)
    requires DistinctKeys(query)
    requires i < |query| && query[i].0 !in Reserved && Fails(f, query[i])
    ensures Compile(f, ParsedKeys(query)).failure.Some?
  {
    var m := ParsedKeys(query);
    var k := query[i].0;
    EntryGet(query, query[i]);
    ParsedKeysEntries(query, k);
    EntryIndex(m, k);
    var j :| 0 <= j < |m| && m[j] == (k, Get(m, k));
    assert Fails(f, m[j]);
    CompileSucceeds(f, m);
  }

  /** A present key sits at some position, holding its value. */
  lemma EntryIndex(m: OrderedMap, k: string)
    requires HasKey(m, k)
    ensures exists j :: 0 <= j < |m| && m[j] == (k, Get(m, k))
  {
    var v := Get(m, k);
    assert (k, v) in m;
  }
}
