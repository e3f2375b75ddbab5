/**
 * The PHP ordered array used for the parsed query string: a sequence of
 * key/value entries in insertion order. `Put` is `$a[$k] = $v` (replace in
 * place when the key exists, append otherwise) and `Unset` is `unset($a[$k])`.
 */
module PhpArrays {

  /** A query-string value: `?k=v` gives a scalar, `?k[]=a&k[]=b` a list. */
  datatype RawValue = Scalar(text: string) | Multi(items: seq<string>)

  type Entry = (string, RawValue)

  type OrderedMap = seq<Entry>

  /** The keys of `m` in order (`array_keys`). */
  function Keys(m: OrderedMap): (ks: seq<string>)
    ensures |ks| == |m| && forall i :: 0 <= i < |m| ==> ks[i] == m[i].0
  {
    if m == [] then [] else [m[0].0] + Keys(m[1..])
  }

  lemma {:induction false} KeysAppend(a: OrderedMap, b: OrderedMap)
    ensures Keys(a + b) == Keys(a) + Keys(b)
  {
    if a != [] {
      assert (a + b)[1..] == a[1..] + b;
      KeysAppend(a[1..], b);
    }
  }

  /** `array_key_exists($k, $a)`. */
  predicate HasKey(m: OrderedMap, k: string)
  {
    k in Keys(m)
  }

  /** PHP array keys are unique. */
  predicate DistinctKeys(m: OrderedMap)
  {
    forall i, j :: 0 <= i < j < |m| ==> m[i].0 != m[j].0
  }

  /** `$a[$k]` for a key that is present. */
  function Get(m: OrderedMap, k: string): (v: RawValue)
    requires HasKey(m, k)
    ensures (k, v) in m
  {
    if m[0].0 == k then m[0].1 else Get(m[1..], k)
  }

  /** `count($v)`: a list counts its items; a scalar string counts as one. */
  function Count(v: RawValue): nat
  {
    match v
    case Scalar(_) => 1
    case Multi(items) => |items|
  }

  /** `is_array($v) ? $v : [$v]`: the values a key carries, in order. */
  function Values(v: RawValue): (vs: seq<string>)
    ensures |vs| == Count(v)
    ensures v.Multi? ==> vs == v.items
    ensures v.Scalar? ==> vs == [v.text]
  {
    match v
    case Scalar(s) => [s]
    case Multi(items) => items
  }

  /** The entries of `m` whose key is not in `ks`, in their original order. */
  function Drop(m: OrderedMap, ks: set<string>): (r: OrderedMap)
    ensures |r| <= |m|
    ensures forall e :: e in r ==> e in m && e.0 !in ks
  {
    if m == [] then []
    else if m[0].0 in ks then Drop(m[1..], ks)
    else [m[0]] + Drop(m[1..], ks)
  }

  /** `$a[$k] = $v`. */
  function Put(m: OrderedMap, k: string, v: RawValue): (r: OrderedMap)
    ensures |r| == if HasKey(m, k) then |m| else |m| + 1
    ensures (k, v) in r
  {
    if m == [] then [(k, v)]
    else if m[0].0 == k then [(k, v)] + m[1..]
    else [m[0]] + Put(m[1..], k, v)
  }

  /** `unset($a[$k])`. */
  function Unset(m: OrderedMap, k: string): (r: OrderedMap)
    ensures forall e :: e in r ==> e in m && e.0 != k
  {
    Drop(m, {k})
  }

  lemma {:induction false} HasKeyCons(m: OrderedMap, k: string)
    requires m != []
    ensures HasKey(m, k) <==> m[0].0 == k || HasKey(m[1..], k)
  {
    assert Keys(m) == [m[0].0] + Keys(m[1..]);
  }

  lemma DistinctTail(m: OrderedMap)
    requires m != [] && DistinctKeys(m)
    ensures DistinctKeys(m[1..]) && !HasKey(m[1..], m[0].0)
  {
  }

  lemma {:induction false} GetCons(m: OrderedMap, k: string)
    requires m != [] && DistinctKeys(m) && HasKey(m[1..], k)
    ensures HasKey(m, k) && Get(m, k) == Get(m[1..], k)
  {
    HasKeyCons(m, k);
    DistinctTail(m);
  }

  /** Dropping removes exactly the keys in `ks`. */
  lemma {:induction false} DropHasKey(m: OrderedMap, ks: set<string>, k: string)
    ensures HasKey(Drop(m, ks), k) <==> HasKey(m, k) && k !in ks
  {
    if m != [] {
      HasKeyCons(m, k);
      DropHasKey(m[1..], ks, k);
      if m[0].0 !in ks {
        HasKeyCons([m[0]] + Drop(m[1..], ks), k);
        assert ([m[0]] + Drop(m[1..], ks))[1..] == Drop(m[1..], ks);
      }
    }
  }

  /** Dropping keeps the remaining keys distinct. */
  lemma {:induction false} DropDistinct(m: OrderedMap, ks: set<string>)
    requires DistinctKeys(m)
    ensures DistinctKeys(Drop(m, ks))
  {
    if m != [] {
      DistinctTail(m);
      DropDistinct(m[1..], ks);
      var rest := Drop(m[1..], ks);
      if m[0].0 !in ks {
        forall j | 0 <= j < |rest| ensures rest[j].0 != m[0].0 {
          assert rest[j] in rest;
          assert rest[j] in m[1..];
        }
      }
    }
  }

  /** Dropping leaves the value of every remaining key unchanged. */
  lemma {:induction false} DropGet(m: OrderedMap, ks: set<string>, k: string)
    requires DistinctKeys(m) && HasKey(m, k) && k !in ks
    ensures HasKey(Drop(m, ks), k) && Get(Drop(m, ks), k) == Get(m, k)
  {
    DropHasKey(m, ks, k);
    HasKeyCons(m, k);
    DistinctTail(m);
    if m[0].0 != k {
      DropGet(m[1..], ks, k);
      GetCons(m, k);
      if m[0].0 !in ks {
        var r := [m[0]] + Drop(m[1..], ks);
        assert r[1..] == Drop(m[1..], ks);
      }
    }
  }

  /** Dropping keys that are absent changes nothing. */
  lemma {:induction false} DropAbsent(m: OrderedMap, ks: set<string>)
    requires forall k :: k in ks ==> !HasKey(m, k)
    ensures Drop(m, ks) == m
  {
    if m != [] {
      forall k | k in ks ensures !HasKey(m[1..], k) {
        HasKeyCons(m, k);
      }
      HasKeyCons(m, m[0].0);
      DropAbsent(m[1..], ks);
    }
  }

  /** Assigning a new key appends it after every existing key. */
  lemma {:induction false} PutAppends(m: OrderedMap, k: string, v: RawValue)
    requires !HasKey(m, k)
    ensures Put(m, k, v) == m + [(k, v)]
  {
    if m != [] {
      HasKeyCons(m, k);
      PutAppends(m[1..], k, v);
    }
  }

  /** After `$a[$k] = $v` the key `k` holds `v` and every other key keeps its value. */
  lemma {:induction false} PutGet(m: OrderedMap, k: string, v: RawValue, j: string)
    requires DistinctKeys(m)
    ensures HasKey(Put(m, k, v), j) <==> HasKey(m, j) || j == k
    ensures j == k ==> Get(Put(m, k, v), j) == v
    ensures j != k && HasKey(m, j) ==> Get(Put(m, k, v), j) == Get(m, j)
  {
    var r := Put(m, k, v);
    if m == [] {
      assert Keys(r) == [k];
    } else {
      HasKeyCons(m, j);
      HasKeyCons(r, j);
      DistinctTail(m);
      if m[0].0 == k {
        assert r[1..] == m[1..];
      } else {
        assert r[1..] == Put(m[1..], k, v);
        PutGet(m[1..], k, v, j);
      }
    }
  }

  /** Assigning a key keeps the keys distinct. */
  lemma {:induction false} PutDistinct(m: OrderedMap, k: string, v: RawValue)
    requires DistinctKeys(m)
    ensures DistinctKeys(Put(m, k, v))
  {
    if m != [] {
      DistinctTail(m);
      if m[0].0 != k {
        PutDistinct(m[1..], k, v);
        var rest := Put(m[1..], k, v);
        forall j | 0 <= j < |rest| ensures rest[j].0 != m[0].0 {
          var key := rest[j].0;
          assert Keys(rest)[j] == key;
          PutGet(m[1..], k, v, key);
        }
        ConsDistinct(m[0], rest);
      }
    }
  }

  lemma ConsDistinct(e: Entry, m: OrderedMap)
    requires DistinctKeys(m) && forall j :: 0 <= j < |m| ==> m[j].0 != e.0
    ensures DistinctKeys([e] + m)
  {
    var r := [e] + m;
    forall i, j | 0 <= i < j < |r| ensures r[i].0 != r[j].0 {
      assert r[j] == m[j - 1];
      if i > 0 {
        assert r[i] == m[i - 1];
      }
    }
  }

  /**
   * Re-assigning an existing key leaves it where it is: the entry at its
   * position takes the new value and no other entry moves or changes.
   */
  lemma {:induction false} PutInPlace(m: OrderedMap, k: string, v: RawValue)
    requires DistinctKeys(m) && HasKey(m, k)
    ensures |Put(m, k, v)| == |m|
    ensures forall i :: 0 <= i < |m| ==> Put(m, k, v)[i] == (if m[i].0 == k then (k, v) else m[i])
    ensures Drop(Put(m, k, v), {k}) == Drop(m, {k})
  {
    HasKeyCons(m, k);
    DistinctTail(m);
    var r := Put(m, k, v);
    if m[0].0 == k {
      assert r == [(k, v)] + m[1..];
      forall i | 1 <= i < |m| ensures m[i].0 != k {
        assert m[0].0 != m[i].0;
      }
    } else {
      PutInPlace(m[1..], k, v);
      assert r == [m[0]] + Put(m[1..], k, v);
      forall i | 1 <= i < |m| ensures r[i] == (if m[i].0 == k then (k, v) else m[i]) {
        assert r[i] == Put(m[1..], k, v)[i - 1] && m[i] == m[1..][i - 1];
      }
    }
  }

  /** In a map with distinct keys, an entry's key looks up the entry's value. */
  lemma {:induction false} EntryGet(m: OrderedMap, e: Entry)
    requires DistinctKeys(m) && e in m
    ensures HasKey(m, e.0) && Get(m, e.0) == e.1
  {
    HasKeyCons(m, e.0);
    if m[0] != e {
      DistinctTail(m);
      EntryGet(m[1..], e);
      GetCons(m, e.0);
    }
  }
}
