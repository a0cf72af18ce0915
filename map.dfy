/**
 * The immutable string-keyed map of Sources/zenith/foundation/Map.swift.
 *
 * A Swift `Map` is a struct around a private `[String: Any]`. The operations
 * that change the map copy that dictionary, change the copy and wrap it in a
 * new `Map`; the others return a value, or the receiver with a value; none
 * changes the receiver. Dafny's `map<string, V>` is such a value already: each
 * function below takes the receiver as a value. `V` stands for Swift's `Any`,
 * `Option<V>` for `Any?`. Operations that return the receiver alongside a
 * result in Swift (`get`, `getLazy`, `hasKey`, `keys`, `values`, `toList`)
 * return the same pair here; `putNew` and `putNewLazy` return the receiver
 * itself when the key is present.
 */
module Map {
  import opened Optional

  /** `a` and `b` agree on every key other than `key`. */
  ghost predicate SameExcept<V>(a: map<string, V>, b: map<string, V>, key: string)
  {
    forall k :: k != key ==> (k in a <==> k in b) && (k in a ==> a[k] == b[k])
  }

  /** `init()`: the empty map. */
  function Empty<V>(): (m: map<string, V>)
    ensures |m| == 0
    ensures forall k :: k !in m
  {
    map[]
  }

  /** `init(_ context:)`: a map with exactly the entries of a dictionary. */
  function FromContext<V>(context: map<string, V>): (m: map<string, V>)
    ensures m.Keys == context.Keys
    ensures forall k :: k in m ==> m[k] == context[k]
  {
    map k | k in context :: context[k]
  }

  /**
   * `init(_ list:)`: folds the dictionaries left to right with
   * `merge { $1 }`, so a later dictionary wins on a shared key
   * (FromListKeys, FromListLaterWins).
   */
  function FromList<V>(list: seq<map<string, V>>): (m: map<string, V>)
    ensures forall i, k :: 0 <= i < |list| && k in list[i] ==> k in m
    ensures list != [] ==> forall k :: k in list[|list| - 1] ==> m[k] == list[|list| - 1][k]
  {
    if list == [] then map[]
    else FromList(list[..|list| - 1]) + list[|list| - 1]
  }

  /** The list initialiser holds exactly the keys some dictionary of the list holds. */
  lemma {:induction false} FromListKeys<V>(list: seq<map<string, V>>, k: string)
    ensures k in FromList(list) <==> exists i :: 0 <= i < |list| && k in list[i]
  {
    if list != [] {
      var init := list[..|list| - 1];
      FromListKeys(init, k);
      if k in FromList(init) {
        var i :| 0 <= i < |init| && k in init[i];
        assert list[i] == init[i];
      }
      if exists i :: 0 <= i < |list| && k in list[i] {
        var i :| 0 <= i < |list| && k in list[i];
        if i < |init| {
          assert init[i] == list[i];
        }
      }
    }
  }

  /** The value under a key comes from the last dictionary of the list that holds it. */
  lemma {:induction false} FromListLaterWins<V>(list: seq<map<string, V>>, i: int, k: string)
    requires 0 <= i < |list| && k in list[i]
    requires forall j :: i < j < |list| ==> k !in list[j]
    ensures k in FromList(list) && FromList(list)[k] == list[i][k]
  {
    if i < |list| - 1 {
      var init := list[..|list| - 1];
      assert k !in list[|list| - 1];
      FromListLaterWins(init, i, k);
    }
  }

  /**
   * `init(_ list:transform:)`: each element becomes a (key, value) pair that
   * is assigned in list order, so a later pair wins on a shared key
   * (FromTransformKeys, FromTransformLaterWins).
   */
  function FromTransform<A, V>(list: seq<A>, transform: A -> (string, V)): (m: map<string, V>)
    ensures forall i :: 0 <= i < |list| ==> transform(list[i]).0 in m
    ensures list != [] ==> m[transform(list[|list| - 1]).0] == transform(list[|list| - 1]).1
  {
    if list == [] then map[]
    else
      var pair := transform(list[|list| - 1]);
      FromTransform(list[..|list| - 1], transform)[pair.0 := pair.1]
  }

  /** The transforming initialiser holds exactly the keys of the transformed elements. */
  lemma {:induction false} FromTransformKeys<A, V>(list: seq<A>, transform: A -> (string, V), k: string)
    ensures k in FromTransform(list, transform) <==> exists i :: 0 <= i < |list| && transform(list[i]).0 == k
  {
    if list != [] {
      var init := list[..|list| - 1];
      FromTransformKeys(init, transform, k);
      if k in FromTransform(init, transform) {
        var i :| 0 <= i < |init| && transform(init[i]).0 == k;
        assert list[i] == init[i];
      }
      if exists i :: 0 <= i < |list| && transform(list[i]).0 == k {
        var i :| 0 <= i < |list| && transform(list[i]).0 == k;
        if i < |init| {
          assert init[i] == list[i];
        }
      }
    }
  }

  /** The value under a key comes from the last element transformed to that key. */
  lemma {:induction false} FromTransformLaterWins<A, V>(list: seq<A>, transform: A -> (string, V), i: int)
    requires 0 <= i < |list|
    requires forall j :: i < j < |list| ==> transform(list[j]).0 != transform(list[i]).0
    ensures var pair := transform(list[i]);
      pair.0 in FromTransform(list, transform) && FromTransform(list, transform)[pair.0] == pair.1
  {
    if i < |list| - 1 {
      var init := list[..|list| - 1];
      assert transform(list[|list| - 1]).0 != transform(list[i]).0;
      assert forall j :: i < j < |init| ==> init[j] == list[j];
      FromTransformLaterWins(init, transform, i);
      assert init[i] == list[i];
    }
  }

  /** `count`: the number of entries. */
  function Count<V>(m: map<string, V>): (n: nat)
    ensures n == 0 <==> m == map[]
  {
    |m|
  }

  /** `delete`: `key` is gone, every other entry stays; an absent key is no error. */
  function Delete<V>(m: map<string, V>, key: string): (r: map<string, V>)
    ensures key !in r
    ensures SameExcept(r, m, key)
  {
    m - {key}
  }

  /** `drop`: keeps exactly the entries whose key is not listed. */
  function Drop<V>(m: map<string, V>, keys: seq<string>): (r: map<string, V>)
    ensures forall k :: k in r <==> k in m && k !in keys
    ensures forall k :: k in r ==> r[k] == m[k]
  {
    map k | k in m && k !in keys :: m[k]
  }

  /** `equal`: the same keys with equal values. */
  function Equal<V(==)>(a: map<string, V>, b: map<string, V>): (r: bool)
    ensures r <==> a.Keys == b.Keys && forall k :: k in a ==> a[k] == b[k]
  {
    a == b
  }

  /** `fetch`: the value under `key`; an absent key is a fatal KeyError. */
  function Fetch<V>(m: map<string, V>, key: string): (v: V)
    requires key in m
    ensures v == m[key]
  {
    m[key]
  }

  /** `get`: the value under `key`, or `default` when it is absent. */
  function Get<V>(m: map<string, V>, key: string, default: Option<V>): (r: (map<string, V>, Option<V>))
    ensures r.0 == m
    ensures key in m ==> r.1 == Some(m[key])
    ensures key !in m ==> r.1 == default
  {
    if key in m then (m, Some(m[key])) else (m, default)
  }

  /**
   * `getAndUpdate`: stores `fun(old)` under `key`; assigning a `nil` result
   * removes the key. An absent key is a fatal KeyError.
   */
  function GetAndUpdate<V>(m: map<string, V>, key: string, fun: V -> Option<V>): (r: map<string, V>)
    requires key in m
    ensures fun(m[key]).Some? ==> key in r && r[key] == fun(m[key]).value
    ensures fun(m[key]).None? ==> key !in r
    ensures SameExcept(r, m, key)
  {
    match fun(m[key])
    case Some(v) => m[key := v]
    case None => m - {key}
  }

  /** `getLazy`: the value under `key`, or what the supplier returns when it is absent. */
  function GetLazy<V>(m: map<string, V>, key: string, fun: () -> Option<V>): (r: (map<string, V>, Option<V>))
    ensures r.0 == m
    ensures key in m ==> r.1 == Some(m[key])
    ensures key !in m ==> r.1 == fun()
  {
    if key in m then (m, Some(m[key])) else (m, fun())
  }

  /** `hasKey`. */
  function HasKey<V>(m: map<string, V>, key: string): (r: (map<string, V>, bool))
    ensures r.0 == m
    ensures r.1 <==> key in m
  {
    (m, key in m)
  }

  /** Some key of a non-empty map. */
  ghost function AnyKey<V>(m: map<string, V>): (k: string)
    requires m != map[]
    ensures k in m
  {
    var k :| k in m; k
  }

  /**
   * The entries of `m` in the dictionary's iteration order. Swift leaves that
   * order unspecified; the model fixes one by choice and only states, in
   * EntriesEnumerate, that every entry occurs exactly once.
   */
  ghost function Entries<V>(m: map<string, V>): seq<(string, V)>
    decreases |m|
  {
    if m == map[] then []
    else
      var k := AnyKey(m);
      [(k, m[k])] + Entries(m - {k})
  }

  /** `list` holds every entry of `m` exactly once. */
  ghost predicate Enumerates<V>(m: map<string, V>, list: seq<(string, V)>)
  {
    && |list| == |m|
    && (forall i :: 0 <= i < |list| ==> list[i].0 in m && list[i].1 == m[list[i].0])
    && (forall i, j :: 0 <= i < j < |list| ==> list[i].0 != list[j].0)
    && (forall k :: k in m ==> exists i :: 0 <= i < |list| && list[i].0 == k)
  }

  lemma {:induction false} EntriesEnumerate<V>(m: map<string, V>)
    ensures Enumerates(m, Entries(m))
    decreases |m|
  {
    if m != map[] {
      var k := AnyKey(m);
      var rest := m - {k};
      assert rest.Keys == m.Keys - {k};
      EntriesEnumerate(rest);
      var tail := Entries(rest);
      var list := Entries(m);
      assert list == [(k, m[k])] + tail;
      forall i | 0 <= i < |list|
        ensures list[i].0 in m && list[i].1 == m[list[i].0]
      {
        if i > 0 {
          assert list[i] == tail[i - 1];
        }
      }
      forall i, j | 0 <= i < j < |list|
        ensures list[i].0 != list[j].0
      {
        assert list[j] == tail[j - 1];
        if i > 0 {
          assert list[i] == tail[i - 1];
        }
      }
      forall k' | k' in m
        ensures exists i :: 0 <= i < |list| && list[i].0 == k'
      {
        if k' == k {
          assert list[0].0 == k';
        } else {
          assert k' in rest;
          var i :| 0 <= i < |tail| && tail[i].0 == k';
          assert list[i + 1].0 == k';
        }
      }
    }
  }

  /** `keys`: every key once. */
  ghost function Keys<V>(m: map<string, V>): (r: (map<string, V>, seq<string>))
    ensures r.0 == m
    ensures |r.1| == |m|
    ensures forall k :: k in m <==> k in r.1
    ensures forall i, j :: 0 <= i < j < |r.1| ==> r.1[i] != r.1[j]
  {
    var list := Entries(m);
    EntriesEnumerate(m);
    var ks := seq(|list|, i requires 0 <= i < |list| => list[i].0);
    assert forall k :: k in m ==> k in ks by {
      forall k | k in m ensures k in ks {
        var i :| 0 <= i < |list| && list[i].0 == k;
        assert ks[i] == k;
      }
    }
    (m, ks)
  }

  /** `values`: one value per entry, in the same order as `keys`. */
  ghost function Values<V>(m: map<string, V>): (r: (map<string, V>, seq<V>))
    ensures r.0 == m
    ensures |r.1| == |m|
    ensures forall i :: 0 <= i < |r.1| ==> r.1[i] == m[Keys(m).1[i]]
  {
    var list := Entries(m);
    EntriesEnumerate(m);
    (m, seq(|list|, i requires 0 <= i < |list| => list[i].1))
  }

  /**
   * `merge`. Without a resolver the right map wins on a shared key. With one,
   * the source folds over the LEFT map only and fetches every key from both
   * sides: a left key missing on the right is a fatal KeyError, and keys only
   * the right map holds are dropped.
   */
  function Merge<V>(a: map<string, V>, b: map<string, V>, fun: Option<(string, V, V) -> V>): (r: map<string, V>)
    requires fun.Some? ==> a.Keys <= b.Keys
    ensures fun.None? ==> r.Keys == a.Keys + b.Keys
    ensures fun.None? ==> forall k :: k in b ==> r[k] == b[k]
    ensures fun.None? ==> forall k :: k in a && k !in b ==> r[k] == a[k]
    ensures fun.Some? ==> r.Keys == a.Keys
    ensures fun.Some? ==> forall k :: k in a ==> r[k] == fun.value(k, a[k], b[k])
  {
    match fun
    case None => a + b
    case Some(f) => map k | k in a :: f(k, a[k], b[k])
  }

  /** `pop`: removes `key` and returns its value, or `default` (and the same map) when absent. */
  function Pop<V>(m: map<string, V>, key: string, default: Option<V>): (r: (map<string, V>, Option<V>))
    ensures key !in r.0
    ensures SameExcept(r.0, m, key)
    ensures r.1 == if key in m then Some(m[key]) else default
  {
    if key !in m then (m, default)
    else (m - {key}, Some(m[key]))
  }

  /** `popLazy`: as `pop`, with the supplier's value when `key` is absent. */
  function PopLazy<V>(m: map<string, V>, key: string, fun: () -> Option<V>): (r: (map<string, V>, Option<V>))
    ensures key !in r.0
    ensures SameExcept(r.0, m, key)
    ensures r.1 == if key in m then Some(m[key]) else fun()
  {
    if key !in m then (m, fun())
    else Pop(m, key, None)
  }

  /** `put`: `key` now maps to `value`; every other entry stays. */
  function Put<V>(m: map<string, V>, key: string, value: V): (r: map<string, V>)
    ensures key in r && r[key] == value
    ensures SameExcept(r, m, key)
  {
    m[key := value]
  }

  /** `putNew`: the same map when `key` is present, `put` otherwise. */
  function PutNew<V>(m: map<string, V>, key: string, value: V): (r: map<string, V>)
    ensures key in m ==> r == m
    ensures key !in m ==> r == Put(m, key, value)
  {
    if HasKey(m, key).1 then m else Put(m, key, value)
  }

  /** `putNewLazy`: the same map when `key` is present, `put` of the supplier's value otherwise. */
  function PutNewLazy<V>(m: map<string, V>, key: string, fun: () -> V): (r: map<string, V>)
    ensures key in m ==> r == m
    ensures key !in m ==> r == Put(m, key, fun())
  {
    if HasKey(m, key).1 then m else m[key := fun()]
  }

  /** `replace`: `put` on a key that must be present (fatal KeyError otherwise). */
  function Replace<V>(m: map<string, V>, key: string, value: V): (r: map<string, V>)
    requires key in m
    ensures r.Keys == m.Keys
    ensures r == Put(m, key, value)
  {
    Put(m, key, value)
  }

  /** `take`: keeps exactly the entries whose key is listed. */
  function Take<V>(m: map<string, V>, keys: seq<string>): (r: map<string, V>)
    ensures forall k :: k in r <==> k in m && k in keys
    ensures forall k :: k in r ==> r[k] == m[k]
  {
    map k | k in m && k in keys :: m[k]
  }

  /**
   * `split`: walks `keys`, moving each key still present from the remaining
   * map into the split-off map; absent and repeated keys are skipped.
   */
  method Split<V>(m: map<string, V>, keys: seq<string>) returns (rest: map<string, V>, taken: map<string, V>)
    ensures rest == Drop(m, keys)
    ensures taken == Take(m, keys)
  {
    rest, taken := m, map[];
    for i := 0 to |keys|
      invariant rest == Drop(m, keys[..i])
      invariant taken == Take(m, keys[..i])
    {
      var key := keys[i];
      assert keys[..i + 1] == keys[..i] + [key];
      if key in rest {
        taken := taken[key := rest[key]];
        rest := rest - {key};
      }
    }
    assert keys[..|keys|] == keys;
  }

  /** `toList`: one (key, value) pair per entry. */
  ghost function ToList<V>(m: map<string, V>): (r: (map<string, V>, seq<(string, V)>))
    ensures r.0 == m
    ensures Enumerates(m, r.1)
  {
    EntriesEnumerate(m);
    (m, Entries(m))
  }

  /** `update(_:key:fun:)`: stores `fun(old)` under a key that must be present. */
  function Update<V>(m: map<string, V>, key: string, fun: V -> V): (r: map<string, V>)
    requires key in m
    ensures r.Keys == m.Keys
    ensures r[key] == fun(m[key])
    ensures SameExcept(r, m, key)
  {
    m[key := fun(m[key])]
  }

  /** `update(_:key:initial:fun:)`: stores `fun(old ?? initial)`; the key is always present afterwards. */
  function UpdateWithInitial<V>(m: map<string, V>, key: string, initial: V, fun: V -> V): (r: map<string, V>)
    ensures key in r
    ensures r[key] == fun(if key in m then m[key] else initial)
    ensures SameExcept(r, m, key)
  {
    var value := if key in m then m[key] else initial;
    m[key := fun(value)]
  }

  // Properties relating several operations.

  /** A put is visible to `hasKey` and `fetch`, and leaves the count one higher exactly when the key is new. */
  lemma PutThenFetch<V>(m: map<string, V>, key: string, value: V)
    ensures HasKey(Put(m, key, value), key).1
    ensures Fetch(Put(m, key, value), key) == value
    ensures Count(Put(m, key, value)) == if key in m then Count(m) else Count(m) + 1
  {
  }

  /** On an absent key `get` returns the default, `hasKey` is false and `delete` changes nothing. */
  lemma AbsentKey<V>(m: map<string, V>, key: string, default: Option<V>)
    requires key !in m
    ensures Get(m, key, default) == (m, default)
    ensures !HasKey(m, key).1
    ensures Delete(m, key) == m
  {
  }

  /** `delete` is idempotent and lowers the count by one exactly when the key was present. */
  lemma DeleteIdempotent<V>(m: map<string, V>, key: string)
    ensures Delete(Delete(m, key), key) == Delete(m, key)
    ensures Count(Delete(m, key)) == if key in m then Count(m) - 1 else Count(m)
  {
  }

  /**
   * The two halves of `split` have disjoint keys and, merged back without a
   * resolver, give the original map.
   */
  lemma SplitReassembles<V>(m: map<string, V>, keys: seq<string>)
    ensures Drop(m, keys).Keys !! Take(m, keys).Keys
    ensures Merge(Drop(m, keys), Take(m, keys), None) == m
  {
  }

  /** Rebuilding a map from its `toList` pairs gives a map `equal` to it. */
  lemma {:induction false} ToListRoundTrip<V>(m: map<string, V>)
    ensures Equal(FromTransform(ToList(m).1, (p: (string, V)) => p), m)
  {
    var list := ToList(m).1;
    var id := (p: (string, V)) => p;
    var r := FromTransform(list, id);
    forall k | k in m
      ensures k in r && r[k] == m[k]
    {
      var i :| 0 <= i < |list| && list[i].0 == k;
      FromTransformLaterWins(list, id, i);
    }
    forall k | k in r
      ensures k in m
    {
      FromTransformKeys(list, id, k);
    }
  }
}
