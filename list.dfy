/**
 * The sequence helpers of Sources/zenith/foundation/List.swift.
 *
 * A Swift `List` is a struct around a private `[Any]`; every static operation
 * returns a new value. The model works on `seq<T>`, with Dafny equality in
 * place of `AnyObject.isEqual` and `Option<T>` for `Any?`. The key operations
 * cast the list to `[(String, Any)]`; here they take `seq<(string, V)>`, so
 * that cast cannot fail. A Swift trap (index out of range, an invalid range
 * `0...n` with `n < 0`, a failed `guard` followed by `fatalError()`) is a
 * precondition. Several operations do something other than what their doc
 * comments say; each is modelled as the code behaves.
 */
module List {
  import opened Optional

  /** `objectAtIndex`: the element at `index`, which must be in range. */
  function ObjectAtIndex<T>(list: seq<T>, index: int): (r: (seq<T>, T))
    requires 0 <= index < |list|
    ensures r.0 == list
    ensures r.1 == list[index]
  {
    (list, list[index])
  }

  /**
   * `delete(_:item:)`: the filter keeps the elements EQUAL to `item`, in their
   * order; the result is `item` repeated as often as it occurs in `list`.
   */
  function DeleteItem<T(==)>(list: seq<T>, item: T): (r: seq<T>)
    ensures |r| == multiset(list)[item]
    ensures forall i :: 0 <= i < |r| ==> r[i] == item
  {
    if list == [] then []
    else
      assert list == [list[0]] + list[1..];
      if list[0] == item then [list[0]] + DeleteItem(list[1..], item)
      else DeleteItem(list[1..], item)
  }

  /** `delete(_:at:)`: removes the element at `at`, which must be in range. */
  function DeleteAt<T>(list: seq<T>, at: int): (r: seq<T>)
    requires 0 <= at < |list|
    ensures |r| == |list| - 1
    ensures forall i :: 0 <= i < at ==> r[i] == list[i]
    ensures forall i :: at <= i < |r| ==> r[i] == list[i + 1]
  {
    list[..at] + list[at + 1..]
  }

  /**
   * `duplicate`: the loop runs over `0...times`, so it appends `times + 1`
   * copies; a negative `times` is an invalid range and traps.
   */
  method Duplicate<T>(value: T, times: int) returns (r: seq<T>)
    requires times >= 0
    ensures |r| == times + 1
    ensures forall i :: 0 <= i < |r| ==> r[i] == value
  {
    r := [];
    for n := 0 to times + 1
      invariant |r| == n
      invariant forall i :: 0 <= i < |r| ==> r[i] == value
    {
      r := r + [value];
    }
  }

  /** `first`: the first element, or `nil` for an empty list. */
  function First<T>(list: seq<T>): (r: (seq<T>, Option<T>))
    ensures r.0 == list
    ensures r.1.Some? <==> |list| > 0
    ensures r.1.Some? ==> r.1.value == list[0]
  {
    if list == [] then (list, None) else (list, Some(list[0]))
  }

  /**
   * `flatten(_:)`: `compactMap { $0 }` over `[Any]` wraps every element in a
   * non-nil optional and unwraps it again, so nothing is flattened or dropped:
   * the result is the list itself.
   */
  function Flatten<T>(list: seq<T>): (r: seq<T>)
    ensures r == list
  {
    list
  }

  /** `flatten(_:tail:)`: the flattened list followed by `tail`. */
  function FlattenTail<T>(list: seq<T>, tail: seq<T>): (r: seq<T>)
    ensures |r| == |list| + |tail|
    ensures r[..|list|] == list && r[|list|..] == tail
  {
    Flatten(list) + tail
  }

  /** `fold`: `reduce(accumulator, fun)`, a left fold starting from the accumulator. */
  function Fold<A, T>(list: seq<T>, accumulator: A, fun: (A, T) -> A): (r: A)
    ensures list != [] ==> r == fun(Fold(list[..|list| - 1], accumulator, fun), list[|list| - 1])
  {
    if list == [] then accumulator
    else
      assert list[1..] != [] ==> list[..|list| - 1][1..] == list[1..][..|list[1..]| - 1];
      Fold(list[1..], fun(accumulator, list[0]), fun)
  }

  /** Folding one more element applies `fun` to the fold so far and that element. */
  lemma {:induction false} FoldAppend<A, T>(list: seq<T>, x: T, accumulator: A, fun: (A, T) -> A)
    ensures Fold(list + [x], accumulator, fun) == fun(Fold(list, accumulator, fun), x)
  {
    if list != [] {
      assert (list + [x])[1..] == list[1..] + [x];
      FoldAppend(list[1..], x, fun(accumulator, list[0]), fun);
    }
  }

  /** `insertAt`: inserts `value` before position `index`, which may be `|list|`. */
  function InsertAt<T>(list: seq<T>, index: int, value: T): (r: seq<T>)
    requires 0 <= index <= |list|
    ensures |r| == |list| + 1
    ensures r[index] == value
    ensures forall i :: 0 <= i < index ==> r[i] == list[i]
    ensures forall i :: index < i < |r| ==> r[i] == list[i - 1]
  {
    list[..index] + [value] + list[index..]
  }

  /** Deleting what was just inserted gives the list back. */
  lemma InsertThenDelete<T>(list: seq<T>, index: int, value: T)
    requires 0 <= index <= |list|
    ensures DeleteAt(InsertAt(list, index, value), index) == list
  {
  }

  /**
   * Reading at the index just inserted at yields the inserted value, and
   * reading below it yields what was there before.
   */
  lemma InsertThenObjectAt<T>(list: seq<T>, index: int, value: T)
    requires 0 <= index <= |list|
    ensures ObjectAtIndex(InsertAt(list, index, value), index).1 == value
    ensures forall j :: 0 <= j < index ==>
      ObjectAtIndex(InsertAt(list, index, value), j).1 == ObjectAtIndex(list, j).1
  {
  }

  /** Some pair of `list` has key `key`. */
  ghost predicate HasPairWithKey<V>(list: seq<(string, V)>, key: string)
  {
    exists i :: 0 <= i < |list| && list[i].0 == key
  }

  /** `i` is the first index whose pair has key `key` (`firstIndex(where:)`). */
  ghost predicate IsFirstKeyIndex<V>(list: seq<(string, V)>, key: string, i: int)
  {
    0 <= i < |list| && list[i].0 == key && forall j :: 0 <= j < i ==> list[j].0 != key
  }

  /** `firstIndex(where: { $0.0 == key })` on a list that has such a pair. */
  function FirstKeyIndex<V>(list: seq<(string, V)>, key: string): (i: nat)
    requires HasPairWithKey(list, key)
    ensures IsFirstKeyIndex(list, key, i)
  {
    if list[0].0 == key then 0
    else
      assert HasPairWithKey(list[1..], key) by {
        var j :| 0 <= j < |list| && list[j].0 == key;
        assert list[1..][j - 1].0 == key;
      }
      1 + FirstKeyIndex(list[1..], key)
  }

  /**
   * `keyDelete`: removes the first pair whose key matches and keeps every
   * other pair; no match is a fatal error. `position` is not used.
   */
  function KeyDelete<V>(list: seq<(string, V)>, key: string, position: int): (r: seq<(string, V)>)
    requires HasPairWithKey(list, key)
    ensures exists i :: IsFirstKeyIndex(list, key, i) && r == list[..i] + list[i + 1..]
  {
    var i := FirstKeyIndex(list, key);
    DeleteAt(list, i)
  }

  /**
   * `keyFind`: the first pair whose key matches, never the default; no match
   * is a fatal error. `position` and `default` are not used.
   */
  function KeyFind<V>(list: seq<(string, V)>, key: string, position: int, default: Option<(string, V)>): (r: Option<(string, V)>)
    requires HasPairWithKey(list, key)
    ensures exists i :: IsFirstKeyIndex(list, key, i) && r == Some(list[i])
  {
    Some(list[FirstKeyIndex(list, key)])
  }

  /** `keyMember`: whether some pair has key `key`. `position` is not used. */
  function KeyMember<V>(list: seq<(string, V)>, key: string, position: int): (r: bool)
    ensures r <==> HasPairWithKey(list, key)
  {
    if list == [] then false
    else if list[0].0 == key then true
    else
      var rest := KeyMember(list[1..], key, position);
      assert HasPairWithKey(list, key) ==> HasPairWithKey(list[1..], key) by {
        if HasPairWithKey(list, key) {
          var j :| 0 <= j < |list| && list[j].0 == key;
          assert list[1..][j - 1].0 == key;
        }
      }
      assert HasPairWithKey(list[1..], key) ==> HasPairWithKey(list, key) by {
        if HasPairWithKey(list[1..], key) {
          var j :| 0 <= j < |list[1..]| && list[1..][j].0 == key;
          assert list[j + 1].0 == key;
        }
      }
      rest
  }

  /**
   * `keyReplace`: puts `newValue` in place of the first pair whose key
   * matches and keeps every other pair; no match is a fatal error.
   * `position` is not used.
   */
  function KeyReplace<V>(list: seq<(string, V)>, key: string, position: int, newValue: (string, V)): (r: seq<(string, V)>)
    requires HasPairWithKey(list, key)
    ensures exists i :: IsFirstKeyIndex(list, key, i) && r == list[i := newValue]
  {
    list[FirstKeyIndex(list, key) := newValue]
  }

  /**
   * `keySort`: despite its name it does not sort. It concatenates
   * `context[...position]` and `context[position...]`, which both hold the
   * pair at `position`: the result is the list with that pair repeated.
   */
  function KeySort<V>(list: seq<(string, V)>, position: int): (r: seq<(string, V)>)
    requires 0 <= position < |list|
    ensures |r| == |list| + 1
    ensures forall i :: 0 <= i <= position ==> r[i] == list[i]
    ensures forall i :: position < i < |r| ==> r[i] == list[i - 1]
    ensures multiset(r) == multiset(list) + multiset{list[position]}
  {
    var pre := list[..position + 1];
    var post := list[position..];
    calc {
      multiset(pre + post);
      multiset(pre) + multiset(post);
      { assert pre == list[..position] + [list[position]]; }
      multiset(list[..position]) + multiset{list[position]} + multiset(post);
      { assert list == list[..position] + post; }
      multiset(list) + multiset{list[position]};
    }
    pre + post
  }

  /** `last`: the last element, or `nil` for an empty list. */
  function Last<T>(list: seq<T>): (r: Option<T>)
    ensures r.Some? <==> |list| > 0
    ensures r.Some? ==> r.value == list[|list| - 1]
  {
    if list == [] then None else Some(list[|list| - 1])
  }

  /**
   * `pop(_:at:)`: the guard `count < at + 1` is inverted. For every `at`
   * below the count (negative ones included) it returns the list unchanged
   * and `nil`; for `at >= count` it reads `context[at]` and traps.
   */
  function Pop<T>(list: seq<T>, at: int): (r: (seq<T>, Option<T>))
    requires at < |list|
    ensures r.0 == list
    ensures r.1 == None
  {
    (list, None)
  }

  /**
   * `replace(_:at:value:)`: the same inverted guard; every `at` below the count
   * returns the list unchanged, and `at >= count` traps.
   */
  function Replace<T>(list: seq<T>, at: int, value: T): (r: seq<T>)
    requires at < |list|
    ensures r == list
  {
    list
  }

  /** `prefix` is an initial segment of `list`. */
  ghost predicate IsPrefix<T>(prefix: seq<T>, list: seq<T>)
  {
    |prefix| <= |list| && list[..|prefix|] == prefix
  }

  /**
   * `startsWith`: `false` when the prefix is longer than the list, otherwise
   * the loop over `0...prefix.count` returns `false` at the first mismatching
   * index. If every index below `prefix.count` matches, the loop goes on to
   * read `prefix[prefix.count]` and traps, so the call is defined only when
   * `prefix` is NOT a prefix of `list`, and then it returns `false`.
   */
  method StartsWith<T(==)>(list: seq<T>, prefix: seq<T>) returns (r: bool)
    requires !IsPrefix(prefix, list)
    ensures !r
  {
    if |prefix| > |list| {
      return false;
    }
    var i := 0;
    while i <= |prefix|
      invariant 0 <= i <= |prefix| + 1
      invariant forall j :: 0 <= j < i && j < |prefix| ==> list[j] == prefix[j]
    {
      if list[i] != prefix[i] {
        return false;
      }
      i := i + 1;
    }
    assert false;
  }

  /**
   * `update(_:at:fun:)`: the same inverted guard; every `at` below the count
   * returns the list unchanged without calling `fun`, and `at >= count` traps.
   */
  function Update<T>(list: seq<T>, at: int, fun: T -> T): (r: seq<T>)
    requires at < |list|
    ensures r == list
  {
    list
  }

  /** `zip`: pairs up the elements at equal indices, as long as the shorter list. */
  function Zip<L, R>(left: seq<L>, right: seq<R>): (r: seq<(L, R)>)
    ensures |r| == if |left| < |right| then |left| else |right|
    ensures forall i :: 0 <= i < |r| ==> r[i] == (left[i], right[i])
  {
    if left == [] || right == [] then []
    else [(left[0], right[0])] + Zip(left[1..], right[1..])
  }
}
