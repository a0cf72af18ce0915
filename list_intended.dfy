/**
 * What the List operations whose code contradicts their doc comments or their
 * names evidently mean to do, each beside a concrete input on which the code
 * as written (module List) behaves otherwise.
 */
module ListIntended {
  import opened Optional
  import List

  /** Removes the first occurrence of `item`, as the doc comment of `delete(_:item:)` says. */
  function DeleteFirstItem<T(==)>(list: seq<T>, item: T): (r: seq<T>)
    ensures item !in list ==> r == list
  {
    if list == [] then []
    else
      assert list == [list[0]] + list[1..];
      if list[0] == item then list[1..]
      else [list[0]] + DeleteFirstItem(list[1..], item)
  }

  /** What is removed is the first occurrence; everything before and after it stays in order. */
  lemma {:induction false} DeleteFirstItemAt<T>(list: seq<T>, item: T, i: int)
    requires 0 <= i < |list| && list[i] == item
    requires forall j :: 0 <= j < i ==> list[j] != item
    ensures DeleteFirstItem(list, item) == list[..i] + list[i + 1..]
  {
    if i == 0 {
      assert list[..0] + list[1..] == list[1..];
    } else {
      var tail := list[1..];
      assert list[0] != item;
      assert forall j :: 0 <= j < i - 1 ==> tail[j] == list[j + 1];
      DeleteFirstItemAt(tail, item, i - 1);
      assert DeleteFirstItem(list, item) == [list[0]] + DeleteFirstItem(tail, item);
      assert list[..i] == [list[0]] + tail[..i - 1];
      assert list[i + 1..] == tail[i..];
    }
  }

  /** Exactly one occurrence of `item` is removed, when there is one; nothing else. */
  lemma {:induction false} DeleteFirstItemMultiset<T>(list: seq<T>, item: T)
    ensures multiset(DeleteFirstItem(list, item)) == multiset(list) - multiset{item}
  {
    if list != [] {
      assert list == [list[0]] + list[1..];
      if list[0] != item {
        DeleteFirstItemMultiset(list[1..], item);
      }
    }
  }

  /** On `[1, 2]`, deleting `1` keeps the `1` and drops the `2`; removing the first occurrence leaves `[2]`. */
  lemma DeleteItemKeepsItem()
    ensures List.DeleteItem([1, 2], 1) == [1]
    ensures DeleteFirstItem([1, 2], 1) == [2]
  {
  }

  /** `times` copies of `value`, as the doc comment of `duplicate` says (a loop over `0..<times`). */
  method DuplicateTimes<T>(value: T, times: int) returns (r: seq<T>)
    requires times >= 0
    ensures |r| == times
    ensures forall i :: 0 <= i < |r| ==> r[i] == value
  {
    r := [];
    for n := 0 to times
      invariant |r| == n
      invariant forall i :: 0 <= i < |r| ==> r[i] == value
    {
      r := r + [value];
    }
  }

  /** Asked for two copies, the code as written returns three; the intended loop returns two. */
  method DuplicateTwo() returns (written: seq<int>, intended: seq<int>)
    ensures |written| == 3
    ensures |intended| == 2
  {
    written := List.Duplicate(7, 2);
    intended := DuplicateTimes(7, 2);
  }

  /**
   * `pop(_:at:)` with the guard the right way round: an index in range is
   * removed and returned, an index past the end gives the list and `nil`.
   */
  function PopAt<T>(list: seq<T>, at: int): (r: (seq<T>, Option<T>))
    requires 0 <= at
    ensures at < |list| ==> r.1 == Some(list[at]) && |r.0| == |list| - 1
    ensures at >= |list| ==> r == (list, None)
  {
    if |list| < at + 1 then (list, None)
    else (List.DeleteAt(list, at), Some(list[at]))
  }

  /** Putting the popped element back where it was gives the list back. */
  lemma PopAtThenInsert<T>(list: seq<T>, at: int)
    requires 0 <= at < |list|
    ensures List.InsertAt(PopAt(list, at).0, at, PopAt(list, at).1.value) == list
  {
  }

  /** Popping index 0 of `[1, 2]`: the code returns `[1, 2]` and `nil`, the intended guard `[2]` and `1`. */
  lemma PopInRangeRemovesNothing()
    ensures List.Pop([1, 2], 0) == ([1, 2], None)
    ensures PopAt([1, 2], 0) == ([2], Some(1))
  {
    assert [1, 2][..0] + [1, 2][1..] == [2];
  }

  /** `replace(_:at:value:)` with the guard the right way round. */
  function ReplaceAt<T>(list: seq<T>, at: int, value: T): (r: seq<T>)
    requires 0 <= at
    ensures |r| == |list|
    ensures at < |list| ==> r[at] == value
    ensures forall i :: 0 <= i < |list| && i != at ==> r[i] == list[i]
  {
    if |list| < at + 1 then list else list[at := value]
  }

  /** Replacing index 0 of `[1, 2]` by 9: the code returns `[1, 2]`, the intended guard `[9, 2]`. */
  lemma ReplaceInRangeChangesNothing()
    ensures List.Replace([1, 2], 0, 9) == [1, 2]
    ensures ReplaceAt([1, 2], 0, 9) == [9, 2]
  {
  }

  /** `update(_:at:fun:)` with the guard the right way round. */
  function UpdateAt<T>(list: seq<T>, at: int, fun: T -> T): (r: seq<T>)
    requires 0 <= at
    ensures |r| == |list|
    ensures at < |list| ==> r[at] == fun(list[at])
    ensures forall i :: 0 <= i < |list| && i != at ==> r[i] == list[i]
  {
    if |list| < at + 1 then list else list[at := fun(list[at])]
  }

  /** Incrementing index 0 of `[1, 2]`: the code returns `[1, 2]`, the intended guard `[2, 2]`. */
  lemma UpdateInRangeChangesNothing()
    ensures List.Update([1, 2], 0, x => x + 1) == [1, 2]
    ensures UpdateAt([1, 2], 0, x => x + 1) == [2, 2]
  {
  }

  /** `startsWith` with the loop over `0..<prefix.count`: true exactly for a prefix. */
  method StartsWithPrefix<T(==)>(list: seq<T>, prefix: seq<T>) returns (r: bool)
    ensures r <==> List.IsPrefix(prefix, list)
  {
    if |prefix| > |list| {
      return false;
    }
    for i := 0 to |prefix|
      invariant list[..i] == prefix[..i]
    {
      if list[i] != prefix[i] {
        assert list[..|prefix|][i] != prefix[i];
        return false;
      }
      assert list[..i + 1] == list[..i] + [list[i]];
      assert prefix[..i + 1] == prefix[..i] + [prefix[i]];
    }
    assert prefix[..|prefix|] == prefix;
    return true;
  }

  /**
   * `[1]` is a prefix of `[1, 2]`, so the code as written reads `prefix[1]`
   * and traps where the intended loop returns true: the written
   * `List.StartsWith` is defined only on inputs whose answer is false.
   */
  method StartsWithOnPrefix() returns (intended: bool)
    ensures List.IsPrefix([1], [1, 2])
    ensures intended
  {
    assert [1, 2][..1] == [1];
    intended := StartsWithPrefix([1, 2], [1]);
  }
}
