/** The pointer array of src/sorted_array.c, with one live count.

    Departure "live count": the text keeps the live count in `cur`, yet remove and
    the loops of the heap count with the capacity `size`. Here `cur` is the live
    count everywhere and the capacity is the length of the array. */
module SortedArrays {

  /** The slot where the scan of insert stops: the first one not before item. */
  function InsertionPoint<T>(s: seq<T>, item: T, cmp: (T, T) -> int): (k: nat)
    ensures k <= |s|
    ensures forall i :: 0 <= i < k ==> cmp(s[i], item) < 0
    ensures k < |s| ==> cmp(s[k], item) >= 0
  {
    if s == [] || cmp(s[0], item) >= 0 then 0 else 1 + InsertionPoint(s[1..], item, cmp)
  }

  ghost function Inserted<T>(s: seq<T>, item: T, cmp: (T, T) -> int): seq<T> {
    s[..InsertionPoint(s, item, cmp)] + [item] + s[InsertionPoint(s, item, cmp)..]
  }

  ghost function Removed<T>(s: seq<T>, k: nat): seq<T>
    requires k < |s|
  {
    s[..k] + s[k + 1..]
  }

  /** cmp is negative exactly when its first argument comes first in some total preorder. */
  ghost predicate TotalPreorder<T(!new)>(cmp: (T, T) -> int) {
    && (forall a, b :: cmp(a, b) < 0 ==> cmp(b, a) >= 0)
    && (forall a, b, c :: cmp(a, b) >= 0 && cmp(b, c) >= 0 ==> cmp(a, c) >= 0)
  }

  ghost predicate Sorted<T>(s: seq<T>, cmp: (T, T) -> int) {
    forall i, j :: 0 <= i < j < |s| ==> cmp(s[j], s[i]) >= 0
  }

  class SortedArray<T(0)> {
    const arr: array<T>
    var cur: nat

    ghost predicate Valid()
      reads this
    {
      cur <= arr.Length
    }

    ghost function Live(): seq<T>
      requires Valid()
      reads this, arr
    {
      arr[..cur]
    }

    /** place_sorted_array: an empty index over the given storage. */
    constructor Place(storage: array<T>)
      ensures Valid() && Live() == [] && arr == storage
    {
      arr, cur := storage, 0;
    }

    /** find_sorted_array; it panics outside the array. */
    function Find(k: nat): T
      requires Valid() && k < cur
      reads this, arr
    {
      arr[k]
    }

    /** insert_sorted_array. The comparison is the stored function pointer as it
        answers at the time of the call. Shifting writes one slot past the new live
        part, so it needs that slot to exist. */
    method Insert(item: T, cmp: (T, T) -> int)
      requires Valid() && cur < arr.Length
      requires InsertionPoint(Live(), item, cmp) < cur ==> cur + 1 < arr.Length
      modifies this, arr
      ensures Valid() && cur == old(cur) + 1
      ensures Live() == Inserted(old(Live()), item, cmp)
      ensures forall k :: old(cur) + 1 < k < arr.Length ==> arr[k] == old(arr[k])
    {
      hide InsertionPoint;
      ghost var was := Live();
      var iter := 0;
      while iter < cur && cmp(arr[iter], item) < 0
        invariant iter <= cur
        invariant forall i :: 0 <= i < iter ==> cmp(was[i], item) < 0
      {
        iter := iter + 1;
      }
      ScanStops(was, item, cmp, iter);
      if iter == cur {
        arr[cur] := item;
        cur := cur + 1;
        assert Live() == was + [item];
      } else {
        Shift(iter, item);
        assert Live() == was[..iter] + [item] + was[iter..];
      }
    }

    /** The second half of insert: items from slot `at` on move up one. */
    method Shift(at: nat, item: T)
      requires Valid() && at < cur && cur + 1 < arr.Length
      modifies this`cur, arr
      ensures Valid() && cur == old(cur) + 1 && arr[at] == item
      ensures forall k :: 0 <= k < at || cur < k < arr.Length ==> arr[k] == old(arr[k])
      ensures forall k :: at < k <= cur ==> arr[k] == old(arr[k - 1])
    {
      var iter := at;
      var temp := arr[iter];
      arr[iter] := item;
      while iter <= cur
        modifies arr
        invariant at <= iter <= cur + 1
        invariant arr[at] == item && forall k :: 0 <= k < at ==> arr[k] == old(arr[k])
        invariant forall k :: at < k <= iter ==> arr[k] == old(arr[k - 1])
        invariant forall k :: iter < k < arr.Length ==> arr[k] == old(arr[k])
        invariant iter < arr.Length && temp == old(arr[iter])
      {
        iter := iter + 1;
        var temp2 := arr[iter];
        arr[iter] := temp;
        temp := temp2;
      }
      cur := cur + 1;
    }

    /** remove_sorted_array: out of range it does nothing. */
    method Remove(index: nat)
      requires Valid()
      modifies this, arr
      ensures Valid()
      ensures index < old(cur) ==> cur == old(cur) - 1 && Live() == Removed(old(Live()), index)
      ensures index >= old(cur) ==> cur == old(cur) && arr[..] == old(arr[..])
      ensures forall k :: 0 <= k < arr.Length && (k < index || k >= cur) ==> arr[k] == old(arr[k])
    {
      if index >= cur {
        return;
      }
      ghost var was := Live();
      var iter := index + 1;
      while iter < cur
        modifies arr
        invariant index + 1 <= iter <= cur
        invariant forall k :: 0 <= k < index || iter - 1 <= k < arr.Length ==> arr[k] == old(arr[k])
        invariant forall k :: index <= k < iter - 1 ==> arr[k] == old(arr[k + 1])
      {
        arr[iter - 1] := arr[iter];
        iter := iter + 1;
      }
      cur := cur - 1;
      assert Live() == was[..index] + was[index + 1..];
    }
  }

  lemma {:induction false} ScanStops<T>(s: seq<T>, item: T, cmp: (T, T) -> int, k: nat)
    requires k <= |s|
    requires forall i :: 0 <= i < k ==> cmp(s[i], item) < 0
    requires k < |s| ==> cmp(s[k], item) >= 0
    ensures InsertionPoint(s, item, cmp) == k
  {
    if InsertionPoint(s, item, cmp) < k {
      assert false;
    }
  }

  /** With a comparator of a total preorder, insertion keeps the live part sorted and
      adds exactly the one item. */
  lemma InsertKeepsSorted<T(!new)>(s: seq<T>, item: T, cmp: (T, T) -> int)
    requires TotalPreorder(cmp) && Sorted(s, cmp)
    ensures Sorted(Inserted(s, item, cmp), cmp)
    ensures multiset(Inserted(s, item, cmp)) == multiset(s) + multiset{item}
  {
    hide TotalPreorder, InsertionPoint;
    var t := Inserted(s, item, cmp);
    forall i, j | 0 <= i < j < |t|
      ensures cmp(t[j], t[i]) >= 0
    {
      InsertedPair(s, item, cmp, i, j);
    }
    InsertAddsOne(s, item, cmp);
  }

  lemma InsertAddsOne<T>(s: seq<T>, item: T, cmp: (T, T) -> int)
    ensures multiset(Inserted(s, item, cmp)) == multiset(s) + multiset{item}
  {
    var k := InsertionPoint(s, item, cmp);
    assert s == s[..k] + s[k..];
  }

  lemma InsertedPair<T(!new)>(s: seq<T>, item: T, cmp: (T, T) -> int, i: nat, j: nat)
    requires TotalPreorder(cmp) && Sorted(s, cmp)
    requires i < j < |Inserted(s, item, cmp)|
    ensures cmp(Inserted(s, item, cmp)[j], Inserted(s, item, cmp)[i]) >= 0
  {
    hide TotalPreorder;
    var k := InsertionPoint(s, item, cmp);
    if i == k && j - 1 > k {
      NotBeforeTrans(cmp, s[j - 1], s[k], item);
    } else if j == k {
      NotBothBefore(cmp, s[i], item);
    }
  }

  lemma NotBeforeTrans<T(!new)>(cmp: (T, T) -> int, a: T, b: T, c: T)
    requires TotalPreorder(cmp) && cmp(a, b) >= 0 && cmp(b, c) >= 0
    ensures cmp(a, c) >= 0
  {
  }

  lemma NotBothBefore<T(!new)>(cmp: (T, T) -> int, a: T, b: T)
    requires TotalPreorder(cmp) && cmp(a, b) < 0
    ensures cmp(b, a) >= 0
  {
  }

  /** The comparator of the heap answers only 0 or 1, so its index never sorts:
      every insertion lands at the front. */
  lemma NeverNegativePushesFront<T(!new)>(s: seq<T>, item: T, cmp: (T, T) -> int)
    requires forall a, b :: cmp(a, b) >= 0
    ensures Inserted(s, item, cmp) == [item] + s
  {
    assert InsertionPoint(s, item, cmp) == 0;
  }

  /** Removing takes out exactly one item, keeps the order of the rest, and undoes an insertion. */
  lemma RemoveKeepsOrder<T>(s: seq<T>, cmp: (T, T) -> int, k: nat)
    requires k < |s|
    ensures Sorted(s, cmp) ==> Sorted(Removed(s, k), cmp)
    ensures multiset(Removed(s, k)) + multiset{s[k]} == multiset(s)
  {
    RemoveTakesOne(s, k);
    forall i, j | 0 <= i < j < |s| - 1 && Sorted(s, cmp)
      ensures cmp(Removed(s, k)[j], Removed(s, k)[i]) >= 0
    {
      assert Removed(s, k)[i] == s[if i < k then i else i + 1] && Removed(s, k)[j] == s[if j < k then j else j + 1];
    }
  }

  lemma RemoveTakesOne<T>(s: seq<T>, k: nat)
    requires k < |s|
    ensures multiset(Removed(s, k)) + multiset{s[k]} == multiset(s)
  {
    assert s == s[..k] + [s[k]] + s[k + 1..];
  }

  lemma RemoveUndoesInsert<T>(s: seq<T>, item: T, cmp: (T, T) -> int)
    ensures Removed(Inserted(s, item, cmp), InsertionPoint(s, item, cmp)) == s
  {
    hide InsertionPoint;
    var k := InsertionPoint(s, item, cmp);
    assert Removed(Inserted(s, item, cmp), k) == s[..k] + s[k..];
  }

  /** remove_sorted_array as written: it shifts up to the capacity, and lowers that. */
  function TextRemoved<T>(a: seq<T>, size: nat, k: nat): (r: seq<T>)
    requires size <= |a|
    ensures |r| == |a|
  {
    if k >= size then a else a[..k] + a[k + 1..size] + a[size - 1..]
  }

  /** The departure: `cur` is not lowered, so the live part is right exactly when the index was
      not in it. Otherwise the slot behind the live part, or a copy of its last item when the
      array is full, becomes live. */
  lemma TextRemoveIff<T>(a: seq<T>, cur: nat, size: nat, k: nat)
    requires cur <= size <= |a|
    ensures TextRemoved(a, size, k)[..cur] == (if k < cur then Removed(a[..cur], k) else a[..cur]) <==> k >= cur
    ensures k < cur ==>
              TextRemoved(a, size, k)[..cur] == Removed(a[..cur], k) + [a[if cur < size then cur else cur - 1]]
  {
  }
}
