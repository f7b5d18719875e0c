/** Ordering of a list's items by timestamp: the comparator, a stable
    insertion sort as the reference definition with its properties (sorted,
    a permutation, stable on equal timestamps), the in-place array sort that
    implements it, and the pass over the lists of one owner. */
module ItemSort {
  import opened Outcomes
  import opened ExpenseModel

  /** ExpenseItemComparator.compare: negative, zero or positive as the first
      item's timestamp is before, equal to or after the second's. */
  function CompareByDate(a: ExpenseItem, b: ExpenseItem): (c: int)
    ensures c < 0 <==> a.expenseDate < b.expenseDate
    ensures c == 0 <==> a.expenseDate == b.expenseDate
    ensures c > 0 <==> a.expenseDate > b.expenseDate
  {
    if a.expenseDate < b.expenseDate then -1
    else if a.expenseDate == b.expenseDate then 0
    else 1
  }

  ghost predicate SortedByDate(s: seq<ExpenseItem>)
  {
    forall i, j :: 0 <= i < j < |s| ==> s[i].expenseDate <= s[j].expenseDate
  }

  /** Inserts `x` after every element that the comparator does not put
      after it, so equal timestamps keep their order. */
  function Insert(s: seq<ExpenseItem>, x: ExpenseItem): (r: seq<ExpenseItem>)
    ensures |r| == |s| + 1
  {
    if s == [] || CompareByDate(s[|s| - 1], x) <= 0 then s + [x]
    else Insert(s[..|s| - 1], x) + [s[|s| - 1]]
  }

  /** The reference stable sort: insert each element, left to right, into
      the sorted prefix before it. */
  function SortByDate(s: seq<ExpenseItem>): (r: seq<ExpenseItem>)
    ensures |r| == |s|
  {
    if s == [] then [] else Insert(SortByDate(s[..|s| - 1]), s[|s| - 1])
  }

  /** The items of `s` with timestamp `d`, in their order in `s`. */
  function WithDate(s: seq<ExpenseItem>, d: int): seq<ExpenseItem>
  {
    if s == [] then []
    else WithDate(s[..|s| - 1], d) + (if s[|s| - 1].expenseDate == d then [s[|s| - 1]] else [])
  }

  lemma {:induction false} InsertPermutes(s: seq<ExpenseItem>, x: ExpenseItem)
    ensures multiset(Insert(s, x)) == multiset(s) + multiset{x}
  {
    if s != [] && CompareByDate(s[|s| - 1], x) > 0 {
      var init, last := s[..|s| - 1], s[|s| - 1];
      assert s == init + [last];
      InsertPermutes(init, x);
    }
  }

  lemma {:induction false} InsertKeepsSorted(s: seq<ExpenseItem>, x: ExpenseItem)
    requires SortedByDate(s)
    ensures SortedByDate(Insert(s, x))
  {
    if s != [] && CompareByDate(s[|s| - 1], x) > 0 {
      var init, last := s[..|s| - 1], s[|s| - 1];
      InsertKeepsSorted(init, x);
      InsertPermutes(init, x);
      var r := Insert(init, x);
      forall i | 0 <= i < |r|
        ensures r[i].expenseDate <= last.expenseDate
      {
        assert r[i] in multiset(r);
        assert r[i] in init || r[i] == x;
      }
    }
  }

  lemma {:induction false} InsertIsStable(s: seq<ExpenseItem>, x: ExpenseItem, d: int)
    ensures WithDate(Insert(s, x), d) == WithDate(s, d) + (if x.expenseDate == d then [x] else [])
  {
    if s == [] || CompareByDate(s[|s| - 1], x) <= 0 {
      assert (s + [x])[..|s|] == s;
    } else {
      var init, last := s[..|s| - 1], s[|s| - 1];
      InsertIsStable(init, x, d);
      var r := Insert(init, x);
      assert (r + [last])[..|r|] == r;
    }
  }

  /** The reference sort orders by timestamp. */
  lemma {:induction false} SortIsSorted(s: seq<ExpenseItem>)
    ensures SortedByDate(SortByDate(s))
  {
    if s != [] {
      SortIsSorted(s[..|s| - 1]);
      InsertKeepsSorted(SortByDate(s[..|s| - 1]), s[|s| - 1]);
    }
  }

  /** The reference sort is a permutation of its input. */
  lemma {:induction false} SortPermutes(s: seq<ExpenseItem>)
    ensures multiset(SortByDate(s)) == multiset(s)
  {
    if s != [] {
      var init, last := s[..|s| - 1], s[|s| - 1];
      assert s == init + [last];
      SortPermutes(init);
      InsertPermutes(SortByDate(init), last);
    }
  }

  /** The reference sort is stable: the items sharing a timestamp come out
      in the order they went in. */
  lemma {:induction false} SortIsStable(s: seq<ExpenseItem>, d: int)
    ensures WithDate(SortByDate(s), d) == WithDate(s, d)
  {
    if s != [] {
      var init, last := s[..|s| - 1], s[|s| - 1];
      SortIsStable(init, d);
      InsertIsStable(SortByDate(init), last, d);
    }
  }

  /** Where the backwards scan stops: when every element from position `j`
      on goes after `x` and the one before `j` does not, `x` is inserted at
      position `j`. */
  lemma {:induction false} InsertSplitsAt(s: seq<ExpenseItem>, j: int, x: ExpenseItem)
    requires 0 <= j <= |s|
    requires forall k :: j <= k < |s| ==> s[k].expenseDate > x.expenseDate
    requires j == 0 || s[j - 1].expenseDate <= x.expenseDate
    ensures Insert(s, x) == s[..j] + [x] + s[j..]
    decreases |s|
  {
    if j == |s| {
      assert s[..j] == s && s[j..] == [];
    } else {
      var init, last := s[..|s| - 1], s[|s| - 1];
      InsertSplitsAt(init, j, x);
      assert init[..j] == s[..j];
      assert init[j..] + [last] == s[j..];
    }
  }

  /** The array after the scan, read as a sequence: the prefix with `x`
      placed at position `j`. */
  lemma ShiftedIsSplit(cur: seq<ExpenseItem>, prefix: seq<ExpenseItem>, j: int, x: ExpenseItem)
    requires |cur| == |prefix| + 1 && 0 <= j <= |prefix|
    requires forall k :: 0 <= k < j ==> cur[k] == prefix[k]
    requires cur[j] == x
    requires forall k :: j < k < |cur| ==> cur[k] == prefix[k - 1]
    ensures cur == prefix[..j] + [x] + prefix[j..]
  {
  }

  /** Sorting one more element inserts it into the sorted prefix. */
  lemma SortExtends(s: seq<ExpenseItem>, i: int)
    requires 0 <= i < |s|
    ensures SortByDate(s[..i + 1]) == Insert(SortByDate(s[..i]), s[i])
  {
    assert s[..i + 1][..i] == s[..i];
  }

  /** Inserts `a[i]` into the sorted prefix `a[..i]`, shifting the larger
      elements one place right. */
  method InsertAt(a: array<ExpenseItem>, i: int)
    requires 0 <= i < a.Length
    modifies a
    ensures a[..i + 1] == Insert(old(a[..i]), old(a[i]))
    ensures forall k :: i < k < a.Length ==> a[k] == old(a[k])
  {
    ghost var prefix := a[..i];
    var x := a[i];
    var j := i;
    while j > 0 && CompareByDate(a[j - 1], x) > 0
      invariant 0 <= j <= i
      invariant forall k :: 0 <= k < j ==> a[k] == prefix[k]
      invariant forall k :: j < k <= i ==> a[k] == prefix[k - 1]
      invariant forall k :: i < k < a.Length ==> a[k] == old(a[k])
      invariant forall k :: j <= k < i ==> prefix[k].expenseDate > x.expenseDate
    {
      a[j] := a[j - 1];
      j := j - 1;
    }
    a[j] := x;
    InsertSplitsAt(prefix, j, x);
    ShiftedIsSplit(a[..i + 1], prefix, j, x);
  }

  /** Collections.sort with the comparator, on the item list in place. */
  method SortInPlace(a: array<ExpenseItem>)
    modifies a
    ensures a[..] == SortByDate(old(a[..]))
  {
    ghost var input := a[..];
    var i := 0;
    while i < a.Length
      invariant 0 <= i <= a.Length
      invariant a[..i] == SortByDate(input[..i])
      invariant forall k :: i <= k < a.Length ==> a[k] == input[k]
    {
      InsertAt(a, i);
      SortExtends(input, i);
      i := i + 1;
    }
    assert input[..a.Length] == input;
  }

  /** A list with its item sequence sorted; a null sequence is left null. */
  function WithItemsSorted(list: ExpenseItemList): (r: ExpenseItemList)
    ensures r.id == list.id && r.email == list.email && r.title == list.title
    ensures r.expenseItems.None? == list.expenseItems.None?
  {
    match list.expenseItems
    case None => list
    case Some(s) => list.(expenseItems := Some(SortByDate(s)))
  }

  /** What a sorted list holds: the same id, owner, title and nullness, and
      for a non-null sequence the same items, ordered by timestamp, with
      equal timestamps in their original order. */
  lemma WithItemsSortedMeaning(list: ExpenseItemList)
    ensures var r := WithItemsSorted(list);
      && r.id == list.id && r.email == list.email && r.title == list.title
      && r.expenseItems.None? == list.expenseItems.None?
      && (list.expenseItems.Some? ==>
            && SortedByDate(r.expenseItems.value)
            && multiset(r.expenseItems.value) == multiset(list.expenseItems.value)
            && forall d :: WithDate(r.expenseItems.value, d) == WithDate(list.expenseItems.value, d))
  {
    if list.expenseItems.Some? {
      var s := list.expenseItems.value;
      SortIsSorted(s);
      SortPermutes(s);
      forall d ensures WithDate(SortByDate(s), d) == WithDate(s, d) {
        SortIsStable(s, d);
      }
    }
  }

  /** The loop of getExpenseListByEmail: every list with a non-null item
      sequence gets it sorted in place; the lists keep their number and
      order. */
  method SortListItems(found: seq<ExpenseItemList>) returns (sorted: seq<ExpenseItemList>)
    ensures |sorted| == |found|
    ensures forall k :: 0 <= k < |found| ==> sorted[k] == WithItemsSorted(found[k])
  {
    sorted := found;
    var k := 0;
    while k < |found|
      invariant 0 <= k <= |found|
      invariant |sorted| == |found|
      invariant forall j :: 0 <= j < k ==> sorted[j] == WithItemsSorted(found[j])
      invariant forall j :: k <= j < |found| ==> sorted[j] == found[j]
    {
      var list := found[k];
      if list.expenseItems.Some? {
        var items := list.expenseItems.value;
        var a := new ExpenseItem[|items|](i requires 0 <= i < |items| => items[i]);
        assert a[..] == items;
        SortInPlace(a);
        sorted := sorted[k := list.(expenseItems := Some(a[..]))];
      }
      k := k + 1;
    }
  }

  /** Three items dated T2, T0, T1 (T0 < T1 < T2) come out as T0, T1, T2. */
  lemma ThreeItemsExample(i0: ExpenseItem, i1: ExpenseItem, i2: ExpenseItem)
    requires i0.expenseDate < i1.expenseDate < i2.expenseDate
    ensures SortByDate([i2, i0, i1]) == [i0, i1, i2]
  {
    assert [i2, i0, i1][..2] == [i2, i0];
    assert [i2, i0][..1] == [i2];
    assert SortByDate([i2]) == [i2];
    assert SortByDate([i2, i0]) == Insert([i2], i0) == [i0, i2];
    assert [i0, i2][..1] == [i0];
    assert Insert([i0, i2], i1) == Insert([i0], i1) + [i2] == [i0, i1, i2];
  }
}
