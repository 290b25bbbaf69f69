/** The quantity sort behind the table: `Array.prototype.sort` with the
    comparator `(a.quantity - b.quantity) * sign`, which ECMAScript requires
    to be stable. It is modelled as a stable insertion sort; `SortUnique`
    shows that any stable sort gives the same result. */
module StableSort {
  import opened Seqs
  import opened Items
  import opened Preferences

  /** `sortDirection === 'asc' ? 1 : -1`. */
  function Sign(direction: string): int {
    if direction == Ascending then 1 else -1
  }

  /** The comparator handed to `sort`: positive when `a` belongs after `b`. */
  function Compare(a: Item, b: Item, direction: string): (r: int)
    ensures r == 0 <==> a.quantity == b.quantity
    ensures r > 0 <==> if direction == Ascending then a.quantity > b.quantity else a.quantity < b.quantity
  {
    (a.quantity - b.quantity) * Sign(direction)
  }

  /** The key the comparator orders by: the quantity, negated unless ascending. */
  function Key(x: Item, direction: string): int {
    if direction == Ascending then x.quantity else -x.quantity
  }

  ghost predicate Sorted(s: seq<Item>, direction: string) {
    forall i, j | 0 <= i < j < |s| :: Key(s[i], direction) <= Key(s[j], direction)
  }

  /** The comparator orders exactly as the key does. */
  lemma CompareIsKeyOrder(a: Item, b: Item, direction: string)
    ensures Compare(a, b, direction) > 0 <==> Key(a, direction) > Key(b, direction)
    ensures Compare(a, b, direction) == 0 <==> Key(a, direction) == Key(b, direction)
  {
  }

  /** Place `x` before the first element the comparator puts after it, so
      that `x` follows every element it ties with. */
  function Insert(x: Item, s: seq<Item>, direction: string): (r: seq<Item>)
    ensures |r| == |s| + 1
    ensures multiset(r) == multiset(s) + multiset{x}
    decreases |s|
  {
    if |s| == 0 then [x]
    else if Compare(s[0], x, direction) > 0 then [x] + s
    else
      assert s == [s[0]] + s[1..];
      [s[0]] + Insert(x, s[1..], direction)
  }

  /** Sort a prefix, then insert the next element after its equals. */
  function Sort(s: seq<Item>, direction: string): (r: seq<Item>)
    ensures |r| == |s|
    ensures multiset(r) == multiset(s)
    decreases |s|
  {
    if |s| == 0 then []
    else
      var n := |s| - 1;
      assert s == s[..n] + [s[n]];
      Insert(s[n], Sort(s[..n], direction), direction)
  }

  /** The items whose quantity is `q`. */
  function HasQuantity(q: int): Item -> bool {
    (x: Item) => x.quantity == q
  }

  /** The items with quantity `q` in their order in `s`: a sort is stable
      when it keeps every such subsequence. */
  function WithQuantity(s: seq<Item>, q: int): seq<Item> {
    Filter(HasQuantity(q), s)
  }

  /** A lower bound on the keys of `s` and of `x` bounds the keys after
      the insertion. */
  lemma InsertKeepsLowerBound(x: Item, s: seq<Item>, direction: string, k: int)
    requires forall i | 0 <= i < |s| :: k <= Key(s[i], direction)
    requires k <= Key(x, direction)
    ensures forall i | 0 <= i < |Insert(x, s, direction)| :: k <= Key(Insert(x, s, direction)[i], direction)
  {
    var r := Insert(x, s, direction);
    forall i | 0 <= i < |r| ensures k <= Key(r[i], direction) {
      assert r[i] in multiset(r);
      if r[i] != x {
        assert r[i] in multiset(s);
        var j :| 0 <= j < |s| && s[j] == r[i];
      }
    }
  }

  /** `y` followed by a sorted sequence whose keys are all at least `y`'s
      is sorted. */
  lemma SortedCons(y: Item, t: seq<Item>, direction: string)
    requires Sorted(t, direction)
    requires forall i | 0 <= i < |t| :: Key(y, direction) <= Key(t[i], direction)
    ensures Sorted([y] + t, direction)
  {
    var r := [y] + t;
    forall i, j | 0 <= i < j < |r| ensures Key(r[i], direction) <= Key(r[j], direction) {
      assert r[j] == t[j - 1];
      if i > 0 {
        assert r[i] == t[i - 1];
      }
    }
  }

  lemma {:induction false} InsertSorted(x: Item, s: seq<Item>, direction: string)
    requires Sorted(s, direction)
    ensures Sorted(Insert(x, s, direction), direction)
    decreases |s|
  {
    if |s| > 0 {
      CompareIsKeyOrder(s[0], x, direction);
      if Compare(s[0], x, direction) > 0 {
        assert Insert(x, s, direction) == [x] + s;
        SortedCons(x, s, direction);
      } else {
        var tail := s[1..];
        assert Sorted(tail, direction);
        InsertSorted(x, tail, direction);
        InsertKeepsLowerBound(x, tail, direction, Key(s[0], direction));
        assert Insert(x, s, direction) == [s[0]] + Insert(x, tail, direction);
        SortedCons(s[0], Insert(x, tail, direction), direction);
      }
    }
  }

  /** The sort orders by key. */
  lemma {:induction false} SortSorted(s: seq<Item>, direction: string)
    ensures Sorted(Sort(s, direction), direction)
    decreases |s|
  {
    if |s| > 0 {
      var n := |s| - 1;
      SortSorted(s[..n], direction);
      InsertSorted(s[n], Sort(s[..n], direction), direction);
    }
  }

  lemma {:induction false} WithQuantityEmpty(s: seq<Item>, q: int)
    requires forall x | x in s :: x.quantity != q
    ensures WithQuantity(s, q) == []
    decreases |s|
  {
    if |s| > 0 {
      assert s[0] in s;
      WithQuantityEmpty(s[1..], q);
    }
  }

  /** Inserting `x` adds it after every element of equal quantity. */
  lemma {:induction false} InsertStable(x: Item, s: seq<Item>, direction: string, q: int)
    requires Sorted(s, direction)
    ensures WithQuantity(Insert(x, s, direction), q) == WithQuantity(s, q) + WithQuantity([x], q)
    decreases |s|
  {
    if |s| == 0 {
    } else if Compare(s[0], x, direction) > 0 {
      InsertFrontStable(x, s, direction, q);
    } else {
      var tail := s[1..];
      assert s == [s[0]] + tail;
      SortedTail(s, direction);
      InsertStable(x, tail, direction, q);
      assert Insert(x, s, direction) == [s[0]] + Insert(x, tail, direction);
      FilterAppend(HasQuantity(q), [s[0]], Insert(x, tail, direction));
      FilterAppend(HasQuantity(q), [s[0]], tail);
    }
  }

  /** The case of `InsertStable` where `x` goes in front: nothing after it
      can share its quantity. */
  lemma InsertFrontStable(x: Item, s: seq<Item>, direction: string, q: int)
    requires Sorted(s, direction)
    requires |s| > 0 && Compare(s[0], x, direction) > 0
    ensures WithQuantity(Insert(x, s, direction), q) == WithQuantity(s, q) + WithQuantity([x], q)
  {
    assert Insert(x, s, direction) == [x] + s;
    FilterAppend(HasQuantity(q), [x], s);
    if x.quantity == q {
      forall y | y in s ensures y.quantity != q {
        var k :| 0 <= k < |s| && s[k] == y;
        assert Key(s[0], direction) <= Key(s[k], direction);
      }
      WithQuantityEmpty(s, q);
    } else {
      assert WithQuantity([x], q) == [];
    }
  }

  /** The sort keeps the relative order of items with equal quantity. */
  lemma {:induction false} SortStable(s: seq<Item>, direction: string, q: int)
    ensures WithQuantity(Sort(s, direction), q) == WithQuantity(s, q)
    decreases |s|
  {
    if |s| > 0 {
      var n := |s| - 1;
      assert s == s[..n] + [s[n]];
      SortStable(s[..n], direction, q);
      SortSorted(s[..n], direction);
      InsertStable(s[n], Sort(s[..n], direction), direction, q);
      FilterAppend(HasQuantity(q), s[..n], [s[n]]);
    }
  }

  /** Equal quantity groups make equal multisets. */
  lemma SameGroupsSameMultiset(a: seq<Item>, b: seq<Item>)
    requires forall q :: WithQuantity(a, q) == WithQuantity(b, q)
    ensures multiset(a) == multiset(b)
  {
    forall x ensures multiset(a)[x] == multiset(b)[x] {
      FilterCount(HasQuantity(x.quantity), a);
      FilterCount(HasQuantity(x.quantity), b);
      assert WithQuantity(a, x.quantity) == WithQuantity(b, x.quantity);
    }
  }

  lemma SortedTail(s: seq<Item>, direction: string)
    requires Sorted(s, direction) && |s| > 0
    ensures Sorted(s[1..], direction)
  {
    forall i, j | 0 <= i < j < |s[1..]| ensures Key(s[1..][i], direction) <= Key(s[1..][j], direction) {
      assert s[1..][i] == s[i + 1] && s[1..][j] == s[j + 1];
    }
  }

  /** The group of the first element's quantity starts with that element. */
  lemma WithQuantityHead(s: seq<Item>)
    requires |s| > 0
    ensures |WithQuantity(s, s[0].quantity)| > 0 && WithQuantity(s, s[0].quantity)[0] == s[0]
  {
    assert WithQuantity(s, s[0].quantity) == [s[0]] + WithQuantity(s[1..], s[0].quantity);
  }

  /** Two sorted sequences with the same quantity groups start alike. */
  lemma SameHead(a: seq<Item>, b: seq<Item>, direction: string)
    requires Sorted(a, direction) && Sorted(b, direction)
    requires forall q :: WithQuantity(a, q) == WithQuantity(b, q)
    requires |a| > 0 && |b| > 0
    ensures a[0] == b[0]
  {
    var x, y := a[0], b[0];
    FilterMembers(HasQuantity(x.quantity), a);
    FilterMembers(HasQuantity(x.quantity), b);
    FilterMembers(HasQuantity(y.quantity), a);
    FilterMembers(HasQuantity(y.quantity), b);
    assert x in b by {
      assert x in WithQuantity(a, x.quantity);
      assert x in WithQuantity(b, x.quantity);
    }
    assert y in a by {
      assert y in WithQuantity(b, y.quantity);
      assert y in WithQuantity(a, y.quantity);
    }
    var kb :| 0 <= kb < |b| && b[kb] == x;
    var ka :| 0 <= ka < |a| && a[ka] == y;
    assert Key(x, direction) <= Key(y, direction);
    assert Key(y, direction) <= Key(x, direction);
    assert x.quantity == y.quantity;
    WithQuantityHead(a);
    WithQuantityHead(b);
    assert WithQuantity(a, x.quantity) == WithQuantity(b, y.quantity);
  }

  /** Removing an equal head keeps the quantity groups equal. */
  lemma SameTailGroups(a: seq<Item>, b: seq<Item>)
    requires forall q :: WithQuantity(a, q) == WithQuantity(b, q)
    requires |a| > 0 && |b| > 0 && a[0] == b[0]
    ensures forall q :: WithQuantity(a[1..], q) == WithQuantity(b[1..], q)
  {
    assert a == [a[0]] + a[1..] && b == [a[0]] + b[1..];
    forall q ensures WithQuantity(a[1..], q) == WithQuantity(b[1..], q) {
      FilterAppend(HasQuantity(q), [a[0]], a[1..]);
      FilterAppend(HasQuantity(q), [a[0]], b[1..]);
      var h := WithQuantity([a[0]], q);
      assert WithQuantity(a, q) == h + WithQuantity(a[1..], q);
      assert WithQuantity(b, q) == h + WithQuantity(b[1..], q);
      assert WithQuantity(a[1..], q) == WithQuantity(a, q)[|h|..];
    }
  }

  /** A sequence ordered by key is determined by the order of each group of
      equal quantities: there is only one stable sort. */
  lemma {:induction false} SortUnique(a: seq<Item>, b: seq<Item>, direction: string)
    requires Sorted(a, direction) && Sorted(b, direction)
    requires forall q :: WithQuantity(a, q) == WithQuantity(b, q)
    ensures a == b
    decreases |a|
  {
    SameGroupsSameMultiset(a, b);
    assert |a| == |multiset(a)| == |multiset(b)| == |b|;
    if |a| > 0 {
      SameHead(a, b, direction);
      SameTailGroups(a, b);
      SortedTail(a, direction);
      SortedTail(b, direction);
      SortUnique(a[1..], b[1..], direction);
      assert a == [a[0]] + a[1..] && b == [b[0]] + b[1..];
    }
  }

  /** Any arrangement that is ordered by the comparator and keeps ties in
      their original order is the one `Sort` returns. */
  lemma SortIsTheStableSort(s: seq<Item>, r: seq<Item>, direction: string)
    requires Sorted(r, direction)
    requires forall q :: WithQuantity(r, q) == WithQuantity(s, q)
    ensures r == Sort(s, direction)
  {
    SortSorted(s, direction);
    forall q ensures WithQuantity(r, q) == WithQuantity(Sort(s, direction), q) {
      SortStable(s, direction, q);
    }
    SortUnique(r, Sort(s, direction), direction);
  }

  /** Sorting an already sorted sequence, in either direction, gives what
      sorting the original would: earlier sorts leave no trace. */
  lemma Resort(s: seq<Item>, first: string, second: string)
    ensures Sort(Sort(s, first), second) == Sort(s, second)
  {
    SortSorted(Sort(s, first), second);
    forall q ensures WithQuantity(Sort(Sort(s, first), second), q) == WithQuantity(s, q) {
      SortStable(Sort(s, first), second, q);
      SortStable(s, first, q);
    }
    SortIsTheStableSort(s, Sort(Sort(s, first), second), second);
  }

  /** The sorted sequence is a permutation of the input, ordered by quantity
      (non-decreasing for `"asc"`, non-increasing for any other direction),
      with equal quantities in their original relative order. */
  lemma SortSpec(s: seq<Item>, direction: string)
    ensures multiset(Sort(s, direction)) == multiset(s)
    ensures direction == Ascending ==>
      forall i, j | 0 <= i < j < |s| :: Sort(s, direction)[i].quantity <= Sort(s, direction)[j].quantity
    ensures direction != Ascending ==>
      forall i, j | 0 <= i < j < |s| :: Sort(s, direction)[i].quantity >= Sort(s, direction)[j].quantity
    ensures forall q :: WithQuantity(Sort(s, direction), q) == WithQuantity(s, q)
  {
    SortSorted(s, direction);
    var r := Sort(s, direction);
    forall i, j | 0 <= i < j < |s|
      ensures direction == Ascending ==> r[i].quantity <= r[j].quantity
      ensures direction != Ascending ==> r[i].quantity >= r[j].quantity
    {
      assert Key(r[i], direction) <= Key(r[j], direction);
    }
    forall q ensures WithQuantity(r, q) == WithQuantity(s, q) {
      SortStable(s, direction, q);
    }
  }

  /** Every direction other than `"asc"` sorts the same way. */
  lemma {:induction false} NonAscendingIsDescending(s: seq<Item>, direction: string)
    requires direction != Ascending
    ensures Sort(s, direction) == Sort(s, Descending)
    decreases |s|
  {
    if |s| > 0 {
      var n := |s| - 1;
      NonAscendingIsDescending(s[..n], direction);
      InsertSameForNonAscending(s[n], Sort(s[..n], direction), direction);
    }
  }

  lemma {:induction false} InsertSameForNonAscending(x: Item, s: seq<Item>, direction: string)
    requires direction != Ascending
    ensures Insert(x, s, direction) == Insert(x, s, Descending)
    decreases |s|
  {
    if |s| > 0 {
      InsertSameForNonAscending(x, s[1..], direction);
    }
  }
}
