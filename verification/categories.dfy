/** The category drop-down: `"all"` followed by the distinct categories in
    the order a JavaScript `Set` yields them, which is first-insertion order. */
module CategoryList {
  import opened Items

  /** The value of the drop-down entry that disables filtering. */
  const All: string := "all"

  /** `items.map(item => item.category)`. */
  function CategoryColumn(items: seq<Item>): (r: seq<string>)
    ensures |r| == |items|
    ensures forall i | 0 <= i < |items| :: r[i] == items[i].category
  {
    seq(|items|, i requires 0 <= i < |items| => items[i].category)
  }

  predicate NoDuplicates(xs: seq<string>) {
    forall i, j | 0 <= i < j < |xs| :: xs[i] != xs[j]
  }

  /** The position where `x` first occurs in `xs`. */
  function FirstIndex(xs: seq<string>, x: string): (k: nat)
    requires x in xs
    ensures k < |xs| && xs[k] == x && x !in xs[..k]
  {
    if xs[0] == x then 0
    else
      var k := 1 + FirstIndex(xs[1..], x);
      assert xs[1..][..k - 1] == xs[1..k];
      k
  }

  /** `Array.from(new Set(xs))`: each value once, in order of first occurrence. */
  function Distinct(xs: seq<string>): (r: seq<string>)
    ensures forall x :: x in r <==> x in xs
    ensures NoDuplicates(r)
    decreases |xs|
  {
    if |xs| == 0 then []
    else
      var d := Distinct(xs[..|xs| - 1]);
      var last := xs[|xs| - 1];
      assert xs == xs[..|xs| - 1] + [last];
      if last in d then d else d + [last]
  }

  /** Where a value first occurs does not change when more values follow. */
  lemma FirstIndexOfPrefix(xs: seq<string>, n: nat, x: string)
    requires n <= |xs| && x in xs[..n]
    ensures FirstIndex(xs, x) == FirstIndex(xs[..n], x)
  {
    var k := FirstIndex(xs[..n], x);
    var m := FirstIndex(xs, x);
    assert xs[..n][..k] == xs[..k];
  }

  /** The distinct values appear in the order of their first occurrence. */
  lemma {:induction false} DistinctInFirstSeenOrder(xs: seq<string>)
    ensures forall i, j | 0 <= i < j < |Distinct(xs)| ::
      Distinct(xs)[i] in xs && Distinct(xs)[j] in xs &&
      FirstIndex(xs, Distinct(xs)[i]) < FirstIndex(xs, Distinct(xs)[j])
    decreases |xs|
  {
    if |xs| > 0 {
      var n := |xs| - 1;
      var init := xs[..n];
      var last := xs[n];
      assert xs == init + [last];
      DistinctInFirstSeenOrder(init);
      var d := Distinct(init);
      var r := Distinct(xs);
      forall i | 0 <= i < |d| ensures FirstIndex(xs, d[i]) == FirstIndex(init, d[i]) < n {
        FirstIndexOfPrefix(xs, n, d[i]);
      }
      if last !in d {
        assert last !in init;
        assert FirstIndex(xs, last) == n;
        forall i, j | 0 <= i < j < |r|
          ensures FirstIndex(xs, r[i]) < FirstIndex(xs, r[j])
        {
          if j == |d| {
            assert r[i] == d[i];
          } else {
            assert r[i] == d[i] && r[j] == d[j];
          }
        }
      }
    }
  }

  /** The `categories` memo: `"all"`, then every category of the store
      exactly once, in order of first occurrence, and nothing else. */
  function Categories(items: seq<Item>): (r: seq<string>)
    ensures |r| >= 1 && r[0] == All
    ensures r[1..] == Distinct(CategoryColumn(items))
    ensures forall c :: c in r[1..] <==> exists x | x in items :: x.category == c
    ensures NoDuplicates(r[1..])
    ensures forall i, j | 1 <= i < j < |r| ::
      var col := CategoryColumn(items);
      r[i] in col && r[j] in col && FirstIndex(col, r[i]) < FirstIndex(col, r[j])
  {
    ColumnHoldsCategories(items);
    DistinctInFirstSeenOrder(CategoryColumn(items));
    [All] + Distinct(CategoryColumn(items))
  }

  /** The category column holds exactly the items' categories. */
  lemma ColumnHoldsCategories(items: seq<Item>)
    ensures forall c :: c in CategoryColumn(items) <==> exists x | x in items :: x.category == c
  {
    var col := CategoryColumn(items);
    forall c ensures c in col <==> exists x | x in items :: x.category == c {
      if c in col {
        var i :| 0 <= i < |col| && col[i] == c;
        assert items[i] in items;
      }
      if exists x | x in items :: x.category == c {
        var x :| x in items && x.category == c;
        var i :| 0 <= i < |items| && items[i] == x;
        assert col[i] == c;
      }
    }
  }

  /** After the leading `"all"`, every category of the store occurs exactly
      once, in order of first occurrence, and nothing else occurs: counted,
      each category of the store is listed once and any other value never. */
  lemma CategoriesSpec(items: seq<Item>)
    ensures Categories(items)[0] == All
    ensures forall c :: c in Categories(items)[1..] <==> exists x | x in items :: x.category == c
    ensures NoDuplicates(Categories(items)[1..])
    ensures forall i, j | 1 <= i < j < |Categories(items)| ::
      var col := CategoryColumn(items);
      Categories(items)[i] in col && Categories(items)[j] in col &&
      FirstIndex(col, Categories(items)[i]) < FirstIndex(col, Categories(items)[j])
    ensures forall c ::
      multiset(Categories(items)[1..])[c] == if exists x | x in items :: x.category == c then 1 else 0
  {
    forall c ensures multiset(Categories(items)[1..])[c] == if exists x | x in items :: x.category == c then 1 else 0 {
      CountInDistinct(Categories(items)[1..], c);
    }
  }

  /** `"all"` is listed twice exactly when some item's category is literally
      `"all"`, and once otherwise. */
  lemma AllListedTwiceWhenUsedAsCategory(items: seq<Item>)
    ensures multiset(Categories(items))[All] == if exists x | x in items :: x.category == All then 2 else 1
  {
    var d := Distinct(CategoryColumn(items));
    CategoriesSpec(items);
    assert Categories(items) == [All] + d;
    CountInDistinct(d, All);
  }

  lemma CountInDistinct(d: seq<string>, x: string)
    requires NoDuplicates(d)
    ensures multiset(d)[x] == if x in d then 1 else 0
    decreases |d|
  {
    if |d| > 0 {
      assert d == [d[0]] + d[1..];
      assert NoDuplicates(d[1..]) by {
        forall i, j | 0 <= i < j < |d[1..]| ensures d[1..][i] != d[1..][j] {
          assert d[1..][i] == d[i + 1] && d[1..][j] == d[j + 1];
        }
      }
      if d[0] == x {
        assert x !in d[1..] by {
          forall k | 0 <= k < |d[1..]| ensures d[1..][k] != x {
            assert d[1..][k] == d[k + 1];
          }
        }
      }
      CountInDistinct(d[1..], x);
    }
  }

  /** Appending an item extends the category list by its category when that
      category is new, and leaves it unchanged otherwise. */
  lemma CategoriesAfterAppend(items: seq<Item>, x: Item)
    ensures Categories(items + [x]) ==
      Categories(items) + (if x.category in Categories(items)[1..] then [] else [x.category])
  {
    var col := CategoryColumn(items + [x]);
    assert col[..|items|] == CategoryColumn(items);
  }
}
