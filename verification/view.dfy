/** The table's rows: the `filteredAndSortedItems` memo. */
module View {
  import opened Seqs
  import opened Items
  import opened CategoryList
  import opened StableSort
  import opened Preferences

  /** The row filter `item.category === selectedCategory`. */
  function InCategory(selected: string): Item -> bool {
    (x: Item) => x.category == selected
  }

  /** The filter step: every item for `"all"`, otherwise the items whose
      category is exactly the selection, in store order. */
  function ByCategory(items: seq<Item>, selected: string): (r: seq<Item>)
    ensures selected == All ==> r == items
    ensures selected != All ==> forall x :: x in r <==> x in items && x.category == selected
    ensures selected != All ==> forall x :: multiset(r)[x] == if x.category == selected then multiset(items)[x] else 0
  {
    if selected == All then items
    else
      FilterMembers(InCategory(selected), items);
      FilterCount(InCategory(selected), items);
      Filter(InCategory(selected), items)
  }

  /** Filtering a concatenation filters each part, so the filter keeps store
      order. */
  lemma ByCategorySplits(a: seq<Item>, b: seq<Item>, selected: string)
    ensures ByCategory(a + b, selected) == ByCategory(a, selected) + ByCategory(b, selected)
  {
    if selected != All {
      FilterAppend(InCategory(selected), a, b);
    }
  }

  /** Filter, then sort by quantity in the selected direction. */
  function Visible(items: seq<Item>, selected: string, direction: string): (r: seq<Item>)
    ensures multiset(r) == multiset(ByCategory(items, selected))
  {
    Sort(ByCategory(items, selected), direction)
  }

  /** The rows shown are exactly the selected items, ordered by quantity in
      the chosen direction, with equal quantities in store order. */
  lemma VisibleSpec(items: seq<Item>, selected: string, direction: string)
    ensures forall x ::
      x in Visible(items, selected, direction) <==> x in items && (selected == All || x.category == selected)
    ensures var r := Visible(items, selected, direction);
      direction == Ascending ==> forall i, j | 0 <= i < j < |r| :: r[i].quantity <= r[j].quantity
    ensures var r := Visible(items, selected, direction);
      direction != Ascending ==> forall i, j | 0 <= i < j < |r| :: r[i].quantity >= r[j].quantity
    ensures forall q ::
      WithQuantity(Visible(items, selected, direction), q) == WithQuantity(ByCategory(items, selected), q)
  {
    VisibleMembers(items, selected, direction);
    var f := ByCategory(items, selected);
    assert Visible(items, selected, direction) == Sort(f, direction);
    SortSpec(f, direction);
  }

  lemma VisibleMembers(items: seq<Item>, selected: string, direction: string)
    ensures forall x ::
      x in Visible(items, selected, direction) <==> x in items && (selected == All || x.category == selected)
  {
    var f := ByCategory(items, selected);
    var r := Visible(items, selected, direction);
    forall x ensures x in r <==> x in f {
      assert x in multiset(r) <==> x in multiset(f);
    }
  }

  /** Selecting a category that is literally `"all"` shows every item, not
      only the items filed under that category. */
  lemma SelectingAllShowsEverything(items: seq<Item>, direction: string)
    ensures multiset(Visible(items, All, direction)) == multiset(items)
  {
  }

  /** Every direction other than `"asc"` shows the rows in the same order. */
  lemma VisibleNonAscendingIsDescending(items: seq<Item>, selected: string, direction: string)
    requires direction != Ascending
    ensures Visible(items, selected, direction) == Visible(items, selected, Descending)
  {
    NonAscendingIsDescending(ByCategory(items, selected), direction);
  }

  /** The highlighted low-stock rows sit together: last when sorting
      descending, first when sorting ascending. */
  lemma LowStockRowsTogether(items: seq<Item>, selected: string, direction: string)
    ensures var r := Visible(items, selected, direction);
      direction != Ascending ==> forall i, j | 0 <= i < j < |r| && IsLowStock(r[i]) :: IsLowStock(r[j])
    ensures var r := Visible(items, selected, direction);
      direction == Ascending ==> forall i, j | 0 <= i < j < |r| && IsLowStock(r[j]) :: IsLowStock(r[i])
  {
    VisibleSpec(items, selected, direction);
  }

  /** Filtering by category and grouping by quantity commute. */
  lemma GroupsOfFiltered(s: seq<Item>, selected: string, q: int)
    ensures WithQuantity(ByCategory(s, selected), q) == ByCategory(WithQuantity(s, q), selected)
  {
    if selected != All {
      FilterCommutes(HasQuantity(q), InCategory(selected), s);
    }
  }

  /** The rows depend on the store's order only through the order of equal
      quantities: a store that was sorted in place beforehand, in any
      direction, shows the same rows. */
  lemma VisibleIgnoresEarlierSort(items: seq<Item>, selected: string, earlier: string, direction: string)
    ensures Visible(Sort(items, earlier), selected, direction) == Visible(items, selected, direction)
  {
    var f := ByCategory(Sort(items, earlier), selected);
    var g := ByCategory(items, selected);
    forall q ensures WithQuantity(f, q) == WithQuantity(g, q) {
      GroupsOfFiltered(Sort(items, earlier), selected, q);
      GroupsOfFiltered(items, selected, q);
      SortStable(items, earlier, q);
    }
    SortSorted(f, direction);
    SortSorted(g, direction);
    forall q ensures WithQuantity(Sort(f, direction), q) == WithQuantity(Sort(g, direction), q) {
      SortStable(f, direction, q);
      SortStable(g, direction, q);
    }
    SortUnique(Sort(f, direction), Sort(g, direction), direction);
  }
}
