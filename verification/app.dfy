/** The `App` component as a state machine: its state variables, the user
    actions that change them, and the views derived from them. */
module App {
  import opened Wrappers
  import opened Seqs
  import opened Items
  import opened Store
  import opened CategoryList
  import opened StableSort
  import opened View
  import opened Preferences
  import opened ItemForm
  import opened JsNumbers

  /** The component's state variables. */
  datatype State = State(
    theme: string,
    items: seq<Item>,
    selectedCategory: string,
    sortDirection: string,
    editingItem: Option<Item>,
    isModalOpen: bool,
    deleteConfirmItem: Option<string>)

  /** What the user can do. `SubmitForm` carries the text the form holds and
      the identifier `Date.now().toString()` would produce at that moment. */
  datatype Action =
    | ThemeClicked
    | AddClicked
    | EditClicked(item: Item)
    | CloseModal
    | SubmitForm(draft: Draft, freshId: string)
    | DeleteClicked(id: string)
    | CancelDelete
    | ConfirmDelete
    | CategoryChanged(category: string)
    | SortClicked

  /** The add/edit dialog as the screen shows it. */
  datatype Dialog = Closed | Creating | Editing(item: Item)

  /** The three items the store starts with. */
  const Laptop: Item := Item("1", "Laptop", "Electronics", 5, 999.99, "High-performance laptop")
  const Chair: Item := Item("2", "Desk Chair", "Furniture", 12, 199.99, "Ergonomic office chair")
  const Printer: Item := Item("3", "Printer", "Electronics", 3, 299.99, "Color laser printer")
  const SeedItems: seq<Item> := [Laptop, Chair, Printer]

  /** The state on load, given the stored theme (`None` when nothing is stored). */
  function Initial(saved: Option<string>): (s: State)
    ensures s.theme == InitialTheme(saved) && s.items == SeedItems
    ensures Invariant(s)
    ensures DialogOf(s) == Closed && s.deleteConfirmItem.None?
    ensures s.selectedCategory == All && s.sortDirection == Descending
  {
    State(InitialTheme(saved), SeedItems, All, Descending, None, false, None)
  }

  /** The rows of the table. */
  function Shown(s: State): seq<Item> {
    Visible(s.items, s.selectedCategory, s.sortDirection)
  }

  /** The entries of the category drop-down. */
  function Menu(s: State): seq<string> {
    Categories(s.items)
  }

  /** The dialog the screen shows: the modal is rendered while `isModalOpen`
      holds, as an edit form when an item is being edited. */
  function DialogOf(s: State): Dialog {
    if !s.isModalOpen then Closed
    else match s.editingItem
      case Some(x) => Editing(x)
      case None => Creating
  }

  /** Whether the delete confirmation is on screen: it is rendered only for
      a truthy identifier, so never for the empty string. */
  predicate Confirming(s: State) {
    s.deleteConfirmItem.Some? && s.deleteConfirmItem.value != ""
  }

  /** What every reachable state satisfies: an item is being edited only
      while the modal is open, and identifiers are unique. */
  predicate Invariant(s: State) {
    && (s.editingItem.Some? ==> s.isModalOpen)
    && UniqueIds(s.items)
  }

  /** The effect of one action. Actions on a dialog that is not on screen
      change nothing, since its buttons are not rendered. Prices are read
      with the caller's `parseFloat`. */
  function Step(s: State, a: Action, parseFloat: string -> Option<Price>): (t: State)
    ensures !(a.SubmitForm? && s.isModalOpen) && !(a.ConfirmDelete? && Confirming(s)) ==> t.items == s.items
    ensures !a.ThemeClicked? ==> t.theme == s.theme
    ensures !a.SortClicked? ==> t.sortDirection == s.sortDirection
    ensures !a.CategoryChanged? ==> t.selectedCategory == s.selectedCategory
    ensures a.DeleteClicked? || a.ConfirmDelete? || a.CancelDelete? || t.deleteConfirmItem == s.deleteConfirmItem
  {
    match a
    case ThemeClicked => s.(theme := ToggleTheme(s.theme))
    case AddClicked => s.(editingItem := None, isModalOpen := true)
    case EditClicked(x) => s.(editingItem := Some(x), isModalOpen := true)
    case CloseModal => if s.isModalOpen then s.(isModalOpen := false, editingItem := None) else s
    case SubmitForm(d, freshId) => if s.isModalOpen then OnSubmit(s, d, freshId, parseFloat) else s
    case DeleteClicked(id) => s.(deleteConfirmItem := Some(id))
    case CancelDelete => if Confirming(s) then s.(deleteConfirmItem := None) else s
    case ConfirmDelete => if Confirming(s) then OnConfirmDelete(s) else s
    case CategoryChanged(c) => s.(selectedCategory := c)
    case SortClicked => s.(sortDirection := ToggleDirection(s.sortDirection))
  }

  /** The form's `onSubmit`: `handleEditItem` while an item is being edited,
      `handleAddItem` otherwise; both close the modal. */
  function OnSubmit(s: State, d: Draft, freshId: string, parseFloat: string -> Option<Price>): (t: State)
    ensures DialogOf(t) == Closed && t.editingItem.None?
    ensures s.editingItem.None? ==>
      && |t.items| == |s.items| + 1 && t.items[..|s.items|] == s.items
      && t.items[|s.items|].id == freshId && SameFields(t.items[|s.items|], Submit(d, None, parseFloat))
    ensures s.editingItem.Some? ==> |t.items| == |s.items| && Ids(t.items) == Ids(s.items)
    ensures t.theme == s.theme && t.selectedCategory == s.selectedCategory
    ensures t.sortDirection == s.sortDirection && t.deleteConfirmItem == s.deleteConfirmItem
  {
    var entry := Submit(d, s.editingItem, parseFloat);
    if s.editingItem.Some? then
      s.(items := Edit(s.items, entry), editingItem := None, isModalOpen := false)
    else
      s.(items := Add(s.items, entry, freshId), isModalOpen := false)
  }

  /** Submitting runs the form's handler exactly when the modal is open. */
  lemma StepSubmit(s: State, d: Draft, freshId: string, parseFloat: string -> Option<Price>)
    ensures Step(s, SubmitForm(d, freshId), parseFloat)
         == if s.isModalOpen then OnSubmit(s, d, freshId, parseFloat) else s
  {
  }

  /** The store after a submit: the edited rows, or the new row appended. */
  lemma OnSubmitItems(s: State, d: Draft, freshId: string, parseFloat: string -> Option<Price>)
    ensures OnSubmit(s, d, freshId, parseFloat).items
         == if s.editingItem.Some? then Edit(s.items, Submit(d, s.editingItem, parseFloat))
            else Add(s.items, Submit(d, None, parseFloat), freshId)
  {
  }

  /** The confirmation's Delete button: `handleDeleteItem` on the pending
      identifier, which also clears it. */
  function OnConfirmDelete(s: State): (t: State)
    requires s.deleteConfirmItem.Some?
    ensures t.deleteConfirmItem.None? && s.deleteConfirmItem.value !in Ids(t.items)
    ensures forall x :: x in t.items <==> x in s.items && x.id != s.deleteConfirmItem.value
    ensures DialogOf(t) == DialogOf(s) && t.theme == s.theme
  {
    s.(items := Delete(s.items, s.deleteConfirmItem.value), deleteConfirmItem := None)
  }

  /** Every action keeps the invariant, provided a new item's identifier is
      not already in use (the clock is assumed never to repeat one). */
  lemma StepKeepsInvariant(s: State, a: Action, parseFloat: string -> Option<Price>)
    requires Invariant(s)
    requires a.SubmitForm? ==> a.freshId !in Ids(s.items)
    ensures Invariant(Step(s, a, parseFloat))
  {
    match a
    case SubmitForm(d, freshId) =>
      if s.isModalOpen {
        var entry := Submit(d, s.editingItem, parseFloat);
        if s.editingItem.Some? {
          EditKeepsIdsUnique(s.items, entry);
        } else {
          AddKeepsIdsUnique(s.items, entry, freshId);
        }
      }
    case ConfirmDelete =>
      if Confirming(s) {
        DeleteKeepsIdsUnique(s.items, s.deleteConfirmItem.value);
      }
    case _ =>
  }

  /** The dialog moves between closed, creating and editing as the buttons
      say: opening picks the mode, and submitting or cancelling closes it. */
  lemma DialogTransitions(s: State, parseFloat: string -> Option<Price>)
    ensures DialogOf(Step(s, AddClicked, parseFloat)) == Creating
    ensures forall x :: DialogOf(Step(s, EditClicked(x), parseFloat)) == Editing(x)
    ensures DialogOf(Step(s, CloseModal, parseFloat)) == Closed
    ensures forall d, id :: DialogOf(Step(s, SubmitForm(d, id), parseFloat)) == Closed
  {
  }

  /** Creating appends one item, with the form's fields and the fresh
      identifier; editing keeps the length and the identifiers. */
  lemma SubmitUpdatesStore(s: State, d: Draft, freshId: string, parseFloat: string -> Option<Price>)
    requires s.isModalOpen
    ensures var t := Step(s, SubmitForm(d, freshId), parseFloat);
      s.editingItem.None? ==>
        && |t.items| == |s.items| + 1 && t.items[..|s.items|] == s.items
        && t.items[|s.items|].id == freshId && SameFields(t.items[|s.items|], Submit(d, None, parseFloat))
    ensures var t := Step(s, SubmitForm(d, freshId), parseFloat);
      s.editingItem.Some? ==> Ids(t.items) == Ids(s.items)
  {
    StepSubmit(s, d, freshId, parseFloat);
    OnSubmitItems(s, d, freshId, parseFloat);
  }

  /** The delete confirmation appears for a truthy identifier only, and
      cancelling or confirming takes it away. */
  lemma ConfirmationTransitions(s: State, parseFloat: string -> Option<Price>)
    ensures forall id :: Confirming(Step(s, DeleteClicked(id), parseFloat)) <==> id != ""
    ensures !Confirming(Step(s, CancelDelete, parseFloat))
    ensures !Confirming(Step(s, ConfirmDelete, parseFloat))
  {
  }

  /** Confirming a delete removes every item with that identifier and
      closes the confirmation. */
  lemma ConfirmDeleteRemoves(s: State, parseFloat: string -> Option<Price>)
    requires Confirming(s)
    ensures Step(s, ConfirmDelete, parseFloat) == OnConfirmDelete(s)
    ensures var t := Step(s, ConfirmDelete, parseFloat);
      && t.items == Delete(s.items, s.deleteConfirmItem.value)
      && s.deleteConfirmItem.value !in Ids(t.items) && t.deleteConfirmItem.None?
  {
    StepConfirm(s, parseFloat);
    var id := s.deleteConfirmItem.value;
    var t := OnConfirmDelete(s);
    assert t.items == Delete(s.items, id) && t.deleteConfirmItem.None?;
  }

  /** The confirmation's Delete button runs the delete handler. */
  lemma StepConfirm(s: State, parseFloat: string -> Option<Price>)
    requires Confirming(s)
    ensures Step(s, ConfirmDelete, parseFloat) == OnConfirmDelete(s)
  {
  }

  /** Saving an edit form nobody touched leaves the store as it was, when
      the edited item is in the store and identifiers are unique. */
  lemma SavingUntouchedEditKeepsStore(
    s: State, x: Item, priceText: Price -> string, freshId: string, parseFloat: string -> Option<Price>)
    requires Invariant(s) && x in s.items
    requires s.isModalOpen && s.editingItem == Some(x)
    requires parseFloat(priceText(x.price)) == Some(x.price)
    ensures Step(s, SubmitForm(Seed(Some(x), priceText), freshId), parseFloat).items == s.items
  {
    StepSubmit(s, Seed(Some(x), priceText), freshId, parseFloat);
    OnSubmitItems(s, Seed(Some(x), priceText), freshId, parseFloat);
    SaveUntouchedForm(x, priceText, parseFloat);
    EditWithOwnFields(s.items, x);
  }

  /** Clicking the sort button twice brings back the same rows, whatever
      the direction was: any direction other than `"asc"` sorts descending. */
  lemma SortClickedTwiceShowsSameRows(s: State, parseFloat: string -> Option<Price>)
    ensures Shown(Step(Step(s, SortClicked, parseFloat), SortClicked, parseFloat)) == Shown(s)
  {
    var d := s.sortDirection;
    var d2 := ToggleDirection(ToggleDirection(d));
    var t := Step(Step(s, SortClicked, parseFloat), SortClicked, parseFloat);
    assert t.items == s.items && t.selectedCategory == s.selectedCategory && t.sortDirection == d2;
    if d == Ascending {
      assert d2 == d;
    } else {
      assert d2 == Descending;
      VisibleNonAscendingIsDescending(s.items, s.selectedCategory, d);
    }
  }

  /** Filtering the seed items to "Electronics", descending, shows the
      laptop and then the printer. */
  lemma SeedElectronicsDescending()
    ensures Visible(SeedItems, "Electronics", Descending) == [Laptop, Printer]
  {
    FilterAppendSeed();
    assert Visible(SeedItems, "Electronics", Descending) == Sort([Laptop, Printer], Descending);
    SortLaptopPrinter();
  }

  /** The Electronics rows of the seed store are already in descending order. */
  lemma SortLaptopPrinter()
    ensures Sort([Laptop, Printer], Descending) == [Laptop, Printer]
  {
    var s := [Laptop, Printer];
    assert s[..1] == [Laptop] && s[1] == Printer;
    assert Sort([Laptop], Descending) == [Laptop];
    assert Sort(s, Descending) == Insert(Printer, [Laptop], Descending);
    InsertPrinterAfterLaptop();
  }

  /** The printer has fewer units than the laptop, so it goes after it. */
  lemma InsertPrinterAfterLaptop()
    ensures Insert(Printer, [Laptop], Descending) == [Laptop, Printer]
  {
    assert Compare(Laptop, Printer, Descending) <= 0;
    assert [Laptop][1..] == [];
    assert Insert(Printer, [Laptop], Descending) == [Laptop] + Insert(Printer, [], Descending);
  }

  /** The seed store filtered to Electronics. */
  lemma FilterAppendSeed()
    ensures ByCategory(SeedItems, "Electronics") == [Laptop, Printer]
  {
    var p := InCategory("Electronics");
    assert p(Laptop) && !p(Chair) && p(Printer);
    FilterOfThree(p, Laptop, Chair, Printer);
  }

  /** Adding an item whose quantity text has no digits stores quantity zero
      and the parsed price. */
  lemma AddMonitorScenario(parseFloat: string -> Option<Price>, now: string)
    requires parseFloat("150.5") == Some(150.5)
    ensures var s := Step(Step(Initial(None), AddClicked, parseFloat),
                          SubmitForm(Draft("Monitor", "Electronics", "abc", "150.5", "27in"), now), parseFloat);
      && |s.items| == 4 && s.items[3].id == now
      && s.items[3].quantity == 0 && s.items[3].price == 150.5
  {
    var d := Draft("Monitor", "Electronics", "abc", "150.5", "27in");
    var s1 := Step(Initial(None), AddClicked, parseFloat);
    assert s1.items == SeedItems && s1.editingItem.None? && s1.isModalOpen;
    StepSubmit(s1, d, now, parseFloat);
    OnSubmitItems(s1, d, now, parseFloat);
    var entry := Submit(d, None, parseFloat);
    assert entry.quantity == 0 && entry.price == 150.5 by {
      ParseIntOfLetters();
    }
    var r := Add(SeedItems, entry, now);
    assert |r| == 4 && r[3].id == now && SameFields(r[3], entry);
  }

  /** Confirming the delete of item "2" removes it and closes the
      confirmation. */
  lemma DeleteChairScenario(parseFloat: string -> Option<Price>)
    ensures var s := Step(Step(Initial(None), DeleteClicked("2"), parseFloat), ConfirmDelete, parseFloat);
      "2" !in Ids(s.items) && s.deleteConfirmItem.None? && |s.items| == 2
  {
    var s1 := Step(Initial(None), DeleteClicked("2"), parseFloat);
    assert s1.deleteConfirmItem == Some("2") && s1.items == SeedItems;
    ConfirmDeleteRemoves(s1, parseFloat);
    DeleteChairFromSeed();
  }

  /** The seed store without item "2". */
  lemma DeleteChairFromSeed()
    ensures Delete(SeedItems, "2") == [Laptop, Printer]
  {
    var p := IdDiffers("2");
    assert p(Laptop) && !p(Chair) && p(Printer);
    FilterOfThree(p, Laptop, Chair, Printer);
  }

  /** Editing item "1" to quantity 2 flags it as low on stock. */
  lemma EditLaptopScenario(parseFloat: string -> Option<Price>)
    ensures var s := Step(Step(Initial(None), EditClicked(Laptop), parseFloat),
                          SubmitForm(Draft("Laptop", "Electronics", "2", "999.99", "High-performance laptop"), "9"),
                          parseFloat);
      s.items[0].id == "1" && s.items[0].quantity == 2 && IsLowStock(s.items[0])
  {
    var d := Draft("Laptop", "Electronics", "2", "999.99", "High-performance laptop");
    var s1 := Step(Initial(None), EditClicked(Laptop), parseFloat);
    assert s1.items == SeedItems && s1.editingItem == Some(Laptop) && s1.isModalOpen;
    StepSubmit(s1, d, "9", parseFloat);
    OnSubmitItems(s1, d, "9", parseFloat);
    var entry := Submit(d, Some(Laptop), parseFloat);
    assert entry.id == Some("1") && entry.quantity == 2 by {
      ParseIntOfDigit2();
    }
    var r := Edit(SeedItems, entry);
    assert r[0].id == Ids(r)[0] == Ids(SeedItems)[0] == "1";
    assert SameFields(r[0], entry);
  }

  /** `parseInt("2")` is 2. */
  lemma ParseIntOfDigit2()
    ensures ParseInt("2") == Some(2)
  {
    var s := "2";
    assert s[0] == '2' && s == [DecimalChar(2)] + [];
    MagnitudeOfDecimal(2, []);
    ParseIntOfUnsigned(s, 2);
  }

  /** The store as the program leaves it after a render. `filtered.sort`
      sorts in place, and with the filter at `"all"` the array it sorts is
      the `items` state itself, so rendering reorders the store. The rows
      of this render are the same either way; the handlers of later steps
      see the reordered store. */
  function StoreAfterRender(s: State): (r: seq<Item>)
    ensures multiset(r) == multiset(s.items)
    ensures Visible(r, s.selectedCategory, s.sortDirection) == Shown(s)
  {
    if s.selectedCategory == All then
      VisibleIgnoresEarlierSort(s.items, All, s.sortDirection, s.sortDirection);
      Sort(s.items, s.sortDirection)
    else s.items
  }

  /** The seed store sorted descending: the chair has the most units. */
  lemma SortSeedDescending()
    ensures Sort(SeedItems, Descending) == [Chair, Laptop, Printer]
  {
    assert SeedItems[..2] == [Laptop, Chair];
    assert Sort(SeedItems, Descending) == Insert(Printer, Sort([Laptop, Chair], Descending), Descending);
    SortLaptopChair();
    InsertPrinter();
  }

  /** The chair goes in front of the laptop. */
  lemma SortLaptopChair()
    ensures Sort([Laptop, Chair], Descending) == [Chair, Laptop]
  {
    var s := [Laptop, Chair];
    assert s[..1] == [Laptop];
    assert Sort([Laptop], Descending) == [Laptop];
    assert Compare(Laptop, Chair, Descending) > 0;
    assert Sort(s, Descending) == Insert(Chair, [Laptop], Descending);
  }

  /** The printer has the fewest units, so it goes last. */
  lemma InsertPrinter()
    ensures Insert(Printer, [Chair, Laptop], Descending) == [Chair, Laptop, Printer]
  {
    assert Compare(Chair, Printer, Descending) <= 0;
    assert [Chair, Laptop][1..] == [Laptop];
    InsertPrinterAfterLaptop();
  }

  /** Menu entries of a store built by appending, computed one item at a time. */
  lemma MenuOfThree(a: Item, b: Item, c: Item)
    requires a.category != b.category && c.category in {a.category, b.category}
    ensures Categories([a, b, c]) == [All, a.category, b.category]
  {
    MenuOfTwo(a, b);
    var m := Categories([a, b]);
    assert m[1..] == [a.category, b.category];
    assert c.category in m[1..];
    CategoriesAfterAppend([a, b], c);
    assert [a, b] + [c] == [a, b, c];
  }

  /** Two items with different categories list both, in store order. */
  lemma MenuOfTwo(a: Item, b: Item)
    requires a.category != b.category
    ensures Categories([a, b]) == [All, a.category, b.category]
  {
    var none: seq<Item> := [];
    assert Categories(none) == [All];
    CategoriesAfterAppend(none, a);
    assert none + [a] == [a];
    var m := Categories([a]);
    assert m == [All, a.category];
    assert m[1..] == [a.category];
    CategoriesAfterAppend([a], b);
    assert [a] + [b] == [a, b];
  }

  /** On the seed store, with the default descending order, the first render
      puts the chair first. Once another Electronics item is added, the
      drop-down lists Furniture before Electronics, although the store saw
      Electronics first; without the in-place sort it would not. */
  lemma InPlaceSortReordersMenu(e: Entry, id: string)
    requires e.category == "Electronics"
    ensures Categories(Add(StoreAfterRender(Initial(None)), e, id)) == [All, "Furniture", "Electronics"]
    ensures Categories(Add(SeedItems, e, id)) == [All, "Electronics", "Furniture"]
  {
    var x := WithId(e, id);
    SortSeedDescending();
    assert Add(StoreAfterRender(Initial(None)), e, id) == [Chair, Laptop, Printer] + [x];
    CategoriesAfterAppend([Chair, Laptop, Printer], x);
    MenuOfThree(Chair, Laptop, Printer);
    CategoriesAfterAppend(SeedItems, x);
    MenuOfThree(Laptop, Chair, Printer);
  }

  /** Laptop's row saved with 12 units, as the edit form submits it. */
  const LaptopAt12: Entry := Entry(Some("1"), "Laptop", "Electronics", 12, 999.99, "High-performance laptop")

  /** On the seed store, with the default descending order, the first render
      puts the chair first. Editing the laptop to the chair's 12 units then
      shows the chair above the laptop, although the laptop was added first;
      without the in-place sort the laptop stays above the chair. */
  lemma InPlaceSortReordersTies()
    ensures Visible(Edit(StoreAfterRender(Initial(None)), LaptopAt12), All, Descending)
         == [Chair, WithId(LaptopAt12, "1"), Printer]
    ensures Visible(Edit(SeedItems, LaptopAt12), All, Descending)
         == [WithId(LaptopAt12, "1"), Chair, Printer]
  {
    RenderedSeed();
    EditRenderedSeed();
    EditSeed();
  }

  /** The edit applied to the rendered seed store. */
  lemma EditRenderedSeed()
    ensures Visible(Edit([Chair, Laptop, Printer], LaptopAt12), All, Descending)
         == [Chair, WithId(LaptopAt12, "1"), Printer]
  {
    var l12 := WithId(LaptopAt12, "1");
    var rendered := [Chair, Laptop, Printer];
    EditLaptopTo12(rendered, 1);
    assert rendered[1 := l12] == [Chair, l12, Printer];
    ShownAsStored([Chair, l12, Printer]);
  }

  /** The edit applied to the seed store as it was created. */
  lemma EditSeed()
    ensures Visible(Edit(SeedItems, LaptopAt12), All, Descending) == [WithId(LaptopAt12, "1"), Chair, Printer]
  {
    var l12 := WithId(LaptopAt12, "1");
    EditLaptopTo12(SeedItems, 0);
    assert SeedItems[0 := l12] == [l12, Chair, Printer];
    ShownAsStored([l12, Chair, Printer]);
  }

  /** The first render of the seed store leaves the chair first. */
  lemma RenderedSeed()
    ensures StoreAfterRender(Initial(None)) == [Chair, Laptop, Printer]
  {
    var s := Initial(None);
    assert s.selectedCategory == All && s.sortDirection == Descending && s.items == SeedItems;
    SortSeedDescending();
  }

  /** Saving `LaptopAt12` over a store of the three seed items replaces the
      laptop, wherever it sits, and nothing else. */
  lemma EditLaptopTo12(items: seq<Item>, k: nat)
    requires |items| == 3 && k < 3 && items[k] == Laptop
    requires forall i | 0 <= i < 3 && i != k :: items[i] in {Chair, Printer}
    ensures Edit(items, LaptopAt12) == items[k := WithId(LaptopAt12, "1")]
  {
    var r := Edit(items, LaptopAt12);
    assert r[k].id == Ids(r)[k] == Ids(items)[k] == "1";
  }

  /** A store already in descending order of quantity is shown as it is. */
  lemma ShownAsStored(items: seq<Item>)
    requires forall i, j | 0 <= i < j < |items| :: items[i].quantity >= items[j].quantity
    ensures Visible(items, All, Descending) == items
  {
    SortIsTheStableSort(items, items, Descending);
  }

  /** Without the in-place sort, saving an edit keeps every row in its
      place in the store, so rows of equal quantity stay in the order
      their items were added. */
  lemma EditKeepsTieOrder(s: State, d: Draft, freshId: string, parseFloat: string -> Option<Price>)
    requires s.isModalOpen && s.editingItem.Some?
    ensures var t := Step(s, SubmitForm(d, freshId), parseFloat);
      && Ids(t.items) == Ids(s.items)
      && forall q :: WithQuantity(Shown(t), q) == WithQuantity(ByCategory(t.items, t.selectedCategory), q)
  {
    StepSubmit(s, d, freshId, parseFloat);
    var t := OnSubmit(s, d, freshId, parseFloat);
    VisibleSpec(t.items, t.selectedCategory, t.sortDirection);
  }

  /** Without the in-place sort, creating an item keeps the drop-down in
      first-seen order: it extends the old list by the new category when
      that category is new, whatever has been rendered before. */
  lemma MenuAfterCreate(s: State, d: Draft, freshId: string, parseFloat: string -> Option<Price>)
    requires s.isModalOpen && s.editingItem.None?
    ensures var t := Step(s, SubmitForm(d, freshId), parseFloat);
      Menu(t) == Menu(s) + (if d.category in Menu(s)[1..] then [] else [d.category])
  {
    var entry := Submit(d, None, parseFloat);
    StepSubmit(s, d, freshId, parseFloat);
    OnSubmitItems(s, d, freshId, parseFloat);
    CategoriesAfterAppend(s.items, WithId(entry, freshId));
  }
}
