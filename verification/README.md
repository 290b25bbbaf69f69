# Inventory table: a Dafny model

This project models the logic of the single-page inventory manager in
`src/App.jsx`. The model covers:

- the item store and its three reducers (add, edit, delete);
- the category drop-down, which is `"all"` followed by the distinct categories in first-seen order;
- the table rows, which are filtered by category and then stably sorted by quantity in the chosen direction;
- the theme and sort-direction toggles, and the theme read at start-up;
- the add/edit form: seeding its text fields from an item, and turning them back into an entry with `parseInt(...) || 0`;
- the `App` component as a state machine over its state variables, with four worked scenarios: the seed store filtered to Electronics, adding an item with quantity text `abc`, deleting item `2`, and editing item `1` down to low stock.

Modules, one per component:

| file | module | what |
|---|---|---|
| `wrappers.dfy` | `Wrappers` | `Option`, standing for `undefined`/`null`/`NaN` |
| `seqs.dfy` | `Seqs` | order-preserving `Filter` (`Array.prototype.filter`) |
| `items.dfy` | `Items` | `Item`, the submitted `Entry`, identifiers, the low-stock threshold |
| `store.dfy` | `Store` | `handleAddItem`, `handleEditItem`, `handleDeleteItem` |
| `categories.dfy` | `CategoryList` | the `categories` memo |
| `sorting.dfy` | `StableSort` | the quantity comparator and a stable sort |
| `view.dfy` | `View` | the `filteredAndSortedItems` memo |
| `preferences.dfy` | `Preferences` | theme start-up value and both toggles |
| `js_numbers.dfy` | `JsNumbers` | ECMAScript `parseInt` (no radix) and integer `toString` |
| `item_form.dfy` | `ItemForm` | `ItemForm` seeding and `handleSubmit` |
| `app.dfy` | `App` | state, actions, dialog modes, scenarios, the in-place sort |

`Array.prototype.sort` must be stable (ECMAScript 2019 and later). The model
sorts with a stable insertion sort. `StableSort.SortUnique` shows that only
one arrangement is both ordered by the comparator and keeps ties in their
original order. So any stable sort, including the engine's, returns what the
model returns.

Three behaviours of the code are easy to miss:

- `handleSubmit` neither clamps nor rejects a negative quantity: the numeral of a negative integer is stored as that integer (only the browser's form validation, which is not modelled, stands in the way);
- a stored theme other than `light`/`dark` is kept until the first toggle;
- an edit replaces every row with a matching identifier, not just one row.

## Model

| member | source | states |
|---|---|---|
| `Preferences.InitialTheme` | src/App.jsx:5-8 | the start-up theme is never empty: it is the stored value when that is a non-empty string, otherwise `light` |
| `Preferences.ToggleTheme` | src/App.jsx:66-68 | the result is always `light` or `dark`, and it is `dark` exactly when the previous theme was `light` |
| `Preferences.ThemeToggleInvolution` | src/App.jsx:66-68 | two theme flips restore the theme if and only if it was `light` or `dark`; any other value is normalised on the first flip |
| `Preferences.ToggleDirection` | src/App.jsx:111 | the result is always `asc` or `desc`, and it is `desc` exactly when the previous direction was `asc` |
| `Preferences.DirectionToggleInvolution` | src/App.jsx:111 | two direction flips restore the direction if and only if it was `asc` or `desc` |
| `CategoryList.Distinct` | src/App.jsx:28-29 | the values of a `Set` built from a list: exactly the list's values, with no duplicates |
| `CategoryList.DistinctInFirstSeenOrder` | src/App.jsx:28-29 | the distinct values come in the order of their first occurrence in the list |
| `CategoryList.Categories` | src/App.jsx:27-30 | the drop-down is `"all"` followed by every category of the items exactly once, in order of first occurrence in the store, and nothing else |
| `CategoryList.CategoriesSpec` | src/App.jsx:27-30 | after `"all"`, every item's category occurs once, in order of first occurrence, and nothing else occurs; counted as a multiset, each category of the store is listed exactly once and any other value zero times |
| `CategoryList.AllListedTwiceWhenUsedAsCategory` | src/App.jsx:29 | `"all"` occurs twice in the drop-down exactly when some item's category is literally `"all"`, otherwise once |
| `CategoryList.CategoriesAfterAppend` | src/App.jsx:27-30 | appending an item adds its category to the end of the drop-down if it is new, and otherwise changes nothing |
| `StableSort.Compare` | src/App.jsx:38-41 | the comparator is zero exactly on equal quantities, and positive exactly when the first item belongs later: larger quantity for `asc`, smaller for every other direction |
| `StableSort.CompareIsKeyOrder` | src/App.jsx:39-40 | the comparator's sign is the sign of the difference of the keys (quantity, negated unless ascending) |
| `StableSort.Insert` | src/App.jsx:38-41 | inserting one item adds exactly that item to the multiset of items |
| `StableSort.Sort` | src/App.jsx:38-41 | the sorted sequence is a permutation of the input |
| `StableSort.SortSorted` | src/App.jsx:38-41 | the sorted sequence is ordered by the comparator's key |
| `StableSort.SortStable` | src/App.jsx:38-41 | items of equal quantity keep their relative order |
| `StableSort.SortUnique` | src/App.jsx:38-41 | two sequences ordered by the key with the same order inside every equal-quantity group are equal, so the stable sort is unique |
| `StableSort.SortIsTheStableSort` | src/App.jsx:38-41 | any ordered arrangement that keeps ties in input order is the one the model's sort returns |
| `StableSort.Resort` | src/App.jsx:38 | sorting an already sorted sequence gives the same result as sorting the original, in either direction |
| `StableSort.SortSpec` | src/App.jsx:38-41 | the sort returns a permutation with quantities non-decreasing for `asc` and non-increasing for any other direction, and ties stay in input order |
| `StableSort.NonAscendingIsDescending` | src/App.jsx:39 | every direction value other than `asc` sorts exactly as `desc` |
| `View.ByCategory` | src/App.jsx:33-36 | for `"all"` the filter returns the store unchanged; otherwise it keeps exactly the items whose category equals the selection, each occurrence once |
| `View.ByCategorySplits` | src/App.jsx:35 | the filter distributes over concatenation, so its output is the in-order subsequence of kept items |
| `Seqs.FilterMembers` | src/App.jsx:35 | `Array.prototype.filter` keeps an element if and only if it satisfies the predicate |
| `View.Visible` | src/App.jsx:32-42 | the rows are a permutation of the filtered items |
| `View.VisibleSpec` | src/App.jsx:32-42 | an item is shown if and only if it is in the store and the selection is `"all"` or equals its category; rows are ordered by quantity in the chosen direction, and ties keep store order |
| `View.SelectingAllShowsEverything` | src/App.jsx:34 | selecting `"all"` shows every item, even when `"all"` is also an item's category |
| `Items.IsLowStock` | src/App.jsx:132-135 | a row is highlighted (line 132) and flagged (line 135) exactly when its quantity is below the threshold 10 |
| `View.LowStockRowsTogether` | src/App.jsx:38-41 | the rows highlighted as low stock (`quantity < 10`, lines 132 and 135) are all last when sorting descending and all first when sorting ascending |
| `View.VisibleNonAscendingIsDescending` | src/App.jsx:39 | any direction other than `asc` shows the same rows as `desc` |
| `View.GroupsOfFiltered` | src/App.jsx:33-36 | the category filter and grouping by quantity commute |
| `View.VisibleIgnoresEarlierSort` | src/App.jsx:38 | a store that was sorted in place beforehand shows the same rows as the unsorted store |
| `Store.Add` | src/App.jsx:44-49 | adding grows the store by one and leaves earlier items untouched; the new item has the fresh identifier and the entry's other fields |
| `Store.AddKeepsIdsUnique` | src/App.jsx:44-49 | a fresh identifier that is not already in use keeps identifiers unique |
| `Store.Edit` | src/App.jsx:53-56 | editing keeps the length and every identifier; rows whose identifier equals the entry's take its fields, and every other row is unchanged; with no match the store is identical |
| `Store.EditKeepsIdsUnique` | src/App.jsx:53-56 | editing keeps identifiers unique |
| `Store.EditChangesOneRow` | src/App.jsx:53-56 | with unique identifiers, an edit changes exactly the row with the matching identifier |
| `Store.EditWithOwnFields` | src/App.jsx:53-56 | with unique identifiers, editing a row with its own identifier and fields leaves the store identical |
| `Store.Delete` | src/App.jsx:61-64 | after a delete no item has the identifier; an item survives if and only if its identifier differs; with no match the store is unchanged |
| `Store.DeleteCounts` | src/App.jsx:62 | every item with another identifier survives as often as it occurred, and items with the identifier occur zero times |
| `Store.DeleteSplits` | src/App.jsx:62 | deleting distributes over concatenation, so the result is the in-order subsequence of survivors |
| `Store.DeleteKeepsIdsUnique` | src/App.jsx:61-64 | deleting keeps identifiers unique |
| `JsNumbers.DecimalValue` | src/App.jsx:236 | the decimal numeral written for a number denotes that number |
| `JsNumbers.TrimStart` | src/App.jsx:245 | `parseInt` drops exactly the leading white space: what is left is a suffix that does not start with white space, and everything dropped is white space |
| `JsNumbers.DigitPrefix` | src/App.jsx:245 | the digits read are the longest prefix made of digits |
| `JsNumbers.ParseIntOfDecimal` | src/App.jsx:245 | `parseInt` reads back any integer's `toString`, and stops at the first character that is not a digit |
| `JsNumbers.ParseIntSkipsWhiteSpace` | src/App.jsx:245 | leading white space does not change what `parseInt` reads |
| `JsNumbers.ParseInt` | src/App.jsx:245 | text without a single decimal digit reads as `NaN`, and a negative result comes only from text whose first non-blank character is `-` |
| `JsNumbers.IntToString` | src/App.jsx:236 | the numeral is non-empty, starts with `-` exactly for negative numbers, and is otherwise made of decimal digits |
| `JsNumbers.ParseIntOfLetters` | src/App.jsx:245 | `"abc"` reads as `NaN` |
| `JsNumbers.ParseIntWithoutDigits` | src/App.jsx:245 | text that starts with a character other than white space, a sign or a digit reads as `NaN` |
| `JsNumbers.ParseIntOfNegativeFraction` | src/App.jsx:245 | `" -5.5"` reads as -5 |
| `JsNumbers.ParseIntOfExponent` | src/App.jsx:245 | `"1e3"` reads as 1 |
| `ItemForm.Seed` | src/App.jsx:233-239 | with no item every field is blank; otherwise name, category and description are the item's, the price text is the item's price written out, and the quantity text reads back as the item's quantity |
| `ItemForm.Submit` | src/App.jsx:241-249 | name, category and description pass through; the quantity is the parsed integer or 0 for `NaN`; the price is the parsed price or 0; the identifier is the edited item's, or absent when creating |
| `ItemForm.SaveUntouchedForm` | src/App.jsx:233-249 | opening an item and saving the form unchanged gives back the item's own fields and identifier, given that the price survives its text round trip |
| `ItemForm.QuantityOf` | src/App.jsx:245 | `parseInt(text) \|\| 0` gives back any integer from its own numeral, and 0 for text without a decimal digit |
| `ItemForm.NegativeQuantityAccepted` | src/App.jsx:241-249 | for every negative integer, the form's quantity text written as that integer is stored as that integer: nothing clamps or rejects it |
| `ItemForm.LettersQuantityIsZero` | src/App.jsx:245 | any quantity text without a decimal digit is stored as 0 |
| `App.Initial` | src/App.jsx:5-20 | the start-up state has the start-up theme and the three seed items, satisfies the invariant, has no dialog open, and filters by `"all"` sorted descending |
| `App.Step` | src/App.jsx:44-219 | over the handlers at lines 44-68 and the event bindings at lines 78, 85-88, 100, 111, 148-151, 158, 179-197, 213 and 219, on a store kept in insertion order (the in-place sort is not part of a step): only a submit with the modal open or a delete confirmed on screen changes the store; only the theme button changes the theme, only the sort button the direction, only the drop-down the category; only the delete, cancel and confirm buttons touch the pending deletion |
| `App.OnSubmit` | src/App.jsx:191-193 | with the handlers at lines 44-59: submitting closes the dialog; creating appends one row with the fresh identifier and the form's fields, editing keeps the length and the identifiers; theme, filter, direction and pending deletion stay as they were |
| `App.OnConfirmDelete` | src/App.jsx:61-64 | as the Delete button at line 219 calls it: the pending identifier no longer occurs in the store, exactly the rows with other identifiers remain, the confirmation is cleared, and the dialog and theme are untouched |
| `App.Confirming` | src/App.jsx:204 | the confirmation is on screen exactly when the pending identifier is present and non-empty |
| `App.ConfirmationTransitions` | src/App.jsx:204-219 | clicking Delete (line 158) shows the confirmation exactly when the identifier is non-empty (it is rendered only for a truthy value), and Cancel or Delete on it takes it away |
| `App.StepKeepsInvariant` | src/App.jsx:44-64 | every action keeps identifiers unique, and an item is edited only while the modal is open, given a fresh identifier for each add |
| `App.DialogTransitions` | src/App.jsx:85-197 | Add (lines 85-88) opens the creating dialog, Edit (lines 148-151) opens the editing dialog for that item, and close or cancel (lines 179-182, 194-197) or submit (lines 191-193) closes it |
| `App.SubmitUpdatesStore` | src/App.jsx:191-193 | submitting while creating appends one item with the fresh identifier and the form's fields; submitting while editing keeps every identifier |
| `App.ConfirmDeleteRemoves` | src/App.jsx:219 | confirming a delete removes every item with the pending identifier and clears the confirmation |
| `App.SavingUntouchedEditKeepsStore` | src/App.jsx:191-193 | with unique identifiers and the edited item in the store, saving an untouched edit form leaves the store as it was, given that the price survives its text round trip |
| `App.SortClickedTwiceShowsSameRows` | src/App.jsx:111 | two clicks on the sort button show the same rows as before, whatever the starting direction |
| `App.SeedElectronicsDescending` | src/App.jsx:10-14 | the seed store filtered to Electronics, descending, shows Laptop then Printer |
| `App.AddMonitorScenario` | src/App.jsx:44-49 | adding Monitor with quantity text `abc` and price text `150.5` stores quantity 0 and price 150.5 under the fresh identifier |
| `App.DeleteChairScenario` | src/App.jsx:61-64 | confirming the delete of item `2` removes it and clears the confirmation |
| `App.EditLaptopScenario` | src/App.jsx:132-135 | editing item `1` to quantity 2 stores quantity 2 and flags the row as low stock |
| `App.StoreAfterRender` | src/App.jsx:38 | the in-place sort leaves a permutation of the store, and the rows of that render are the same either way |
| `App.InPlaceSortReordersMenu` | src/App.jsx:38 | after the first render of the seed store and one more Electronics item, the drop-down lists Furniture before Electronics |
| `App.InPlaceSortReordersTies` | src/App.jsx:38 | after the first render of the seed store, editing Laptop to 12 units shows Desk Chair above Laptop; on the store in insertion order Laptop stays above Desk Chair |
| `App.EditKeepsTieOrder` | src/App.jsx:53-59 | without the in-place sort, saving an edit keeps every identifier in its place, and rows of equal quantity are shown in store order |
| `App.MenuAfterCreate` | src/App.jsx:27-30 | without the in-place sort, creating an item keeps the drop-down in first-seen order, extended by the new category if it is new |

## Left out

- Rendering: the JSX markup, Tailwind classes, icons and the capitalised option labels (`src/App.jsx:105`) are presentation only.
- `localStorage` and `document.documentElement.classList` (`src/App.jsx:6`, `22-25`) are I/O. The model keeps only the theme value and takes the stored value as a parameter.
- `Date.now()` (`src/App.jsx:47`) is a clock read. The fresh identifier is a parameter. Its uniqueness is a precondition, because the code does not guarantee it.
- `parseFloat` and the price's `toString` (`src/App.jsx:237`, `246`) are floating point. The caller supplies them as functions, and prices are carried unchanged as `real`. `toFixed(2)` (`src/App.jsx:143`) only formats the table cell and is not modelled.
- JsNumbers.ParseInt: does not model the rounding to a double of numerals beyond 2^53, because integers are unbounded here.
- JsNumbers.IntToString: does not model the exponent notation `toString` uses from 10^21 upward, because integers are unbounded here.
- The form's per-keystroke `onChange` handlers are not modelled; `SubmitForm` carries the whole draft. The browser's number-input sanitising and the `required`/`min` checks are not modelled either, so the model admits any text.
- ItemForm.NegativeQuantityAccepted: the browser's form validation (`required` and `min="0"` at `src/App.jsx:282-283`, and the number input's sanitising) would block a negative quantity before `handleSubmit` runs; it is not modelled, so the lemma speaks about `handleSubmit` alone.
- App.Step: keeps the store in insertion order. The program reorders it whenever the memo at `src/App.jsx:32-42` recomputes with the filter at `"all"`, for example on the first render or a sort click, and later handlers see that order. The in-place sort is modelled separately, as `App.StoreAfterRender`, and its consequences are listed under Findings.
- React scheduling (`useState`, `useMemo`, re-render timing) is not modelled. `App.Step` uses the pure view.
- The Edit and Delete buttons can target any item; the model does not require the item to be a visible row.

## Findings

| source | as written | input that shows it | evidently intended | confidence | as-written member | corrected member |
|---|---|---|---|---|---|---|
| src/App.jsx:38 | `filtered.sort(...)` sorts in place; with the filter at `"all"`, `filtered` is the `items` state array, so rendering reorders the store | seed store, default `desc` order, then add any item with category Electronics: the drop-down becomes all, Furniture, Electronics | the store keeps insertion order, so the drop-down keeps first-seen order (all, Electronics, Furniture) | medium; not executed | `App.InPlaceSortReordersMenu` | `App.MenuAfterCreate` |
| src/App.jsx:32-42 | the memo recomputes with the filter at `"all"` and sorts the `items` state array in place, so equal quantities end up in the order of the last render, not the order the items were added | seed store, default `desc` order, then edit Laptop to quantity 12: the table shows Desk Chair above Laptop | rows of equal quantity keep the store's insertion order (Laptop above Desk Chair) | medium; not executed | `App.InPlaceSortReordersTies` | `App.EditKeepsTieOrder` |
