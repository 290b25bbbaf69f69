/** The three reducers of the item store: add, edit and delete. */
module Store {
  import opened Wrappers
  import opened Seqs
  import opened Items

  /** `handleAddItem`: append the entry under a fresh identifier. The caller
      supplies the identifier (the program reads it from the clock), and it
      overrides any identifier the entry carries. */
  function Add(items: seq<Item>, entry: Entry, freshId: string): (r: seq<Item>)
    ensures |r| == |items| + 1
    ensures r[..|items|] == items
    ensures r[|items|].id == freshId && SameFields(r[|items|], entry)
  {
    items + [WithId(entry, freshId)]
  }

  /** A fresh identifier keeps the identifiers unique. */
  lemma AddKeepsIdsUnique(items: seq<Item>, entry: Entry, freshId: string)
    requires UniqueIds(items)
    requires freshId !in Ids(items)
    ensures UniqueIds(Add(items, entry, freshId))
  {
    var r := Add(items, entry, freshId);
    forall i, j | 0 <= i < j < |r|
      ensures r[i].id != r[j].id
    {
      if j == |items| {
        assert r[i].id == Ids(items)[i];
      }
    }
  }

  /** The row that replaces `x` when `updated` is saved: `updated` itself
      when the identifiers are strictly equal, otherwise `x` unchanged. */
  function Replace(x: Item, updated: Entry): Item {
    if updated.id == Some(x.id) then WithId(updated, x.id) else x
  }

  /** `handleEditItem`: every row whose identifier equals the updated entry's
      becomes the updated entry; all other rows stay as they are. An entry
      without an identifier matches no row. */
  function Edit(items: seq<Item>, updated: Entry): (r: seq<Item>)
    ensures |r| == |items|
    ensures Ids(r) == Ids(items)
    ensures forall i | 0 <= i < |r| && updated.id == Some(items[i].id) :: SameFields(r[i], updated)
    ensures forall i | 0 <= i < |r| && updated.id != Some(items[i].id) :: r[i] == items[i]
    ensures (forall i | 0 <= i < |items| :: updated.id != Some(items[i].id)) ==> r == items
  {
    seq(|items|, i requires 0 <= i < |items| => Replace(items[i], updated))
  }

  /** Saving a row with its own identifier and its own fields changes
      nothing, when identifiers are unique. */
  lemma EditWithOwnFields(items: seq<Item>, x: Item)
    requires UniqueIds(items) && x in items
    ensures Edit(items, Entry(Some(x.id), x.name, x.category, x.quantity, x.price, x.description)) == items
  {
    var entry := Entry(Some(x.id), x.name, x.category, x.quantity, x.price, x.description);
    var r := Edit(items, entry);
    var k :| 0 <= k < |items| && items[k] == x;
    forall i | 0 <= i < |items| ensures r[i] == items[i] {
      if entry.id == Some(items[i].id) {
        assert items[i].id == items[k].id;
        assert i == k;
        assert r[i].id == Ids(r)[i] == Ids(items)[i];
      }
    }
  }

  /** Editing never changes the identifiers, so it keeps them unique. */
  lemma EditKeepsIdsUnique(items: seq<Item>, updated: Entry)
    requires UniqueIds(items)
    ensures UniqueIds(Edit(items, updated))
  {
    var r := Edit(items, updated);
    forall i, j | 0 <= i < j < |r|
      ensures r[i].id != r[j].id
    {
      assert r[i].id == Ids(r)[i] == Ids(items)[i];
      assert r[j].id == Ids(r)[j] == Ids(items)[j];
    }
  }

  /** With unique identifiers, an edit whose identifier is at position `k`
      changes that row and no other. */
  lemma EditChangesOneRow(items: seq<Item>, updated: Entry, k: nat)
    requires UniqueIds(items)
    requires k < |items| && updated.id == Some(items[k].id)
    ensures Edit(items, updated)[k] == WithId(updated, items[k].id)
    ensures forall i | 0 <= i < |items| && i != k :: Edit(items, updated)[i] == items[i]
  {
  }

  /** The row filter `item.id !== id`. */
  function IdDiffers(id: string): Item -> bool {
    (x: Item) => x.id != id
  }

  /** `handleDeleteItem`: the rows whose identifier differs from `id`, in
      their original order. */
  function Delete(items: seq<Item>, id: string): (r: seq<Item>)
    ensures id !in Ids(r)
    ensures forall x :: x in r <==> x in items && x.id != id
    ensures id !in Ids(items) ==> r == items
  {
    FilterMembers(IdDiffers(id), items);
    NoRowHasId(Filter(IdDiffers(id), items), id);
    if id !in Ids(items) then
      KeepsAllWithoutId(items, id);
      Filter(IdDiffers(id), items)
    else
      Filter(IdDiffers(id), items)
  }

  /** Deleting keeps every occurrence of a surviving item. */
  lemma DeleteCounts(items: seq<Item>, id: string)
    ensures forall x :: multiset(Delete(items, id))[x] == if x.id == id then 0 else multiset(items)[x]
  {
    FilterCount(IdDiffers(id), items);
  }

  lemma NoRowHasId(r: seq<Item>, id: string)
    requires forall x | x in r :: x.id != id
    ensures id !in Ids(r)
  {
    forall i | 0 <= i < |r| ensures Ids(r)[i] != id {
      assert r[i] in r;
    }
  }

  lemma KeepsAllWithoutId(items: seq<Item>, id: string)
    requires id !in Ids(items)
    ensures Filter(IdDiffers(id), items) == items
  {
    forall x | x in items ensures IdDiffers(id)(x) {
      var i :| 0 <= i < |items| && items[i] == x;
      assert Ids(items)[i] == x.id;
    }
    FilterKeepsAll(IdDiffers(id), items);
  }

  /** Deleting from a concatenation deletes from each part, so the result is
      the in-order subsequence of rows that survive. */
  lemma DeleteSplits(a: seq<Item>, b: seq<Item>, id: string)
    ensures Delete(a + b, id) == Delete(a, id) + Delete(b, id)
  {
    FilterAppend(IdDiffers(id), a, b);
  }

  /** Deleting keeps the identifiers unique. */
  lemma DeleteKeepsIdsUnique(items: seq<Item>, id: string)
    requires UniqueIds(items)
    ensures UniqueIds(Delete(items, id))
  {
    FilterKeepsIdsUnique(IdDiffers(id), items);
  }

  lemma {:induction false} FilterKeepsIdsUnique(p: Item -> bool, items: seq<Item>)
    requires UniqueIds(items)
    ensures UniqueIds(Filter(p, items))
    decreases |items|
  {
    if |items| > 0 {
      var tail := items[1..];
      assert UniqueIds(tail) by {
        forall i, j | 0 <= i < j < |tail| ensures tail[i].id != tail[j].id {
          assert tail[i] == items[i + 1] && tail[j] == items[j + 1];
        }
      }
      FilterKeepsIdsUnique(p, tail);
      var d := Filter(p, tail);
      FilterMembers(p, tail);
      if p(items[0]) {
        var r := Filter(p, items);
        assert r == [items[0]] + d;
        forall x | x in d ensures x.id != items[0].id {
          var j :| 0 <= j < |tail| && tail[j] == x;
          assert items[j + 1] == x;
        }
        forall i, j | 0 <= i < j < |r| ensures r[i].id != r[j].id {
          if i == 0 {
            assert r[j] == d[j - 1];
            assert r[j] in d;
          } else {
            assert r[i] == d[i - 1] && r[j] == d[j - 1];
          }
        }
      } else {
        assert Filter(p, items) == d;
      }
    }
  }
}
