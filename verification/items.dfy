/** The inventory record and the facts about identifiers shared by the store
    operations. */
module Items {
  import opened Wrappers

  /** Prices are carried through unchanged; no arithmetic is done on them. */
  type Price = real

  /** One row of the inventory table. */
  datatype Item = Item(
    id: string,
    name: string,
    category: string,
    quantity: int,
    price: Price,
    description: string)

  /** The object the item form hands to the store: an item whose `id` is
      `undefined` (`None`) when it was created from an empty form. */
  datatype Entry = Entry(
    id: Option<string>,
    name: string,
    category: string,
    quantity: int,
    price: Price,
    description: string)

  /** The row threshold below which the table flags an item as running low. */
  const LowStockThreshold: int := 10

  predicate IsLowStock(x: Item) {
    x.quantity < LowStockThreshold
  }

  /** `x` carries every field of `e` other than the identifier. */
  predicate SameFields(x: Item, e: Entry) {
    && x.name == e.name
    && x.category == e.category
    && x.quantity == e.quantity
    && x.price == e.price
    && x.description == e.description
  }

  /** `{ ...e, id }`: the entry's fields under the identifier `id`. */
  function WithId(e: Entry, id: string): (x: Item)
    ensures x.id == id && SameFields(x, e)
  {
    Item(id, e.name, e.category, e.quantity, e.price, e.description)
  }

  /** The identifiers of `items`, position by position. */
  function Ids(items: seq<Item>): (r: seq<string>)
    ensures |r| == |items|
    ensures forall i | 0 <= i < |items| :: r[i] == items[i].id
  {
    seq(|items|, i requires 0 <= i < |items| => items[i].id)
  }

  /** No two rows share an identifier. */
  predicate UniqueIds(items: seq<Item>) {
    forall i, j | 0 <= i < j < |items| :: items[i].id != items[j].id
  }
}
