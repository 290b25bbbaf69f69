/** The add/edit dialog's form: seeding its text fields and turning them back
    into an entry on submit. */
module ItemForm {
  import opened Wrappers
  import opened Items
  import opened JsNumbers

  /** The form's text fields (`formData`). */
  datatype Draft = Draft(
    name: string,
    category: string,
    quantity: string,
    price: string,
    description: string)

  /** The form seeded with no item: every field blank. */
  const Blank: Draft := Draft("", "", "", "", "")

  /** `parseInt(text) || 0`: `NaN` and zero both give zero. The integer's
      own numeral reads back as it, and text without a digit gives zero. */
  function QuantityOf(text: string): (r: int)
    ensures forall n :: text == IntToString(n) ==> r == n
    ensures (forall i | 0 <= i < |text| :: !IsDigit(text[i], 10)) ==> r == 0
  {
    NumeralReadsBack(text);
    ParseInt(text).GetOr(0)
  }

  lemma NumeralReadsBack(text: string)
    ensures forall n :: text == IntToString(n) ==> ParseInt(text) == Some(n)
  {
    forall n | text == IntToString(n) ensures ParseInt(text) == Some(n) {
      ParseIntOfDecimal(n, []);
      assert IntToString(n) + [] == IntToString(n);
    }
  }

  /** `parseFloat(text) || 0`, where `parseFloat` (floating point, not part
      of this model) is supplied by the caller and `None` is its `NaN`. */
  function PriceOf(text: string, parseFloat: string -> Option<Price>): Price {
    parseFloat(text).GetOr(0.0)
  }

  /** The initial `formData`: the fields of the item being edited, with the
      quantity and price written out as text, or blanks when creating. The
      price's text form is supplied by the caller. */
  function Seed(initial: Option<Item>, priceText: Price -> string): (d: Draft)
    ensures initial.None? ==> d == Blank
    ensures initial.Some? ==>
      var x := initial.value;
      && d.name == x.name && d.category == x.category && d.description == x.description
      && d.price == priceText(x.price)
      && ParseInt(d.quantity) == Some(x.quantity)
  {
    match initial
    case None => Blank
    case Some(x) =>
      ParseIntOfDecimal(x.quantity, []);
      assert IntToString(x.quantity) + [] == IntToString(x.quantity);
      Draft(x.name, x.category, IntToString(x.quantity), priceText(x.price), x.description)
  }

  /** `handleSubmit`: the text fields pass through, the quantity is parsed
      with `parseInt` falling back to zero, the price with `parseFloat`
      falling back to zero, and the identifier is the edited item's, or
      absent when creating. Nothing rejects a negative quantity: the
      minimum of zero is left to the input widget. */
  function Submit(d: Draft, initial: Option<Item>, parseFloat: string -> Option<Price>): (e: Entry)
    ensures e.name == d.name && e.category == d.category && e.description == d.description
    ensures ParseInt(d.quantity).None? ==> e.quantity == 0
    ensures ParseInt(d.quantity).Some? ==> e.quantity == ParseInt(d.quantity).value
    ensures parseFloat(d.price).None? ==> e.price == 0.0
    ensures parseFloat(d.price).Some? ==> e.price == parseFloat(d.price).value
    ensures initial.None? ==> e.id.None?
    ensures initial.Some? ==> e.id == Some(initial.value.id)
  {
    var id := match initial case Some(x) => Some(x.id) case None => None;
    Entry(id, d.name, d.category, QuantityOf(d.quantity), PriceOf(d.price, parseFloat), d.description)
  }

  /** Opening an item for editing and saving the form untouched gives back
      the item's own fields and identifier, provided the price survives its
      trip through text. */
  lemma SaveUntouchedForm(x: Item, priceText: Price -> string, parseFloat: string -> Option<Price>)
    requires parseFloat(priceText(x.price)) == Some(x.price)
    ensures Submit(Seed(Some(x), priceText), Some(x), parseFloat) ==
      Entry(Some(x.id), x.name, x.category, x.quantity, x.price, x.description)
  {
  }

  /** `handleSubmit` neither clamps nor rejects a negative quantity: the
      numeral of any negative integer is stored as that integer. */
  lemma NegativeQuantityAccepted(n: int, d: Draft, initial: Option<Item>, parseFloat: string -> Option<Price>)
    requires n < 0 && d.quantity == IntToString(n)
    ensures Submit(d, initial, parseFloat).quantity == n
  {
    ParseIntOfDecimal(n, []);
    assert IntToString(n) + [] == IntToString(n);
  }

  /** A quantity without a single decimal digit is stored as zero. */
  lemma LettersQuantityIsZero(d: Draft, initial: Option<Item>, parseFloat: string -> Option<Price>)
    requires forall i | 0 <= i < |d.quantity| :: !IsDigit(d.quantity[i], 10)
    ensures Submit(d, initial, parseFloat).quantity == 0
  {
  }
}
