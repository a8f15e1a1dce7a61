/** The new-product draft (`newProduct`) that the add form edits: five text
    fields, all empty at first, of which four must be filled before an add. */
module Drafts {

  datatype Draft = Draft(
    name: string,
    price: string,
    stock: string,
    category: string,
    description: string)

  /** The five form inputs, one per draft field. */
  datatype Field = Name | Price | Stock | Category | Description

  /** The draft the form starts from and is reset to after a successful add:
      every field is the empty string. */
  function EmptyDraft(): (d: Draft)
    ensures forall f :: FieldOf(d, f) == ""
    ensures !Complete(d)
  {
    Draft("", "", "", "", "")
  }

  function FieldOf(d: Draft, f: Field): string
  {
    match f
    case Name => d.name
    case Price => d.price
    case Stock => d.stock
    case Category => d.category
    case Description => d.description
  }

  /** The `onChange` updater of one input, `{ ...newProduct, field: value }`:
      the chosen field takes the typed value and the other four are kept. */
  function WithField(d: Draft, f: Field, value: string): (r: Draft)
    ensures FieldOf(r, f) == value
    ensures forall g :: g != f ==> FieldOf(r, g) == FieldOf(d, g)
  {
    match f
    case Name => d.(name := value)
    case Price => d.(price := value)
    case Stock => d.(stock := value)
    case Category => d.(category := value)
    case Description => d.(description := value)
  }

  /** Every field except the description must be filled before an add. */
  predicate Required(f: Field)
  {
    f != Description
  }

  /** The guard of the add handler. A string field is falsy exactly when it is
      empty, so the draft may be sent exactly when every required field, that
      is every field except the description, is non-empty. */
  predicate Complete(d: Draft)
    ensures Complete(d) <==> forall f :: Required(f) ==> FieldOf(d, f) != ""
  {
    assert Required(Name) && Required(Price) && Required(Stock) && Required(Category);
    d.name != "" && d.price != "" && d.stock != "" && d.category != ""
  }

  /** Typing into the description never changes whether the draft may be sent;
      typing into a required field decides it together with the other three. */
  lemma {:induction false} CompleteAfterInput(d: Draft, f: Field, value: string)
    ensures f == Description ==> (Complete(WithField(d, f, value)) <==> Complete(d))
    ensures Required(f) ==> (Complete(WithField(d, f, value)) <==>
              value != "" && forall g :: Required(g) && g != f ==> FieldOf(d, g) != "")
  {
    var r := WithField(d, f, value);
    if f == Description {
      assert forall g :: Required(g) ==> FieldOf(r, g) == FieldOf(d, g);
    }
  }
}
