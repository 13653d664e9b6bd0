/** The add-item dialog of the inventory page. */
module InventoryPage {
  import opened Optional
  import opened Schema
  import opened ItemForm

  /** The dialog's three fields, the quantity already through `parseInt`. */
  datatype NewItem = NewItem(name: string, quantity: NumberInput, unit: string)

  const NameRequired := "Name is required"

  /**
   * `handleAddItem`: an acceptable form is posted as a grocery item with
   * exactly the form's name and unit and the parsed quantity (and no expiry
   * date); any other form posts nothing and shows the first issue.
   */
  function HandleAddItem(form: NewItem): (r: Outcome<InsertGroceryItem>)
    ensures r.Submit? <==> Acceptable(form.name, form.quantity, form.unit)
    ensures r.Submit? ==>
              && r.item.name == form.name && r.item.unit == form.unit
              && form.quantity == Int(r.item.quantity) && r.item.expiryDate == None
    ensures r.Toast? ==> r.issue == Issues(form.name, form.quantity, form.unit)[0]
  {
    var issues := Issues(form.name, form.quantity, form.unit);
    if |issues| == 0 then Submit(InsertGroceryItem(form.name, form.quantity.n, form.unit, None))
    else Toast(issues[0])
  }

  /** `min(0)` is inclusive: a zero quantity is accepted. */
  lemma ZeroQuantityAccepted(name: string, unit: string)
    requires |name| > 0 && |unit| > 0
    ensures HandleAddItem(NewItem(name, Int(0), unit)) == Submit(InsertGroceryItem(name, 0, unit, None))
  {
  }

  /** An empty name is reported first, with the page's message. */
  lemma EmptyNameRejected(quantity: NumberInput, unit: string)
    ensures HandleAddItem(NewItem("", quantity, unit)) == Toast(NameEmpty)
    ensures Message(HandleAddItem(NewItem("", quantity, unit)).issue, NameRequired) == Some("Name is required")
  {
  }
}
