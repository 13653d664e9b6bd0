/**
 * The `addItemSchema` both add-item dialogs validate before posting: a
 * non-empty name, a quantity that is a number no smaller than 0, and a
 * non-empty unit. The quantity reaches the schema through `parseInt`, so it is
 * an integer or NaN.
 */
module ItemForm {
  import opened Optional

  /** The result of `parseInt` on the quantity field. */
  datatype NumberInput = Int(n: int) | NotANumber

  /** One failed check of the schema. */
  datatype Issue = NameEmpty | QuantityNotANumber | QuantityNegative | UnitEmpty

  /** What the dialog does: post the parsed item, or show a toast with the first issue. */
  datatype Outcome<T> = Submit(item: T) | Toast(issue: Issue)

  /** The position of an issue's field in the schema: name, quantity, unit. */
  function Rank(issue: Issue): int {
    match issue
    case NameEmpty => 0
    case QuantityNotANumber => 1
    case QuantityNegative => 1
    case UnitEmpty => 2
  }

  /** The form passes every check of the schema. */
  predicate Acceptable(name: string, quantity: NumberInput, unit: string) {
    |name| > 0 && quantity.Int? && quantity.n >= 0 && |unit| > 0
  }

  /**
   * Every failed check, in the schema's field order (name, quantity, unit),
   * at most one per field. The list is empty exactly when the form is
   * acceptable; each check fails exactly on its own field's bad value; and the
   * first issue belongs to the first bad field.
   */
  function Issues(name: string, quantity: NumberInput, unit: string): (issues: seq<Issue>)
    ensures forall i, j :: 0 <= i < j < |issues| ==> Rank(issues[i]) < Rank(issues[j])
    ensures |issues| == 0 <==> Acceptable(name, quantity, unit)
    ensures NameEmpty in issues <==> |name| == 0
    ensures QuantityNotANumber in issues <==> quantity.NotANumber?
    ensures QuantityNegative in issues <==> quantity.Int? && quantity.n < 0
    ensures UnitEmpty in issues <==> |unit| == 0
    ensures |name| == 0 ==> issues[0] == NameEmpty
    ensures |name| > 0 && !(quantity.Int? && quantity.n >= 0) ==>
              issues[0] == (if quantity.NotANumber? then QuantityNotANumber else QuantityNegative)
    ensures |name| > 0 && quantity.Int? && quantity.n >= 0 && |unit| == 0 ==> issues == [UnitEmpty]
  {
    (if |name| == 0 then [NameEmpty] else [])
    + (match quantity
       case NotANumber => [QuantityNotANumber]
       case Int(q) => if q < 0 then [QuantityNegative] else [])
    + (if |unit| == 0 then [UnitEmpty] else [])
  }

  /**
   * The toast text the page defines for an issue; `nameMessage` is the page's
   * own wording for an empty name. A NaN quantity is reported with the schema
   * library's own message, which is not modelled.
   */
  function Message(issue: Issue, nameMessage: string): (m: Option<string>)
    ensures m.None? <==> issue == QuantityNotANumber
    ensures issue == NameEmpty ==> m == Some(nameMessage)
    ensures issue == QuantityNegative ==> m == Some("Quantity must be positive")
    ensures issue == UnitEmpty ==> m == Some("Unit is required")
  {
    match issue
    case NameEmpty => Some(nameMessage)
    case QuantityNotANumber => None
    case QuantityNegative => Some("Quantity must be positive")
    case UnitEmpty => Some("Unit is required")
  }
}
