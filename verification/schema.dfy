/**
 * The three record shapes of the grocery application, the insertable shapes
 * (a record without its server-assigned id) and the partial shapes a PATCH
 * carries. The shared schema module itself is not part of this model: the
 * fields are the ones the store, the routes and the pages read or write, and
 * every field a record may lack is an `Option`.
 */
module Schema {
  import opened Optional

  /** A pantry entry. */
  datatype GroceryItem = GroceryItem(
    id: int, name: string, quantity: int, unit: string, expiryDate: Option<string>)

  datatype InsertGroceryItem = InsertGroceryItem(
    name: string, quantity: int, unit: string, expiryDate: Option<string>)

  /** A partial grocery item: `None` is a field absent from the PATCH body. */
  datatype GroceryPatch = GroceryPatch(
    name: Option<string>, quantity: Option<int>, unit: Option<string>,
    expiryDate: Option<Option<string>>)

  datatype Recipe = Recipe(
    id: int, name: string, description: string,
    ingredients: seq<string>, instructions: seq<string>,
    imageUrl: string, videoUrl: Option<string>, preparationTime: int)

  datatype InsertRecipe = InsertRecipe(
    name: string, description: string,
    ingredients: seq<string>, instructions: seq<string>,
    imageUrl: string, videoUrl: Option<string>, preparationTime: int)

  /** An entry of the shopping list. */
  datatype ShoppingItem = ShoppingItem(
    id: int, itemName: string, quantity: int, unit: string, isPurchased: bool)

  datatype InsertShoppingItem = InsertShoppingItem(
    itemName: string, quantity: int, unit: string, isPurchased: bool)

  datatype ShoppingPatch = ShoppingPatch(
    itemName: Option<string>, quantity: Option<int>, unit: Option<string>,
    isPurchased: Option<bool>)

  /* ---------- ids: `{ ...input, id }` and its inverse ---------- */

  /** The insertable part of a stored grocery item. */
  function GroceryFields(g: GroceryItem): InsertGroceryItem {
    InsertGroceryItem(g.name, g.quantity, g.unit, g.expiryDate)
  }

  /** `{ ...item, id }`: the stored record carries the given id and exactly the input's fields. */
  function GroceryWithId(item: InsertGroceryItem, id: int): (g: GroceryItem)
    ensures g.id == id
    ensures GroceryFields(g) == item
  {
    GroceryItem(id, item.name, item.quantity, item.unit, item.expiryDate)
  }

  function RecipeFields(r: Recipe): InsertRecipe {
    InsertRecipe(r.name, r.description, r.ingredients, r.instructions,
                 r.imageUrl, r.videoUrl, r.preparationTime)
  }

  function RecipeWithId(recipe: InsertRecipe, id: int): (r: Recipe)
    ensures r.id == id
    ensures RecipeFields(r) == recipe
  {
    Recipe(id, recipe.name, recipe.description, recipe.ingredients,
           recipe.instructions, recipe.imageUrl, recipe.videoUrl, recipe.preparationTime)
  }

  /** A stored recipe is its fields under its id. */
  lemma RecipeFieldsWithId(r: Recipe)
    ensures RecipeWithId(RecipeFields(r), r.id) == r
  {
  }

  function ShoppingFields(s: ShoppingItem): InsertShoppingItem {
    InsertShoppingItem(s.itemName, s.quantity, s.unit, s.isPurchased)
  }

  function ShoppingWithId(item: InsertShoppingItem, id: int): (s: ShoppingItem)
    ensures s.id == id
    ensures ShoppingFields(s) == item
  {
    ShoppingItem(id, item.itemName, item.quantity, item.unit, item.isPurchased)
  }

  /* ---------- `{ ...existing, ...patch }` ---------- */

  /** The patch that sets no field. */
  const NoGroceryChange := GroceryPatch(None, None, None, None)
  const NoShoppingChange := ShoppingPatch(None, None, None, None)

  /**
   * Spread-merge of a grocery patch over a record: a field present in the
   * patch overwrites, an absent one keeps its value, and the id is never
   * touched because the patch shape has no id.
   */
  function MergeGrocery(g: GroceryItem, p: GroceryPatch): (m: GroceryItem)
    ensures m.id == g.id
    ensures p.name.Some? ==> m.name == p.name.value
    ensures p.name.None? ==> m.name == g.name
    ensures p.quantity.Some? ==> m.quantity == p.quantity.value
    ensures p.quantity.None? ==> m.quantity == g.quantity
    ensures p.unit.Some? ==> m.unit == p.unit.value
    ensures p.unit.None? ==> m.unit == g.unit
    ensures p.expiryDate.Some? ==> m.expiryDate == p.expiryDate.value
    ensures p.expiryDate.None? ==> m.expiryDate == g.expiryDate
  {
    GroceryItem(g.id, p.name.GetOr(g.name), p.quantity.GetOr(g.quantity),
                p.unit.GetOr(g.unit), p.expiryDate.GetOr(g.expiryDate))
  }

  function MergeShopping(s: ShoppingItem, p: ShoppingPatch): (m: ShoppingItem)
    ensures m.id == s.id
    ensures p.itemName.Some? ==> m.itemName == p.itemName.value
    ensures p.itemName.None? ==> m.itemName == s.itemName
    ensures p.quantity.Some? ==> m.quantity == p.quantity.value
    ensures p.quantity.None? ==> m.quantity == s.quantity
    ensures p.unit.Some? ==> m.unit == p.unit.value
    ensures p.unit.None? ==> m.unit == s.unit
    ensures p.isPurchased.Some? ==> m.isPurchased == p.isPurchased.value
    ensures p.isPurchased.None? ==> m.isPurchased == s.isPurchased
  {
    ShoppingItem(s.id, p.itemName.GetOr(s.itemName), p.quantity.GetOr(s.quantity),
                 p.unit.GetOr(s.unit), p.isPurchased.GetOr(s.isPurchased))
  }

  /** Two patches sent one after the other, as one patch: the later field wins. */
  function ThenGrocery(p: GroceryPatch, q: GroceryPatch): GroceryPatch {
    GroceryPatch(
      if q.name.Some? then q.name else p.name,
      if q.quantity.Some? then q.quantity else p.quantity,
      if q.unit.Some? then q.unit else p.unit,
      if q.expiryDate.Some? then q.expiryDate else p.expiryDate)
  }

  function ThenShopping(p: ShoppingPatch, q: ShoppingPatch): ShoppingPatch {
    ShoppingPatch(
      if q.itemName.Some? then q.itemName else p.itemName,
      if q.quantity.Some? then q.quantity else p.quantity,
      if q.unit.Some? then q.unit else p.unit,
      if q.isPurchased.Some? then q.isPurchased else p.isPurchased)
  }

  /** The patch that sets every field to the input's value. */
  function FullGroceryPatch(item: InsertGroceryItem): GroceryPatch {
    GroceryPatch(Some(item.name), Some(item.quantity), Some(item.unit), Some(item.expiryDate))
  }

  /** An empty patch leaves the record as it was. */
  lemma MergeGroceryEmpty(g: GroceryItem)
    ensures MergeGrocery(g, NoGroceryChange) == g
  {
  }

  lemma MergeShoppingEmpty(s: ShoppingItem)
    ensures MergeShopping(s, NoShoppingChange) == s
  {
  }

  /** Sending the same patch twice is the same as sending it once. */
  lemma MergeGroceryIdempotent(g: GroceryItem, p: GroceryPatch)
    ensures MergeGrocery(MergeGrocery(g, p), p) == MergeGrocery(g, p)
  {
  }

  lemma MergeShoppingIdempotent(s: ShoppingItem, p: ShoppingPatch)
    ensures MergeShopping(MergeShopping(s, p), p) == MergeShopping(s, p)
  {
  }

  /** Two successive merges equal one merge of the combined patch. */
  lemma MergeGroceryThen(g: GroceryItem, p: GroceryPatch, q: GroceryPatch)
    ensures MergeGrocery(MergeGrocery(g, p), q) == MergeGrocery(g, ThenGrocery(p, q))
  {
  }

  lemma MergeShoppingThen(s: ShoppingItem, p: ShoppingPatch, q: ShoppingPatch)
    ensures MergeShopping(MergeShopping(s, p), q) == MergeShopping(s, ThenShopping(p, q))
  {
  }

  /** A patch naming every field replaces the whole record except its id. */
  lemma MergeGroceryFull(g: GroceryItem, item: InsertGroceryItem)
    ensures MergeGrocery(g, FullGroceryPatch(item)) == GroceryWithId(item, g.id)
  {
  }
}
