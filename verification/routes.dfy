/**
 * The request handlers of `registerRoutes`, each a pure function from the
 * store, the parsed path id and the body's validation verdict to a reply and
 * the store afterwards. Express, JSON encoding and the schema library are not
 * modelled: a body reaches a handler already parsed, as `Parsed` (accepted
 * value) or `Invalid` (the validation issues).
 */
module Routes {
  import opened Optional
  import opened Schema
  import opened Storage
  import Table

  /** `parseInt(req.params.id)`: an integer, or NaN for a segment that is not one. */
  datatype IdParam = Num(n: int) | NaN

  /** The result of a schema's `parse` on the request body. */
  datatype Parsed<T> = Parsed(value: T) | Invalid(issues: seq<string>)

  datatype Body =
    | GroceryItemList(groceryItems: seq<GroceryItem>)
    | GroceryItemBody(groceryItem: GroceryItem)
    | RecipeList(recipes: seq<Recipe>)
    | RecipeBody(recipe: Recipe)
    | ShoppingItemList(shoppingItems: seq<ShoppingItem>)
    | ShoppingItemBody(shoppingItem: ShoppingItem)

  /** `res.json(..)`, `res.status(204).send()`, and the two error replies. */
  datatype Reply =
    | Json(body: Body)
    | NoContent
    | BadRequest(issues: seq<string>)
    | NotFound(error: string)

  function Status(r: Reply): int {
    match r
    case Json(_) => 200
    case NoContent => 204
    case BadRequest(_) => 400
    case NotFound(_) => 404
  }

  const ItemNotFound := "Item not found"
  const RecipeNotFound := "Recipe not found"

  datatype Handled = Handled(reply: Reply, store: MemStorage)

  /**
   * The store key a parsed id looks up. Stored keys are integers, so a NaN id
   * finds nothing: `get`/`update` miss and `delete` removes nothing.
   */
  function Key(id: IdParam): Option<int> {
    match id
    case Num(n) => Some(n)
    case NaN => None
  }

  /* ---------- grocery items ---------- */

  /**
   * GET /api/grocery-items: 200 with every stored item, each once, in
   * creation (id) order; the store is only read.
   */
  function HandleGetGroceryItems(s: MemStorage): (h: Handled)
    requires Valid(s)
    ensures Status(h.reply) == 200 && h.store == s
    ensures h.reply.body.GroceryItemList?
    ensures forall k :: k in s.groceryItems.rows ==> s.groceryItems.rows[k] in h.reply.body.groceryItems
    ensures |h.reply.body.groceryItems| == |s.groceryItems.rows|
    ensures forall i, j :: 0 <= i < j < |h.reply.body.groceryItems| ==>
              h.reply.body.groceryItems[i].id < h.reply.body.groceryItems[j].id
  {
    var items := GetGroceryItems(s);
    Table.ListCount(s.groceryItems);
    Table.ListInKeyOrder(s.groceryItems, GroceryId);
    assert forall k :: k in s.groceryItems.rows ==> items[Table.IndexOf(s.groceryItems.order, k)] == s.groceryItems.rows[k] by {
      forall k | k in s.groceryItems.rows {
        Table.ListContains(s.groceryItems, k);
      }
    }
    Handled(Json(GroceryItemList(items)), s)
  }

  /**
   * POST /api/grocery-items: an invalid body gets 400 with its issues and no
   * store change; a valid one gets 200 with exactly the record the store
   * created, which the next listing shows last.
   */
  function HandlePostGroceryItem(s: MemStorage, body: Parsed<InsertGroceryItem>): (h: Handled)
    requires Valid(s)
    ensures Valid(h.store)
    ensures body.Invalid? ==> h.reply == BadRequest(body.issues) && h.store == s
    ensures body.Parsed? ==>
              && Status(h.reply) == 200
              && h.reply == Json(GroceryItemBody(CreateGroceryItem(s, body.value).result))
              && h.store == CreateGroceryItem(s, body.value).store
              && GroceryFields(h.reply.body.groceryItem) == body.value
              && h.reply.body.groceryItem.id == s.groceryItems.next
              && GetGroceryItems(h.store) == GetGroceryItems(s) + [h.reply.body.groceryItem]
  {
    match body
    case Invalid(issues) => Handled(BadRequest(issues), s)
    case Parsed(item) =>
      var created := CreateGroceryItem(s, item);
      Handled(Json(GroceryItemBody(created.result)), created.store)
  }

  /**
   * PATCH /api/grocery-items/:id: the body is validated against the partial
   * schema first, so an invalid body gets 400 and no store change whatever the
   * id. A valid patch for an id the store does not hold (NaN included) gets
   * 404 and no change; otherwise 200 with the merged record, now stored.
   */
  function HandlePatchGroceryItem(s: MemStorage, id: IdParam, body: Parsed<GroceryPatch>): (h: Handled)
    requires Valid(s)
    ensures Valid(h.store)
    ensures body.Invalid? ==> h.reply == BadRequest(body.issues) && h.store == s
    ensures body.Parsed? && (id.NaN? || GetGroceryItem(s, id.n).None?) ==>
              h.reply == NotFound(ItemNotFound) && h.store == s
    ensures body.Parsed? && id.Num? && GetGroceryItem(s, id.n).Some? ==>
              && h.reply == Json(GroceryItemBody(MergeGrocery(GetGroceryItem(s, id.n).value, body.value)))
              && h.store == UpdateGroceryItem(s, id.n, body.value).store
              && GetGroceryItem(h.store, id.n) == Some(h.reply.body.groceryItem)
  {
    match body
    case Invalid(issues) => Handled(BadRequest(issues), s)
    case Parsed(patch) =>
      match Key(id)
      case None => Handled(NotFound(ItemNotFound), s)
      case Some(k) =>
        var updated := UpdateGroceryItem(s, k, patch);
        match updated.result
        case None => Handled(NotFound(ItemNotFound), s)
        case Some(item) => Handled(Json(GroceryItemBody(item)), updated.store)
  }

  /** DELETE /api/grocery-items/:id: always 204; afterwards the id is absent. */
  function HandleDeleteGroceryItem(s: MemStorage, id: IdParam): (h: Handled)
    requires Valid(s)
    ensures Valid(h.store)
    ensures h.reply == NoContent
    ensures id.Num? ==> GetGroceryItem(h.store, id.n) == None
    ensures id.NaN? || GetGroceryItem(s, id.n) == None ==> h.store == s
    ensures id.Num? ==> forall k :: k != id.n ==> GetGroceryItem(h.store, k) == GetGroceryItem(s, k)
  {
    match Key(id)
    case None => Handled(NoContent, s)
    case Some(k) => Handled(NoContent, DeleteGroceryItem(s, k))
  }

  /* ---------- recipes ---------- */

  /** GET /api/recipes: 200 with every stored recipe, each once, in creation (id) order. */
  function HandleGetRecipes(s: MemStorage): (h: Handled)
    requires Valid(s)
    ensures Status(h.reply) == 200 && h.store == s
    ensures h.reply.body.RecipeList?
    ensures forall k :: k in s.recipes.rows ==> s.recipes.rows[k] in h.reply.body.recipes
    ensures |h.reply.body.recipes| == |s.recipes.rows|
    ensures forall i, j :: 0 <= i < j < |h.reply.body.recipes| ==>
              h.reply.body.recipes[i].id < h.reply.body.recipes[j].id
  {
    var recipes := GetRecipes(s);
    Table.ListCount(s.recipes);
    Table.ListInKeyOrder(s.recipes, RecipeId);
    assert forall k :: k in s.recipes.rows ==> recipes[Table.IndexOf(s.recipes.order, k)] == s.recipes.rows[k] by {
      forall k | k in s.recipes.rows {
        Table.ListContains(s.recipes, k);
      }
    }
    Handled(Json(RecipeList(recipes)), s)
  }

  /** GET /api/recipes/:id: 404 for an id the store does not hold, else 200 with the stored recipe. */
  function HandleGetRecipe(s: MemStorage, id: IdParam): (h: Handled)
    ensures h.store == s
    ensures id.Num? && id.n in s.recipes.rows ==> h.reply == Json(RecipeBody(s.recipes.rows[id.n]))
    ensures id.NaN? || id.n !in s.recipes.rows ==> h.reply == NotFound(RecipeNotFound)
  {
    match Key(id)
    case None => Handled(NotFound(RecipeNotFound), s)
    case Some(k) =>
      match GetRecipe(s, k)
      case None => Handled(NotFound(RecipeNotFound), s)
      case Some(recipe) => Handled(Json(RecipeBody(recipe)), s)
  }

  /* ---------- shopping list ---------- */

  /** GET /api/shopping-list: 200 with every stored item, each once, in creation (id) order. */
  function HandleGetShoppingList(s: MemStorage): (h: Handled)
    requires Valid(s)
    ensures Status(h.reply) == 200 && h.store == s
    ensures h.reply.body.ShoppingItemList?
    ensures forall k :: k in s.shoppingItems.rows ==> s.shoppingItems.rows[k] in h.reply.body.shoppingItems
    ensures |h.reply.body.shoppingItems| == |s.shoppingItems.rows|
    ensures forall i, j :: 0 <= i < j < |h.reply.body.shoppingItems| ==>
              h.reply.body.shoppingItems[i].id < h.reply.body.shoppingItems[j].id
  {
    var items := GetShoppingList(s);
    Table.ListCount(s.shoppingItems);
    Table.ListInKeyOrder(s.shoppingItems, ShoppingId);
    assert forall k :: k in s.shoppingItems.rows ==> items[Table.IndexOf(s.shoppingItems.order, k)] == s.shoppingItems.rows[k] by {
      forall k | k in s.shoppingItems.rows {
        Table.ListContains(s.shoppingItems, k);
      }
    }
    Handled(Json(ShoppingItemList(items)), s)
  }

  /**
   * POST /api/shopping-list: an invalid body gets 400 and no store change; a
   * valid one gets 200 with exactly the record the store created, listed last.
   */
  function HandlePostShoppingItem(s: MemStorage, body: Parsed<InsertShoppingItem>): (h: Handled)
    requires Valid(s)
    ensures Valid(h.store)
    ensures body.Invalid? ==> h.reply == BadRequest(body.issues) && h.store == s
    ensures body.Parsed? ==>
              && Status(h.reply) == 200
              && h.reply == Json(ShoppingItemBody(CreateShoppingItem(s, body.value).result))
              && h.store == CreateShoppingItem(s, body.value).store
              && ShoppingFields(h.reply.body.shoppingItem) == body.value
              && h.reply.body.shoppingItem.id == s.shoppingItems.next
              && GetShoppingList(h.store) == GetShoppingList(s) + [h.reply.body.shoppingItem]
  {
    match body
    case Invalid(issues) => Handled(BadRequest(issues), s)
    case Parsed(item) =>
      var created := CreateShoppingItem(s, item);
      Handled(Json(ShoppingItemBody(created.result)), created.store)
  }

  /**
   * PATCH /api/shopping-list/:id: validation first (400, no change), then 404
   * and no change for an id the store does not hold, else 200 with the merged
   * record, now stored.
   */
  function HandlePatchShoppingItem(s: MemStorage, id: IdParam, body: Parsed<ShoppingPatch>): (h: Handled)
    requires Valid(s)
    ensures Valid(h.store)
    ensures body.Invalid? ==> h.reply == BadRequest(body.issues) && h.store == s
    ensures body.Parsed? && (id.NaN? || GetShoppingItem(s, id.n).None?) ==>
              h.reply == NotFound(ItemNotFound) && h.store == s
    ensures body.Parsed? && id.Num? && GetShoppingItem(s, id.n).Some? ==>
              && h.reply == Json(ShoppingItemBody(MergeShopping(GetShoppingItem(s, id.n).value, body.value)))
              && h.store == UpdateShoppingItem(s, id.n, body.value).store
              && GetShoppingItem(h.store, id.n) == Some(h.reply.body.shoppingItem)
  {
    match body
    case Invalid(issues) => Handled(BadRequest(issues), s)
    case Parsed(patch) =>
      match Key(id)
      case None => Handled(NotFound(ItemNotFound), s)
      case Some(k) =>
        var updated := UpdateShoppingItem(s, k, patch);
        match updated.result
        case None => Handled(NotFound(ItemNotFound), s)
        case Some(item) => Handled(Json(ShoppingItemBody(item)), updated.store)
  }

  /** DELETE /api/shopping-list/:id: always 204; afterwards the id is absent. */
  function HandleDeleteShoppingItem(s: MemStorage, id: IdParam): (h: Handled)
    requires Valid(s)
    ensures Valid(h.store)
    ensures h.reply == NoContent
    ensures id.Num? ==> GetShoppingItem(h.store, id.n) == None
    ensures id.NaN? || GetShoppingItem(s, id.n) == None ==> h.store == s
    ensures id.Num? ==> forall k :: k != id.n ==> GetShoppingItem(h.store, k) == GetShoppingItem(s, k)
  {
    match Key(id)
    case None => Handled(NoContent, s)
    case Some(k) => Handled(NoContent, DeleteShoppingItem(s, k))
  }
}
