/**
 * `MemStorage`: the in-memory store behind every route. It holds three
 * independent tables (grocery items, recipes, shopping items), each with its
 * own id counter. Every store method is synchronous here; the promises
 * `MemStorage`'s methods return carry no behaviour of their own.
 */
module Storage {
  import opened Optional
  import opened Schema
  import Table

  datatype MemStorage = MemStorage(
    groceryItems: Table.Table<GroceryItem>,
    recipes: Table.Table<Recipe>,
    shoppingItems: Table.Table<ShoppingItem>)

  /** What a store method returns, with the store as it is afterwards. */
  datatype Step<R> = Step(result: R, store: MemStorage)

  function GroceryId(g: GroceryItem): int { g.id }
  function RecipeId(r: Recipe): int { r.id }
  function ShoppingId(s: ShoppingItem): int { s.id }

  /** Each table is well formed and stores every record under its own id. */
  ghost predicate Valid(s: MemStorage) {
    && Table.Valid(s.groceryItems) && Table.KeyedBy(s.groceryItems, GroceryId)
    && Table.Valid(s.recipes) && Table.KeyedBy(s.recipes, RecipeId)
    && Table.Valid(s.shoppingItems) && Table.KeyedBy(s.shoppingItems, ShoppingId)
  }

  /* ---------- construction ---------- */

  const ClassicPancakes := InsertRecipe(
    "Classic Pancakes",
    "Fluffy homemade pancakes perfect for breakfast",
    ["2 cups flour", "2 eggs", "1 cup milk", "2 tbsp sugar"],
    ["Mix dry ingredients", "Add wet ingredients", "Cook on griddle"],
    "https://images.unsplash.com/photo-1601315379734-425a469078de",
    Some("https://youtube.com/watch?v=123"),
    20)

  const GardenSalad := InsertRecipe(
    "Garden Salad",
    "Fresh and healthy garden salad",
    ["lettuce", "tomatoes", "cucumber", "olive oil"],
    ["Wash vegetables", "Chop ingredients", "Mix and serve"],
    "https://images.unsplash.com/photo-1512058454905-6b841e7ad132",
    Some("https://youtube.com/watch?v=456"),
    10)

  /** The three empty maps and the counters, before the sample recipes go in. */
  function Blank(): (s: MemStorage)
    ensures Valid(s)
    ensures s.groceryItems.next == 1 && s.recipes.next == 1 && s.shoppingItems.next == 1
    ensures GetGroceryItems(s) == [] && GetRecipes(s) == [] && GetShoppingList(s) == []
  {
    MemStorage(Table.Empty(), Table.Empty(), Table.Empty())
  }

  const SampleRecipes := [ClassicPancakes, GardenSalad]

  /** The records `createRecipe` makes of `recipes` when the counter starts at `first`. */
  function Numbered(recipes: seq<InsertRecipe>, first: int): seq<Recipe>
  {
    if |recipes| == 0 then []
    else Numbered(recipes[..|recipes| - 1], first) + [RecipeWithId(recipes[|recipes| - 1], first + |recipes| - 1)]
  }

  /** The recipe table after inserting `recipes` in order, each under the counter's current value. */
  function AddRecipes(t: Table.Table<Recipe>, recipes: seq<InsertRecipe>): (t': Table.Table<Recipe>)
    requires Table.Valid(t)
    ensures Table.Valid(t')
    ensures t'.next == t.next + |recipes|
    decreases |recipes|
  {
    if |recipes| == 0 then t
    else
      var before := AddRecipes(t, recipes[..|recipes| - 1]);
      Table.Insert(before, RecipeWithId(recipes[|recipes| - 1], before.next))
  }

  /** `recipes.forEach(recipe => this.createRecipe(recipe))`. */
  function CreateRecipes(s: MemStorage, recipes: seq<InsertRecipe>): (s': MemStorage)
    requires Valid(s)
    ensures Valid(s')
    ensures s'.recipes.next == s.recipes.next + |recipes|
    ensures s'.groceryItems == s.groceryItems && s'.shoppingItems == s.shoppingItems
  {
    AddRecipesKeyed(s.recipes, recipes);
    s.(recipes := AddRecipes(s.recipes, recipes))
  }

  /** Each added recipe is stored under its own id. */
  lemma {:induction false} AddRecipesKeyed(t: Table.Table<Recipe>, recipes: seq<InsertRecipe>)
    requires Table.Valid(t) && Table.KeyedBy(t, RecipeId)
    ensures Table.KeyedBy(AddRecipes(t, recipes), RecipeId)
    decreases |recipes|
  {
    if |recipes| > 0 {
      AddRecipesKeyed(t, recipes[..|recipes| - 1]);
    }
  }

  /** The batch is `createRecipe` applied to each recipe in turn: all but the last, then the last. */
  lemma CreateRecipesEach(s: MemStorage, recipes: seq<InsertRecipe>)
    requires Valid(s)
    requires |recipes| > 0
    ensures CreateRecipes(s, recipes)
         == CreateRecipe(CreateRecipes(s, recipes[..|recipes| - 1]), recipes[|recipes| - 1]).store
  {
  }

  /**
   * Creating a batch lists the recipes after the existing ones, in the batch's
   * order, under consecutive fresh ids.
   */
  lemma CreateRecipesListing(s: MemStorage, recipes: seq<InsertRecipe>)
    requires Valid(s)
    ensures GetRecipes(CreateRecipes(s, recipes)) == GetRecipes(s) + Numbered(recipes, s.recipes.next)
  {
    AddRecipesListing(s.recipes, recipes);
  }

  lemma {:induction false} AddRecipesListing(t: Table.Table<Recipe>, recipes: seq<InsertRecipe>)
    requires Table.Valid(t)
    ensures Table.List(AddRecipes(t, recipes)) == Table.List(t) + Numbered(recipes, t.next)
    decreases |recipes|
  {
    if |recipes| > 0 {
      var n := |recipes|;
      AddRecipesListing(t, recipes[..n - 1]);
      PrefixLast(recipes);
      AddRecipeListing(t, AddRecipes(t, recipes[..n - 1]), recipes[..n - 1], recipes[n - 1], recipes);
    } else {
      assert Table.List(t) + [] == Table.List(t);
    }
  }

  /** One more recipe goes in after a batch already listed behind `t`'s records. */
  lemma AddRecipeListing(t: Table.Table<Recipe>, before: Table.Table<Recipe>,
                         prefix: seq<InsertRecipe>, r: InsertRecipe, recipes: seq<InsertRecipe>)
    requires Table.Valid(t) && Table.Valid(before)
    requires Table.List(before) == Table.List(t) + Numbered(prefix, t.next)
    requires before.next == t.next + |prefix|
    requires recipes == prefix + [r]
    ensures Table.List(Table.Insert(before, RecipeWithId(r, before.next)))
         == Table.List(t) + Numbered(recipes, t.next)
  {
    assert recipes[..|recipes| - 1] == prefix;
    Snoc(Table.List(Table.Insert(before, RecipeWithId(r, before.next))), Table.List(before), Table.List(t),
         Numbered(prefix, t.next), RecipeWithId(r, before.next), Numbered(recipes, t.next));
  }

  lemma PrefixLast<T>(s: seq<T>)
    requires |s| > 0
    ensures s == s[..|s| - 1] + [s[|s| - 1]]
  {
  }

  lemma Snoc<T>(whole: seq<T>, mid: seq<T>, a: seq<T>, b: seq<T>, x: T, added: seq<T>)
    requires whole == mid + [x]
    requires mid == a + b
    requires added == b + [x]
    ensures whole == a + added
  {
  }

  lemma NumberedPair(a: InsertRecipe, b: InsertRecipe, first: int)
    ensures Numbered([a, b], first) == [RecipeWithId(a, first), RecipeWithId(b, first + 1)]
  {
    assert [a, b][..1] == [a];
    assert [a][..0] == [];
    assert Numbered([a], first) == [] + [RecipeWithId(a, first)];
  }

  /** Creating two recipes lists them last, numbered from the recipe counter. */
  lemma CreateRecipesPair(s: MemStorage, a: InsertRecipe, b: InsertRecipe)
    requires Valid(s)
    ensures Valid(CreateRecipes(s, [a, b]))
    ensures GetRecipes(CreateRecipes(s, [a, b]))
            == GetRecipes(s) + [RecipeWithId(a, s.recipes.next), RecipeWithId(b, s.recipes.next + 1)]
  {
    CreateRecipesListing(s, [a, b]);
    NumberedPair(a, b, s.recipes.next);
  }

  /** The two sample recipes are created one after the other. */
  function InitializeSampleData(s: MemStorage): (s': MemStorage)
    requires Valid(s)
    ensures Valid(s')
    ensures GetRecipes(s') == GetRecipes(s) + [RecipeWithId(ClassicPancakes, s.recipes.next),
                                               RecipeWithId(GardenSalad, s.recipes.next + 1)]
    ensures s'.recipes.next == s.recipes.next + 2
    ensures s'.groceryItems == s.groceryItems && s'.shoppingItems == s.shoppingItems
  {
    CreateRecipesPair(s, ClassicPancakes, GardenSalad);
    CreateRecipes(s, SampleRecipes)
  }

  /**
   * The constructor: no grocery or shopping items, both their counters at 1,
   * and exactly the two sample recipes under ids 1 and 2 with the recipe
   * counter at 3.
   */
  function New(): (s: MemStorage)
    ensures Valid(s)
    ensures GetGroceryItems(s) == [] && GetShoppingList(s) == []
    ensures s.groceryItems.next == 1 && s.shoppingItems.next == 1
    ensures s.recipes.next == 3
    ensures |GetRecipes(s)| == 2
    ensures GetRecipes(s)[0].id == 1 && GetRecipes(s)[0].name == "Classic Pancakes"
    ensures GetRecipes(s)[1].id == 2 && GetRecipes(s)[1].name == "Garden Salad"
    ensures GetRecipe(s, 1) == Some(RecipeWithId(ClassicPancakes, 1))
    ensures GetRecipe(s, 2) == Some(RecipeWithId(GardenSalad, 2))
    ensures forall id :: id != 1 && id != 2 ==> GetRecipe(s, id) == None
  {
    var s := InitializeSampleData(Blank());
    var t := s.recipes;
    assert GetRecipes(s) == [RecipeWithId(ClassicPancakes, 1), RecipeWithId(GardenSalad, 2)];
    assert Table.Get(t, t.order[0]) == Some(RecipeWithId(ClassicPancakes, 1));
    assert Table.Get(t, t.order[1]) == Some(RecipeWithId(GardenSalad, 2));
    assert RecipeId(t.rows[t.order[0]]) == t.order[0] && RecipeId(t.rows[t.order[1]]) == t.order[1];
    assert forall id :: id in t.rows ==> id == t.order[0] || id == t.order[1];
    s
  }

  /* ---------- grocery items ---------- */

  /** Every stored record once, in insertion order: position `i` holds the record under the `i`-th key. */
  function GetGroceryItems(s: MemStorage): (items: seq<GroceryItem>)
    requires Table.Valid(s.groceryItems)
    ensures |items| == |s.groceryItems.order|
    ensures forall i :: 0 <= i < |items| ==> GetGroceryItem(s, s.groceryItems.order[i]) == Some(items[i])
  {
    Table.List(s.groceryItems)
  }

  /** `groceryItems.get(id)`: the stored item, or `undefined` for an id not held. */
  function GetGroceryItem(s: MemStorage, id: int): (r: Option<GroceryItem>)
    ensures r.Some? <==> id in s.groceryItems.rows
    ensures r.Some? ==> r.value == s.groceryItems.rows[id]
  {
    Table.Get(s.groceryItems, id)
  }

  /**
   * The record gets the grocery counter's current value as its id and the
   * input's fields; it is stored under that id, which was free, and listed
   * last. Only the grocery counter moves, by one; recipes and the shopping
   * list are untouched.
   */
  function CreateGroceryItem(s: MemStorage, item: InsertGroceryItem): (r: Step<GroceryItem>)
    requires Valid(s)
    ensures Valid(r.store)
    ensures r.result.id == s.groceryItems.next
    ensures GroceryFields(r.result) == item
    ensures GetGroceryItem(s, r.result.id) == None
    ensures forall k :: k in s.groceryItems.rows ==> k < r.result.id
    ensures GetGroceryItem(r.store, r.result.id) == Some(r.result)
    ensures forall k :: k != r.result.id ==> GetGroceryItem(r.store, k) == GetGroceryItem(s, k)
    ensures GetGroceryItems(r.store) == GetGroceryItems(s) + [r.result]
    ensures r.store.groceryItems.next == s.groceryItems.next + 1
    ensures r.store.recipes == s.recipes && r.store.shoppingItems == s.shoppingItems
  {
    var newItem := GroceryWithId(item, s.groceryItems.next);
    Step(newItem, s.(groceryItems := Table.Insert(s.groceryItems, newItem)))
  }

  /**
   * A missing id yields `None` and the very same store. An existing record is
   * replaced by the merge of the patch over it, keeps its id and its place in
   * the listing, and is returned; no other record and no counter changes.
   */
  function UpdateGroceryItem(s: MemStorage, id: int, patch: GroceryPatch): (r: Step<Option<GroceryItem>>)
    requires Valid(s)
    ensures Valid(r.store)
    ensures GetGroceryItem(s, id).None? ==> r.result == None && r.store == s
    ensures GetGroceryItem(s, id).Some? ==>
              && r.result == Some(MergeGrocery(GetGroceryItem(s, id).value, patch))
              && r.result.value.id == id
              && GetGroceryItems(r.store) ==
                   GetGroceryItems(s)[Table.IndexOf(s.groceryItems.order, id) := r.result.value]
    ensures GetGroceryItem(r.store, id) == r.result
    ensures forall k :: k != id ==> GetGroceryItem(r.store, k) == GetGroceryItem(s, k)
    ensures r.store.groceryItems.next == s.groceryItems.next
    ensures r.store.recipes == s.recipes && r.store.shoppingItems == s.shoppingItems
  {
    match GetGroceryItem(s, id)
    case None => Step(None, s)
    case Some(existing) =>
      var updated := MergeGrocery(existing, patch);
      Step(Some(updated), s.(groceryItems := Table.Replace(s.groceryItems, id, updated)))
  }

  /**
   * The id is gone afterwards and nothing else changes; deleting a missing id
   * returns the very same store. The counter never moves back, so the id is
   * not issued again.
   */
  function DeleteGroceryItem(s: MemStorage, id: int): (s': MemStorage)
    requires Valid(s)
    ensures Valid(s')
    ensures GetGroceryItem(s', id) == None
    ensures forall k :: k != id ==> GetGroceryItem(s', k) == GetGroceryItem(s, k)
    ensures GetGroceryItem(s, id) == None ==> s' == s
    ensures GetGroceryItem(s, id).Some? ==>
              var p := Table.IndexOf(s.groceryItems.order, id);
              GetGroceryItems(s') == GetGroceryItems(s)[..p] + GetGroceryItems(s)[p + 1..]
    ensures s'.groceryItems.next == s.groceryItems.next
    ensures s'.recipes == s.recipes && s'.shoppingItems == s.shoppingItems
  {
    s.(groceryItems := Table.Remove(s.groceryItems, id))
  }

  /* ---------- recipes ---------- */

  /** Every stored record once, in insertion order: position `i` holds the record under the `i`-th key. */
  function GetRecipes(s: MemStorage): (items: seq<Recipe>)
    requires Table.Valid(s.recipes)
    ensures |items| == |s.recipes.order|
    ensures forall i :: 0 <= i < |items| ==> GetRecipe(s, s.recipes.order[i]) == Some(items[i])
  {
    Table.List(s.recipes)
  }

  /** `recipes.get(id)`: the stored recipe, or `undefined` for an id not held. */
  function GetRecipe(s: MemStorage, id: int): (r: Option<Recipe>)
    ensures r.Some? <==> id in s.recipes.rows
    ensures r.Some? ==> r.value == s.recipes.rows[id]
  {
    Table.Get(s.recipes, id)
  }

  /** As for grocery items, with the recipe counter. */
  function CreateRecipe(s: MemStorage, recipe: InsertRecipe): (r: Step<Recipe>)
    requires Valid(s)
    ensures Valid(r.store)
    ensures r.result.id == s.recipes.next
    ensures RecipeFields(r.result) == recipe
    ensures GetRecipe(s, r.result.id) == None
    ensures forall k :: k in s.recipes.rows ==> k < r.result.id
    ensures GetRecipe(r.store, r.result.id) == Some(r.result)
    ensures forall k :: k != r.result.id ==> GetRecipe(r.store, k) == GetRecipe(s, k)
    ensures GetRecipes(r.store) == GetRecipes(s) + [r.result]
    ensures r.store.recipes.next == s.recipes.next + 1
    ensures r.store.groceryItems == s.groceryItems && r.store.shoppingItems == s.shoppingItems
  {
    var newRecipe := RecipeWithId(recipe, s.recipes.next);
    Step(newRecipe, s.(recipes := Table.Insert(s.recipes, newRecipe)))
  }

  /* ---------- shopping list ---------- */

  /** Every stored record once, in insertion order: position `i` holds the record under the `i`-th key. */
  function GetShoppingList(s: MemStorage): (items: seq<ShoppingItem>)
    requires Table.Valid(s.shoppingItems)
    ensures |items| == |s.shoppingItems.order|
    ensures forall i :: 0 <= i < |items| ==> GetShoppingItem(s, s.shoppingItems.order[i]) == Some(items[i])
  {
    Table.List(s.shoppingItems)
  }

  /** A lookup by id; `MemStorage` has none for shopping items, and the model uses it only in contracts. */
  function GetShoppingItem(s: MemStorage, id: int): (r: Option<ShoppingItem>)
    ensures r.Some? <==> id in s.shoppingItems.rows
    ensures r.Some? ==> r.value == s.shoppingItems.rows[id]
  {
    Table.Get(s.shoppingItems, id)
  }

  /** As for grocery items, with the shopping counter. */
  function CreateShoppingItem(s: MemStorage, item: InsertShoppingItem): (r: Step<ShoppingItem>)
    requires Valid(s)
    ensures Valid(r.store)
    ensures r.result.id == s.shoppingItems.next
    ensures ShoppingFields(r.result) == item
    ensures GetShoppingItem(s, r.result.id) == None
    ensures forall k :: k in s.shoppingItems.rows ==> k < r.result.id
    ensures GetShoppingItem(r.store, r.result.id) == Some(r.result)
    ensures forall k :: k != r.result.id ==> GetShoppingItem(r.store, k) == GetShoppingItem(s, k)
    ensures GetShoppingList(r.store) == GetShoppingList(s) + [r.result]
    ensures r.store.shoppingItems.next == s.shoppingItems.next + 1
    ensures r.store.groceryItems == s.groceryItems && r.store.recipes == s.recipes
  {
    var newItem := ShoppingWithId(item, s.shoppingItems.next);
    Step(newItem, s.(shoppingItems := Table.Insert(s.shoppingItems, newItem)))
  }

  /** As for grocery items: a missing id changes nothing, an existing one is merged in place. */
  function UpdateShoppingItem(s: MemStorage, id: int, patch: ShoppingPatch): (r: Step<Option<ShoppingItem>>)
    requires Valid(s)
    ensures Valid(r.store)
    ensures GetShoppingItem(s, id).None? ==> r.result == None && r.store == s
    ensures GetShoppingItem(s, id).Some? ==>
              && r.result == Some(MergeShopping(GetShoppingItem(s, id).value, patch))
              && r.result.value.id == id
              && GetShoppingList(r.store) ==
                   GetShoppingList(s)[Table.IndexOf(s.shoppingItems.order, id) := r.result.value]
    ensures GetShoppingItem(r.store, id) == r.result
    ensures forall k :: k != id ==> GetShoppingItem(r.store, k) == GetShoppingItem(s, k)
    ensures r.store.shoppingItems.next == s.shoppingItems.next
    ensures r.store.groceryItems == s.groceryItems && r.store.recipes == s.recipes
  {
    match GetShoppingItem(s, id)
    case None => Step(None, s)
    case Some(existing) =>
      var updated := MergeShopping(existing, patch);
      Step(Some(updated), s.(shoppingItems := Table.Replace(s.shoppingItems, id, updated)))
  }

  /** As for grocery items: the id is gone afterwards and nothing else changes. */
  function DeleteShoppingItem(s: MemStorage, id: int): (s': MemStorage)
    requires Valid(s)
    ensures Valid(s')
    ensures GetShoppingItem(s', id) == None
    ensures forall k :: k != id ==> GetShoppingItem(s', k) == GetShoppingItem(s, k)
    ensures GetShoppingItem(s, id) == None ==> s' == s
    ensures GetShoppingItem(s, id).Some? ==>
              var p := Table.IndexOf(s.shoppingItems.order, id);
              GetShoppingList(s') == GetShoppingList(s)[..p] + GetShoppingList(s)[p + 1..]
    ensures s'.shoppingItems.next == s.shoppingItems.next
    ensures s'.groceryItems == s.groceryItems && s'.recipes == s.recipes
  {
    s.(shoppingItems := Table.Remove(s.shoppingItems, id))
  }
}
