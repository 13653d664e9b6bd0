/**
 * Concrete request sequences against a freshly constructed store and the
 * replies they get.
 */
module Scenarios {
  import opened Optional
  import opened Schema
  import opened Storage
  import opened Routes
  import Table

  /** At startup the recipe listing is exactly the two sample recipes, ids 1 and 2. */
  lemma StartupRecipes()
    ensures HandleGetRecipes(New()).reply
         == Json(RecipeList([RecipeWithId(ClassicPancakes, 1), RecipeWithId(GardenSalad, 2)]))
    ensures HandleGetRecipe(New(), Num(1)).reply.body.recipe.name == "Classic Pancakes"
    ensures HandleGetRecipe(New(), Num(3)).reply == NotFound(RecipeNotFound)
  {
    var s := New();
    assert GetRecipes(s) == [RecipeWithId(ClassicPancakes, 1), RecipeWithId(GardenSalad, 2)];
    var h := HandleGetRecipes(s);
    assert h.reply == Json(RecipeList(GetRecipes(s)));
  }

  const Milk := InsertGroceryItem("Milk", 2, "liter", None)

  /**
   * The first grocery item posted to a fresh store gets id 1 and comes back
   * with exactly the posted fields; the next listing holds just that item.
   */
  lemma FirstMilk()
    ensures var posted := HandlePostGroceryItem(New(), Parsed(Milk));
            && posted.reply == Json(GroceryItemBody(GroceryItem(1, "Milk", 2, "liter", None)))
            && HandleGetGroceryItems(posted.store).reply
               == Json(GroceryItemList([GroceryItem(1, "Milk", 2, "liter", None)]))
  {
    var posted := HandlePostGroceryItem(New(), Parsed(Milk));
    assert posted.reply.body.groceryItem == GroceryWithId(Milk, 1);
  }

  /**
   * An id no item has gets 404 on PATCH and 204 on DELETE, and neither changes
   * the store.
   */
  lemma UnknownId(s: MemStorage, patch: GroceryPatch)
    requires Valid(s)
    requires 99999 !in s.groceryItems.rows
    ensures HandlePatchGroceryItem(s, Num(99999), Parsed(patch)) == Handled(NotFound(ItemNotFound), s)
    ensures HandleDeleteGroceryItem(s, Num(99999)) == Handled(NoContent, s)
  {
  }

  /** A PATCH with an empty body succeeds and returns the record unchanged, leaving the store as it was. */
  lemma EmptyPatch(s: MemStorage, k: int)
    requires Valid(s)
    requires k in s.groceryItems.rows
    ensures HandlePatchGroceryItem(s, Num(k), Parsed(NoGroceryChange))
         == Handled(Json(GroceryItemBody(s.groceryItems.rows[k])), s)
  {
    MergeGroceryEmpty(s.groceryItems.rows[k]);
    Table.ReplaceSame(s.groceryItems, k);
  }

  /** A POST whose body fails validation leaves the listing exactly as long as before. */
  lemma RejectedPost(s: MemStorage, issues: seq<string>)
    requires Valid(s)
    ensures var h := HandlePostGroceryItem(s, Invalid(issues));
            Status(h.reply) == 400 && |GetGroceryItems(h.store)| == |GetGroceryItems(s)|
  {
  }
}
