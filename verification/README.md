# Grocery app: store, routes and page rules in Dafny

This project models the server core of the grocery app and the small rules its pages apply before they talk to the server.

The server core has two parts:

- **`MemStorage`** is the in-memory store. It holds three independent collections: grocery items, recipes and shopping-list items. Each collection has its own id counter, starting at 1. The constructor seeds two sample recipes.
- **`registerRoutes`** holds the request handlers: list, create, patch and delete for grocery items and for the shopping list, plus list and fetch-by-id for recipes.

The page rules come from three pages:

- the add-item dialogs of the inventory and shopping-list pages, which run the same field checks;
- the purchase toggle and the display order of the shopping list;
- the case-insensitive name search of the recipe page.

Every collection is a `Table` (`table.dfy`). A `Table` models a JavaScript `Map` together with its counter:

- a `map<int, T>` from id to record;
- the keys in insertion order, which is the order `Map` iterates in;
- the next id to issue.

`Table.Valid` states the store's invariants:

- the order lists exactly the stored keys;
- the order is strictly increasing, so it has no duplicates;
- every key is below the counter.

`Storage.Valid` adds that each record is stored under its own id. Every operation is a pure function from the store before to the store after. The request handlers take the validation verdict (`Parsed` or `Invalid`) and the result of `parseInt` (`Num` or `NaN`) as inputs. They return the reply together with the new store.

`requests.dfy` serves sequences of requests against one store. It proves run-level facts about grocery items:

- the counter never moves back;
- created ids strictly increase;
- a deleted id stays absent, so a later PATCH of it gets 404.

`scenarios.dfy` pins a few concrete request/reply pairs. An example is that the first item posted to a fresh store gets id 1.

Modules follow the app's file layout:

| module | file | source |
|---|---|---|
| `Optional` | `optional.dfy` | the `undefined` results |
| `Schema` | `schema.dfy` | records, insert shapes, partial patches, spread merge |
| `Table` | `table.dfy` | `Map` plus counter |
| `Storage` | `storage.dfy` | `server/storage.ts` |
| `Routes` | `routes.dfy` | `server/routes.ts` |
| `Requests` | `requests.dfy` | runs of routed requests |
| `Scenarios` | `scenarios.dfy` | concrete exchanges |
| `ItemForm` | `forms.dfy` | the shared `addItemSchema` checks |
| `InventoryPage` | `inventory.dfy` | `client/src/pages/inventory.tsx` |
| `ShoppingPage` | `shopping.dfy` | `client/src/pages/shopping.tsx` |
| `RecipesPage` | `recipes.dfy` | `client/src/pages/recipes.tsx` |

## Model

| member | source | states |
|---|---|---|
| Table.Empty | server/storage.ts:36-40 | A new map with its counter at 1 is well formed, finds no key and lists nothing. |
| Table.Insert | server/storage.ts:81-83 | The counter's value is a key not yet in use. The record is stored under it and listed last. Every other key reads as before and the counter goes up by one. |
| Table.Replace | server/storage.ts:92 | Setting a present key stores the new record there. The record keeps the key's place in the listing. Other keys and the counter do not change. |
| Table.Remove | server/storage.ts:97 | After `delete` the key is absent and every other key reads as before. A missing key leaves the table identical. A present key drops exactly that entry from the listing and keeps the rest in order. The counter does not move back. |
| Table.Get | server/storage.ts:76-78 | `map.get` finds exactly the stored keys and returns the record stored under the key. Any other key gives `undefined`. |
| Table.List | server/storage.ts:72-74 | `Array.from(map.values())` has one entry per inserted key. Position i holds the record under the i-th inserted key. |
| Table.ListAt | server/storage.ts:72-74 | Position i of the listing holds the record stored under the i-th inserted key. |
| Table.ListCount | server/storage.ts:72-74 | The listing has exactly one entry per stored key. |
| Table.ListContains | server/storage.ts:72-74 | Every stored record appears in the listing, at its key's insertion position. |
| Table.ListInKeyOrder | server/storage.ts:72-74 | When records carry their keys, the listing runs in strictly increasing id order, which is creation order. |
| Table.ReplaceSame | server/storage.ts:92 | Setting a key to the record it already holds leaves the table identical. |
| Table.ReplaceRestore | server/storage.ts:92 | Replacing a record and then writing the original back restores the table exactly. |
| Schema.GroceryWithId | server/storage.ts:82 | `{ ...item, id }` carries the given id and exactly the input's fields. The fields can be recovered with `GroceryFields`. |
| Schema.RecipeWithId | server/storage.ts:111 | The stored recipe carries the given id and exactly the input's fields. |
| Schema.RecipeFieldsWithId | server/storage.ts:111 | Inverse direction: a recipe is its own fields under its own id. |
| Schema.ShoppingWithId | server/storage.ts:123 | The stored shopping item carries the given id and exactly the input's fields. |
| Schema.MergeGrocery | server/storage.ts:91 | Spread merge: each field present in the patch overwrites and each absent field keeps its value. The id is kept. |
| Schema.MergeShopping | server/storage.ts:132 | The same spread merge for shopping items, field by field, with the id kept. |
| Schema.MergeGroceryEmpty | server/storage.ts:91 | An empty patch leaves the grocery record unchanged. |
| Schema.MergeShoppingEmpty | server/storage.ts:132 | An empty patch leaves the shopping item unchanged. |
| Schema.MergeGroceryIdempotent | server/storage.ts:91 | Applying the same patch twice equals applying it once. |
| Schema.MergeShoppingIdempotent | server/storage.ts:132 | Applying the same patch twice equals applying it once. |
| Schema.MergeGroceryThen | server/storage.ts:91 | Two successive merges equal one merge of the combined patch, where the later field wins. |
| Schema.MergeShoppingThen | server/storage.ts:132 | Two successive merges equal one merge of the combined patch. |
| Schema.MergeGroceryFull | server/storage.ts:91 | A patch naming every field replaces the whole record except its id. |
| Storage.Blank | server/storage.ts:37-40 | Before seeding, all three counters are 1 and all three listings are empty. |
| Storage.AddRecipes | server/storage.ts:68 | Creating recipes one by one keeps the table well formed. The counter advances by the number of recipes. |
| Storage.CreateRecipes | server/storage.ts:68 | `forEach(createRecipe)` keeps the store well formed and moves only the recipe counter, by the batch size. The other collections are untouched. |
| Storage.AddRecipesKeyed | server/storage.ts:109-114 | Every recipe created in a batch is stored under its own id. |
| Storage.CreateRecipesEach | server/storage.ts:68 | The batch is `createRecipe` applied to each element in turn. |
| Storage.CreateRecipesListing | server/storage.ts:68 | After the batch, the listing is the old listing followed by the batch, in order, under consecutive ids from the counter. |
| Storage.AddRecipesListing | server/storage.ts:109-114 | The same listing fact at table level. It is proved by induction over the batch. |
| Storage.CreateRecipesPair | server/storage.ts:47-68 | Creating two recipes lists them last, under ids `next` and `next + 1`. |
| Storage.InitializeSampleData | server/storage.ts:46-69 | Seeding appends Classic Pancakes and then Garden Salad under the next two recipe ids. The recipe counter advances by two and the other collections are untouched. |
| Storage.New | server/storage.ts:36-44 | A fresh store has grocery and shopping counters at 1 with both collections empty. It has exactly two recipes: id 1 "Classic Pancakes" and id 2 "Garden Salad". The recipe counter is 3 and no other recipe id is found. |
| Storage.GetGroceryItems | server/storage.ts:72-74 | The grocery listing has one entry per inserted id. Position i is what a lookup of the i-th inserted id returns. |
| Storage.GetGroceryItem | server/storage.ts:76-78 | A lookup finds exactly the stored ids and returns the item stored under the id. |
| Storage.CreateGroceryItem | server/storage.ts:80-85 | The result has the old counter as id and exactly the input's fields. That id was free and above every stored id. The record is stored under it and listed last. Only the grocery counter moves, by one. The other collections are untouched. |
| Storage.UpdateGroceryItem | server/storage.ts:87-94 | A missing id returns `None` with the identical store. An existing id returns the merged record and stores it at the same listing position. Other records, the counter and the other collections do not change. |
| Storage.DeleteGroceryItem | server/storage.ts:96-98 | The id is absent afterwards and every other id reads as before. A missing id leaves the identical store. A present id drops exactly its entry from the listing. The counter does not move back. |
| Storage.GetRecipes | server/storage.ts:101-103 | The recipe listing has one entry per inserted id. Position i is what a lookup of the i-th inserted id returns. |
| Storage.GetRecipe | server/storage.ts:105-107 | A lookup finds exactly the stored ids and returns the recipe stored under the id. |
| Storage.CreateRecipe | server/storage.ts:109-114 | The same as grocery create, for recipes and the recipe counter. |
| Storage.GetShoppingList | server/storage.ts:117-119 | The shopping listing has one entry per inserted id. Position i is the item stored under the i-th inserted id. |
| Storage.CreateShoppingItem | server/storage.ts:121-126 | The same as grocery create, for the shopping list and its counter. |
| Storage.UpdateShoppingItem | server/storage.ts:128-135 | The same as grocery update, for the shopping list. |
| Storage.DeleteShoppingItem | server/storage.ts:137-139 | The same as grocery delete, for the shopping list. |
| Routes.HandleGetGroceryItems | server/routes.ts:9-12 | Replies 200 and leaves the store unchanged. The reply holds every stored item exactly once, in increasing id order. |
| Routes.HandlePostGroceryItem | server/routes.ts:14-26 | An invalid body gets 400 with its issues and no store change. A valid body gets 200 with exactly the created record: the input's fields under the old counter value. The next listing ends with that record. |
| Routes.HandlePatchGroceryItem | server/routes.ts:28-45 | Validation comes first: an invalid body gets 400 with no change, whatever the id. A valid patch of an absent or NaN id gets 404 "Item not found" with no change. Otherwise the reply is 200 with the merged record, which is now stored. |
| Routes.HandleDeleteGroceryItem | server/routes.ts:47-51 | Always replies 204, and the id is absent afterwards. Other ids read as before. An absent or NaN id leaves the store identical. |
| Routes.HandleGetRecipes | server/routes.ts:54-57 | Replies 200 with every stored recipe exactly once, in increasing id order. The store is unchanged. |
| Routes.HandleGetRecipe | server/routes.ts:59-67 | An unknown or NaN id gets 404 "Recipe not found". Otherwise the reply is 200 with the stored recipe. The store is unchanged either way. |
| Routes.HandleGetShoppingList | server/routes.ts:70-73 | Replies 200 with every stored item exactly once, in increasing id order. The store is unchanged. |
| Routes.HandlePostShoppingItem | server/routes.ts:75-87 | An invalid body gets 400 with no change. A valid body gets 200 with exactly the created item, which the next listing shows last. |
| Routes.HandlePatchShoppingItem | server/routes.ts:89-106 | An invalid body gets 400 before any lookup. An absent or NaN id gets 404 "Item not found" with no change. Otherwise the reply is 200 with the merged item, which is now stored. |
| Routes.HandleDeleteShoppingItem | server/routes.ts:108-112 | Always replies 204, and the id is absent afterwards. Other ids read as before. An absent or NaN id leaves the store identical. |
| Requests.Dispatch | server/routes.ts:7-112 | Any routed request keeps the store well formed, never moves a counter back and never moves the recipe counter. Only a valid grocery POST moves the grocery counter: by one, handing out the old value as the new id. No grocery id appears unless it was held before or was just created. |
| Requests.DispatchGrocery | server/routes.ts:9-51 | The grocery routes leave the recipes and the shopping list untouched. Within the grocery table they obey the counter and new-key facts above. |
| Requests.DispatchOther | server/routes.ts:54-112 | The recipe and shopping routes leave the grocery table untouched. They create no grocery item and never move the recipe counter back. |
| Requests.Serve | server/routes.ts:7-112 | Serving requests in order yields one reply per request and one store per step, starting from the given store. |
| Requests.DispatchGroceryStep | server/routes.ts:7-112 | Every routed request is a grocery step in the sense of `GroceryStep`. |
| Requests.ServeGroceryRun | server/routes.ts:7-112 | Every run served from a well-formed store is a grocery run: each of its requests is a grocery step. |
| Requests.CounterMonotone | server/storage.ts:81 | Over a run, the grocery counter at a later point is never below its value at an earlier point. |
| Requests.CreatedIdsIncrease | server/storage.ts:81 | Ids handed out by successful grocery POSTs strictly increase along a run, so no id is ever issued twice. |
| Requests.CreatedIdFresh | server/storage.ts:81 | A created grocery id is above every id the store held at any earlier point of the run, including ids deleted since. |
| Requests.DeletedStaysAbsent | server/storage.ts:96-98 | After an existing grocery item is deleted, its id stays absent for the rest of the run and remains below the counter. |
| Requests.PatchAfterDeleteNotFound | server/routes.ts:28-45 | A valid PATCH of a grocery id deleted earlier in the same run is answered 404 "Item not found". |
| Scenarios.StartupRecipes | server/routes.ts:54-67 | On a fresh store, GET /api/recipes returns exactly the two sample recipes under ids 1 and 2. Recipe 1 is "Classic Pancakes" and recipe 3 is not found. |
| Scenarios.FirstMilk | server/routes.ts:9-26 | The first grocery item posted to a fresh store comes back with id 1 and the posted fields. The next listing is exactly that item. |
| Scenarios.UnknownId | server/routes.ts:28-51 | A valid PATCH of an id nobody holds gets 404, and a DELETE of it gets 204. Neither changes the store. |
| Scenarios.EmptyPatch | server/routes.ts:28-45 | A PATCH with an empty body returns the stored record unchanged and leaves the store identical. |
| Scenarios.RejectedPost | server/routes.ts:14-26 | A POST whose body fails validation gets 400 and does not change the listing length. |
| ItemForm.Issues | client/src/pages/inventory.tsx:21-25 | The schema's issue list, strictly in field order (name, quantity, unit), with at most one issue per field. It is empty exactly when the form is acceptable. Each issue is present exactly when its field fails: empty name, NaN quantity, negative quantity, empty unit. The first issue belongs to the first bad field. |
| ItemForm.Message | client/src/pages/inventory.tsx:22-24 | The toast text of an issue is the page's name message, "Quantity must be positive" or "Unit is required". A NaN quantity has no page-defined text. The shopping page's schema (client/src/pages/shopping.tsx, lines 23-25) uses the same texts with its own name message. |
| InventoryPage.HandleAddItem | client/src/pages/inventory.tsx:56-73 | A POST happens exactly when the form passes every check. It sends the form's name and unit and the parsed quantity. Otherwise nothing is posted and the toast shows the first issue. |
| InventoryPage.ZeroQuantityAccepted | client/src/pages/inventory.tsx:23 | `min(0)` is inclusive: quantity 0 with a name and a unit is posted. |
| InventoryPage.EmptyNameRejected | client/src/pages/inventory.tsx:22 | An empty name is rejected with the name issue first, whatever the other fields hold. The toast for that issue reads "Name is required". |
| ShoppingPage.HandleAddItem | client/src/pages/shopping.tsx:72-89 | A POST happens exactly when the form passes every check. It sends the item name and unit, the parsed quantity, and not purchased. Otherwise nothing is posted and the toast shows the first issue. |
| ShoppingPage.EmptyItemNameRejected | client/src/pages/shopping.tsx:23 | An empty item name is rejected with the name issue first, whatever the other fields hold. The toast for that issue reads "Item name is required". |
| ShoppingPage.QuantityBoundary | client/src/pages/shopping.tsx:22-26 | Quantity 0 is accepted. Any negative quantity is rejected with the negative-quantity issue. |
| ShoppingPage.ToggleItem | client/src/pages/shopping.tsx:91-96 | The toggle sends a PATCH for the item's own id. Its body sets only `isPurchased`, to the negation of the item's flag. |
| ShoppingPage.ToggleFlipsOnlyPurchased | client/src/pages/shopping.tsx:91-96 | Sending the toggle's PATCH for a stored item gets 200 with that item with only `isPurchased` flipped. The flipped item is stored in the same listing position and no other item changes. |
| ShoppingPage.ToggleTwice | client/src/pages/shopping.tsx:91-96 | Toggling an item and then toggling the result restores the store exactly. |
| ShoppingPage.Compare | client/src/pages/shopping.tsx:98-103 | The comparator is 0 exactly for equal status. It is negative exactly when only the second item is purchased and positive exactly when only the first is. |
| ShoppingPage.CompareConsistent | client/src/pages/shopping.tsx:98-103 | The comparator is reflexive-zero, antisymmetric and transitive, as a sort comparator must be. |
| ShoppingPage.WithStatus | client/src/pages/shopping.tsx:98-103 | Every item of a status group is an input item with that status. |
| ShoppingPage.SortedItems | client/src/pages/shopping.tsx:98-103 | The sorted copy has as many entries as the items and holds exactly the same items. |
| ShoppingPage.SortedItemsGrouped | client/src/pages/shopping.tsx:98-103 | In the display order no purchased item precedes an unpurchased one. |
| ShoppingPage.SortedItemsPermutation | client/src/pages/shopping.tsx:98 | The display order is a permutation of the items. |
| ShoppingPage.SortedItemsStable | client/src/pages/shopping.tsx:99-101 | Within each status the display order keeps the items' original relative order. |
| ShoppingPage.SortedItemsUnique | client/src/pages/shopping.tsx:98-103 | Any grouped sequence that keeps each status's original order equals the display order, which is thus the stable sort's only possible result. |
| RecipesPage.ToLower | client/src/pages/recipes.tsx:25 | Lower-casing keeps the length and maps every character through ASCII lower-casing. |
| RecipesPage.ToUpper | client/src/pages/recipes.tsx:25 | Upper-casing keeps the length and maps every character through ASCII upper-casing. |
| RecipesPage.Includes | client/src/pages/recipes.tsx:25 | `includes` is true exactly when the needle occurs at some position of the text. |
| RecipesPage.Matches | client/src/pages/recipes.tsx:25 | A recipe matches exactly when the lower-cased search occurs at some position of its lower-cased name. |
| RecipesPage.FilterRecipes | client/src/pages/recipes.tsx:24-26 | A recipe is shown exactly when its lower-cased name contains the lower-cased search. Each recipe occurs in the result as often as in the input if it matches, and not at all otherwise. The result is a subsequence of the recipes and keeps their order. |
| RecipesPage.EmptySearchKeepsAll | client/src/pages/recipes.tsx:24-26 | An empty search shows every recipe, in order. |
| RecipesPage.LowerOfUpper | client/src/pages/recipes.tsx:25 | Lower-casing an upper-cased text gives the text's own lower-casing. |
| RecipesPage.SameLowerSameFilter | client/src/pages/recipes.tsx:24-26 | Two searches with the same lower-casing show the same recipes. |
| RecipesPage.SearchIgnoresCase | client/src/pages/recipes.tsx:24-26 | Searching for a text or its upper-cased form shows the same recipes. |

## Left out

- The schema module that the server and both pages import is not part of this model. Record fields follow its use in the store and the pages. Field constraints beyond those are left abstract, and validation is an input verdict (`Parsed` or `Invalid`) rather than a model of the schema library.
- `ShoppingPage.HandleAddItem`: the page posts only the item name, quantity and unit. The model gives the posted item `isPurchased = false`, on the assumption that the schema defaults an absent flag to false, since the schema is not part of this model.
- `ShoppingPage.Compare`: the comparator and the display-order lemmas (`CompareConsistent`, `SortedItemsGrouped`, `SortedItemsPermutation`, `SortedItemsStable`, `SortedItemsUnique`) assume every stored shopping item has a boolean `isPurchased`. The page posts no flag, and `{ ...item, id }` stores one only if the schema, which is not part of this model, fills in a default. If a stored item lacked the flag, `a.isPurchased === b.isPurchased` would fail against an item whose flag is `false`, and the comparator would return -1 in both argument orders. It would then be inconsistent, and none of the ordering lemmas would follow.
- Error-list formatting of the schema library is not modelled. `ItemForm.Message` gives no text for a NaN quantity, because that message comes from the library.
- Full Unicode `toLowerCase` is not modelled: case folding covers ASCII letters only.
- `parseInt` is not modelled. Its result is an input: `Num` or `NaN` for path ids, `Int` or `NotANumber` for form quantities. Ids are unbounded integers rather than JavaScript numbers.
- The 500 "Internal server error" branches are left out: the in-memory store raises no exception that could reach them.
- Express, JSON encoding, `createServer`, promises, React Query, cache invalidation, toasts, dialogs and all page rendering are left out. Store methods are synchronous functions.
- `client/src/App.tsx` and the components under `client/src/components/` are presentational or timer-driven glue and are not modelled.
- `Storage.GetShoppingItem` is a lookup by id that `MemStorage` has no method for. The model uses it only to state contracts.
- The partial insert schemas are assumed to exclude `id`, so the schema library strips any `id` a client sends in a PATCH body. `GroceryPatch` and `ShoppingPatch` therefore have no `id` field. That every record stays stored under its own id after a PATCH (`Storage.Valid`) depends on this assumption: `{ ...existingItem, ...item }` would overwrite the stored id if an `id` got through.
- Run-level lemmas in `Requests` cover the grocery collection. For recipes and the shopping list, the same counter facts are stated per call by `Storage.CreateRecipe`, `Storage.CreateShoppingItem` and the delete functions. They are not restated over runs.
- `Requests.Serve`: its contract states only the shape of the trace. What each step does is stated by `Requests.ServeGroceryRun` through `GroceryStep`.
