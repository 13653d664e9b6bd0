/**
 * Sequences of requests served one after another against one store, as the
 * single-threaded server runs them, and what such runs guarantee: the store
 * stays well formed, counters never go back, created ids strictly increase and
 * a deleted id stays absent.
 */
module Requests {
  import opened Optional
  import opened Schema
  import opened Storage
  import opened Routes

  /** One HTTP request of the route table, with its path id and body already parsed. */
  datatype Request =
    | ListGroceries
    | PostGrocery(groceryBody: Parsed<InsertGroceryItem>)
    | PatchGrocery(groceryId: IdParam, groceryPatch: Parsed<GroceryPatch>)
    | DeleteGrocery(deleteId: IdParam)
    | ListRecipes
    | FetchRecipe(recipeId: IdParam)
    | ListShopping
    | PostShopping(shoppingBody: Parsed<InsertShoppingItem>)
    | PatchShopping(shoppingId: IdParam, shoppingPatch: Parsed<ShoppingPatch>)
    | DeleteShopping(removeId: IdParam)

  /** The grocery item a request created, if it is a successful POST. */
  function CreatedGrocery(req: Request, reply: Reply): Option<GroceryItem> {
    if req.PostGrocery? && reply.Json? && reply.body.GroceryItemBody?
    then Some(reply.body.groceryItem) else None
  }

  /**
   * Routing: each request goes to its handler. No request moves a counter
   * back; only a valid POST moves one, by one, handing out the old value as
   * the new record's id; and no grocery id appears in the store except one it
   * held before or the one just created.
   */
  function Dispatch(s: MemStorage, req: Request): (h: Handled)
    requires Valid(s)
    ensures Valid(h.store)
    ensures s.groceryItems.next <= h.store.groceryItems.next
    ensures s.recipes.next == h.store.recipes.next
    ensures s.shoppingItems.next <= h.store.shoppingItems.next
    ensures req.PostGrocery? && req.groceryBody.Parsed? ==>
              && CreatedGrocery(req, h.reply).Some?
              && CreatedGrocery(req, h.reply).value.id == s.groceryItems.next
              && h.store.groceryItems.next == s.groceryItems.next + 1
    ensures !(req.PostGrocery? && req.groceryBody.Parsed?) ==>
              && CreatedGrocery(req, h.reply).None?
              && h.store.groceryItems.next == s.groceryItems.next
    ensures forall k :: GetGroceryItem(h.store, k).Some? ==>
              GetGroceryItem(s, k).Some? || k == s.groceryItems.next
  {
    if req.ListGroceries? || req.PostGrocery? || req.PatchGrocery? || req.DeleteGrocery?
    then DispatchGrocery(s, req)
    else DispatchOther(s, req)
  }

  /** The grocery routes: the other two tables and the recipe counter stay put. */
  function DispatchGrocery(s: MemStorage, req: Request): (h: Handled)
    requires Valid(s)
    requires req.ListGroceries? || req.PostGrocery? || req.PatchGrocery? || req.DeleteGrocery?
    ensures Valid(h.store)
    ensures h.store.recipes == s.recipes && h.store.shoppingItems == s.shoppingItems
    ensures s.groceryItems.next <= h.store.groceryItems.next
    ensures req.PostGrocery? && req.groceryBody.Parsed? ==>
              && CreatedGrocery(req, h.reply).Some?
              && CreatedGrocery(req, h.reply).value.id == s.groceryItems.next
              && h.store.groceryItems.next == s.groceryItems.next + 1
    ensures !(req.PostGrocery? && req.groceryBody.Parsed?) ==>
              && CreatedGrocery(req, h.reply).None?
              && h.store.groceryItems.next == s.groceryItems.next
    ensures forall k :: GetGroceryItem(h.store, k).Some? ==>
              GetGroceryItem(s, k).Some? || k == s.groceryItems.next
  {
    match req
    case ListGroceries => HandleGetGroceryItems(s)
    case PostGrocery(body) => HandlePostGroceryItem(s, body)
    case PatchGrocery(id, patch) => HandlePatchGroceryItem(s, id, patch)
    case DeleteGrocery(id) => HandleDeleteGroceryItem(s, id)
  }

  /** The recipe and shopping-list routes: the grocery table stays put. */
  function DispatchOther(s: MemStorage, req: Request): (h: Handled)
    requires Valid(s)
    requires !(req.ListGroceries? || req.PostGrocery? || req.PatchGrocery? || req.DeleteGrocery?)
    ensures Valid(h.store)
    ensures h.store.groceryItems == s.groceryItems
    ensures s.recipes.next == h.store.recipes.next
    ensures s.shoppingItems.next <= h.store.shoppingItems.next
    ensures !h.reply.Json? || !h.reply.body.GroceryItemBody?
  {
    match req
    case ListRecipes => HandleGetRecipes(s)
    case FetchRecipe(id) => HandleGetRecipe(s, id)
    case ListShopping => HandleGetShoppingList(s)
    case PostShopping(body) => HandlePostShoppingItem(s, body)
    case PatchShopping(id, patch) => HandlePatchShoppingItem(s, id, patch)
    case DeleteShopping(id) => HandleDeleteShoppingItem(s, id)
  }

  /** The replies of a run and the store before and after every request. */
  datatype Trace = Trace(replies: seq<Reply>, stores: seq<MemStorage>)

  /** Serving `reqs` in order: store `i + 1` is what request `i` leaves of store `i`. */
  function Serve(s: MemStorage, reqs: seq<Request>): (t: Trace)
    requires Valid(s)
    ensures |t.replies| == |reqs| && |t.stores| == |reqs| + 1 && t.stores[0] == s
    decreases |reqs|
  {
    if |reqs| == 0 then Trace([], [s])
    else
      var h := Dispatch(s, reqs[0]);
      var rest := Serve(h.store, reqs[1..]);
      Trace([h.reply] + rest.replies, [s] + rest.stores)
  }

  /** A valid grocery PATCH whose id the store does not hold. */
  predicate PatchOfAbsent(req: Request, s: MemStorage) {
    req.PatchGrocery? && req.groceryPatch.Parsed? && req.groceryId.Num? &&
    GetGroceryItem(s, req.groceryId.n).None?
  }

  /**
   * What one request does to the grocery table: the store stays well formed,
   * the counter does not go back, a key appears only if it is the id just
   * created, a DELETE leaves its id absent, a valid PATCH of an absent id is
   * answered 404, and a successful POST hands out the counter's value and
   * moves it by one.
   */
  ghost predicate GroceryStep(req: Request, before: MemStorage, reply: Reply, after: MemStorage) {
    && Valid(before) && Valid(after)
    && before.groceryItems.next <= after.groceryItems.next
    && (forall k :: GetGroceryItem(after, k).Some? ==>
          GetGroceryItem(before, k).Some? || k == before.groceryItems.next)
    && (req.DeleteGrocery? && req.deleteId.Num? ==> GetGroceryItem(after, req.deleteId.n) == None)
    && (PatchOfAbsent(req, before) ==> reply == NotFound(ItemNotFound))
    && (CreatedGrocery(req, reply).Some? ==>
          && CreatedGrocery(req, reply).value.id == before.groceryItems.next
          && after.groceryItems.next == before.groceryItems.next + 1)
  }

  /** A trace in which every request is such a step. */
  ghost predicate GroceryRun(reqs: seq<Request>, t: Trace) {
    && |t.replies| == |reqs| && |t.stores| == |reqs| + 1
    && forall i :: 0 <= i < |reqs| ==> GroceryStep(reqs[i], t.stores[i], t.replies[i], t.stores[i + 1])
  }

  /** Every request the router serves is a grocery step. */
  lemma DispatchGroceryStep(s: MemStorage, req: Request)
    requires Valid(s)
    ensures GroceryStep(req, s, Dispatch(s, req).reply, Dispatch(s, req).store)
  {
  }

  /** Serving any requests from a well-formed store yields such a trace. */
  lemma {:induction false} ServeGroceryRun(s: MemStorage, reqs: seq<Request>)
    requires Valid(s)
    ensures GroceryRun(reqs, Serve(s, reqs))
    decreases |reqs|
  {
    if |reqs| > 0 {
      var h := Dispatch(s, reqs[0]);
      var rest := Serve(h.store, reqs[1..]);
      var t := Serve(s, reqs);
      DispatchGroceryStep(s, reqs[0]);
      ServeGroceryRun(h.store, reqs[1..]);
      forall i | 0 <= i < |reqs|
        ensures GroceryStep(reqs[i], t.stores[i], t.replies[i], t.stores[i + 1])
      {
        if i > 0 {
          assert reqs[1..][i - 1] == reqs[i];
          assert GroceryStep(reqs[1..][i - 1], rest.stores[i - 1], rest.replies[i - 1], rest.stores[i]);
        }
      }
    }
  }

  /** The grocery counter never goes back over a run. */
  lemma {:induction false} CounterMonotone(reqs: seq<Request>, t: Trace, i: nat, j: nat)
    requires GroceryRun(reqs, t)
    requires i <= j <= |reqs|
    ensures t.stores[i].groceryItems.next <= t.stores[j].groceryItems.next
    decreases j - i
  {
    if i < j {
      CounterMonotone(reqs, t, i, j - 1);
      assert GroceryStep(reqs[j - 1], t.stores[j - 1], t.replies[j - 1], t.stores[j]);
    }
  }

  /**
   * Grocery ids handed out by successful POSTs strictly increase along a run,
   * so no id is ever issued twice, deletions in between notwithstanding.
   */
  lemma CreatedIdsIncrease(reqs: seq<Request>, t: Trace, i: nat, j: nat)
    requires GroceryRun(reqs, t)
    requires i < j < |reqs|
    requires CreatedGrocery(reqs[i], t.replies[i]).Some?
    requires CreatedGrocery(reqs[j], t.replies[j]).Some?
    ensures CreatedGrocery(reqs[i], t.replies[i]).value.id < CreatedGrocery(reqs[j], t.replies[j]).value.id
  {
    assert GroceryStep(reqs[i], t.stores[i], t.replies[i], t.stores[i + 1]);
    assert GroceryStep(reqs[j], t.stores[j], t.replies[j], t.stores[j + 1]);
    CounterMonotone(reqs, t, i + 1, j);
  }

  /** A created id is above every grocery id held at any earlier point of the run. */
  lemma CreatedIdFresh(reqs: seq<Request>, t: Trace, i: nat, j: nat, k: int)
    requires GroceryRun(reqs, t)
    requires j <= i < |reqs|
    requires CreatedGrocery(reqs[i], t.replies[i]).Some?
    requires GetGroceryItem(t.stores[j], k).Some?
    ensures k < CreatedGrocery(reqs[i], t.replies[i]).value.id
  {
    assert GroceryStep(reqs[i], t.stores[i], t.replies[i], t.stores[i + 1]);
    assert GroceryStep(reqs[j], t.stores[j], t.replies[j], t.stores[j + 1]);
    assert k in t.stores[j].groceryItems.rows;
    CounterMonotone(reqs, t, j, i);
  }

  /**
   * Once an existing grocery item is deleted, its id stays absent for the rest
   * of the run, so every later PATCH of it gets 404.
   */
  lemma {:induction false} DeletedStaysAbsent(reqs: seq<Request>, t: Trace, i: nat, j: nat, k: int)
    requires GroceryRun(reqs, t)
    requires i < j <= |reqs|
    requires reqs[i] == DeleteGrocery(Num(k))
    requires GetGroceryItem(t.stores[i], k).Some?
    ensures GetGroceryItem(t.stores[j], k) == None
    ensures k < t.stores[j].groceryItems.next
    decreases j - i
  {
    assert GroceryStep(reqs[j - 1], t.stores[j - 1], t.replies[j - 1], t.stores[j]);
    if i < j - 1 {
      DeletedStaysAbsent(reqs, t, i, j - 1, k);
    } else {
      assert k in t.stores[i].groceryItems.rows;
    }
  }

  /** A PATCH of a deleted grocery id, later in the same run, is answered 404. */
  lemma PatchAfterDeleteNotFound(reqs: seq<Request>, t: Trace, i: nat, j: nat, k: int)
    requires GroceryRun(reqs, t)
    requires i < j < |reqs|
    requires reqs[i] == DeleteGrocery(Num(k))
    requires GetGroceryItem(t.stores[i], k).Some?
    requires reqs[j].PatchGrocery? && reqs[j].groceryId == Num(k) && reqs[j].groceryPatch.Parsed?
    ensures t.replies[j] == NotFound(ItemNotFound)
  {
    DeletedStaysAbsent(reqs, t, i, j, k);
    assert GroceryStep(reqs[j], t.stores[j], t.replies[j], t.stores[j + 1]);
  }
}
