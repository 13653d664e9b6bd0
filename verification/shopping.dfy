/**
 * The shopping-list page: its add-item dialog, the purchase toggle, and the
 * display order of the list.
 */
module ShoppingPage {
  import opened Optional
  import opened Schema
  import opened Storage
  import opened Routes
  import opened ItemForm
  import Table

  /* ---------- adding an item ---------- */

  datatype NewItem = NewItem(itemName: string, quantity: NumberInput, unit: string)

  const ItemNameRequired := "Item name is required"

  /**
   * `handleAddItem`: an acceptable form is posted with exactly its item name,
   * unit and parsed quantity, not yet purchased; any other form posts nothing
   * and shows the first issue.
   */
  function HandleAddItem(form: NewItem): (r: Outcome<InsertShoppingItem>)
    ensures r.Submit? <==> Acceptable(form.itemName, form.quantity, form.unit)
    ensures r.Submit? ==>
              && r.item.itemName == form.itemName && r.item.unit == form.unit
              && form.quantity == Int(r.item.quantity) && !r.item.isPurchased
    ensures r.Toast? ==> r.issue == Issues(form.itemName, form.quantity, form.unit)[0]
  {
    var issues := Issues(form.itemName, form.quantity, form.unit);
    if |issues| == 0 then Submit(InsertShoppingItem(form.itemName, form.quantity.n, form.unit, false))
    else Toast(issues[0])
  }

  /** `min(0)` is inclusive: a zero quantity is accepted, a negative one is not. */
  lemma QuantityBoundary(itemName: string, unit: string, q: int)
    requires |itemName| > 0 && |unit| > 0
    ensures HandleAddItem(NewItem(itemName, Int(0), unit)).Submit?
    ensures q < 0 ==> HandleAddItem(NewItem(itemName, Int(q), unit)) == Toast(QuantityNegative)
  {
  }

  /** An empty item name is reported first, and the dialog's toast for it reads "Item name is required". */
  lemma EmptyItemNameRejected(quantity: NumberInput, unit: string)
    ensures HandleAddItem(NewItem("", quantity, unit)) == Toast(NameEmpty)
    ensures Message(HandleAddItem(NewItem("", quantity, unit)).issue, ItemNameRequired)
            == Some("Item name is required")
  {
  }

  /* ---------- toggling ---------- */

  /** The PATCH request `toggleItem` sends: the path id and the body. */
  datatype PatchRequest = PatchRequest(id: int, patch: ShoppingPatch)

  /** `toggleItem`: PATCH the item's id with a body whose only field is the flipped flag. */
  function ToggleItem(item: ShoppingItem): (r: PatchRequest)
    ensures r.id == item.id
    ensures r.patch.isPurchased == Some(!item.isPurchased)
    ensures r.patch.itemName.None? && r.patch.quantity.None? && r.patch.unit.None?
  {
    PatchRequest(item.id, ShoppingPatch(None, None, None, Some(!item.isPurchased)))
  }

  /**
   * Sent to the server, the toggle of a stored item answers 200 with the item
   * whose only change is the flipped flag; every other item stays as it was
   * and the item keeps its place in the listing.
   */
  lemma ToggleFlipsOnlyPurchased(s: MemStorage, item: ShoppingItem)
    requires Valid(s)
    requires GetShoppingItem(s, item.id) == Some(item)
    ensures var h := HandlePatchShoppingItem(s, Num(ToggleItem(item).id), Parsed(ToggleItem(item).patch));
            && h.reply == Json(ShoppingItemBody(item.(isPurchased := !item.isPurchased)))
            && GetShoppingItem(h.store, item.id) == Some(item.(isPurchased := !item.isPurchased))
            && (forall k :: k != item.id ==> GetShoppingItem(h.store, k) == GetShoppingItem(s, k))
            && |GetShoppingList(h.store)| == |GetShoppingList(s)|
            && GetShoppingList(h.store)[Table.IndexOf(s.shoppingItems.order, item.id)]
               == item.(isPurchased := !item.isPurchased)
  {
  }

  /** Toggling twice restores the store exactly. */
  lemma ToggleTwice(s: MemStorage, item: ShoppingItem)
    requires Valid(s)
    requires GetShoppingItem(s, item.id) == Some(item)
    ensures var once := HandlePatchShoppingItem(s, Num(item.id), Parsed(ToggleItem(item).patch));
            var flipped := item.(isPurchased := !item.isPurchased);
            HandlePatchShoppingItem(once.store, Num(item.id), Parsed(ToggleItem(flipped).patch)).store == s
  {
    var flipped := item.(isPurchased := !item.isPurchased);
    assert MergeShopping(flipped, ToggleItem(flipped).patch) == item;
    Table.ReplaceRestore(s.shoppingItems, item.id, flipped);
  }

  /* ---------- display order ---------- */

  /**
   * The comparator of `sortedItems`: 0 for equal status, otherwise the
   * unpurchased item goes first.
   */
  function Compare(a: ShoppingItem, b: ShoppingItem): (r: int)
    ensures r == 0 <==> a.isPurchased == b.isPurchased
    ensures r < 0 <==> !a.isPurchased && b.isPurchased
    ensures r > 0 <==> a.isPurchased && !b.isPurchased
  {
    if a.isPurchased == b.isPurchased then 0 else if a.isPurchased then 1 else -1
  }

  /** The comparator is consistent, as `Array.prototype.sort` requires. */
  lemma CompareConsistent(a: ShoppingItem, b: ShoppingItem, c: ShoppingItem)
    ensures Compare(a, a) == 0
    ensures Compare(a, b) == -Compare(b, a)
    ensures Compare(a, b) <= 0 && Compare(b, c) <= 0 ==> Compare(a, c) <= 0
  {
  }

  /** The items with the given purchase status, in their original order. */
  function WithStatus(items: seq<ShoppingItem>, purchased: bool): (r: seq<ShoppingItem>)
    ensures forall x :: x in r ==> x in items && x.isPurchased == purchased
  {
    if |items| == 0 then []
    else if items[0].isPurchased == purchased then [items[0]] + WithStatus(items[1..], purchased)
    else WithStatus(items[1..], purchased)
  }

  /**
   * `[...items].sort(Compare)`: the sort is stable and the comparator only
   * separates the two statuses, so the result is the unpurchased items in
   * their order followed by the purchased ones in theirs. The argument is a
   * value, so `items` itself is never changed.
   */
  function SortedItems(items: seq<ShoppingItem>): (r: seq<ShoppingItem>)
    ensures |r| == |items|
    ensures forall x :: x in r <==> x in items
  {
    var r := WithStatus(items, false) + WithStatus(items, true);
    WithStatusSplit(items);
    assert multiset(r) == multiset(items);
    assert |multiset(r)| == |r| && |multiset(items)| == |items|;
    assert forall x :: x in r <==> x in multiset(r);
    r
  }

  /** Sorted by the comparator: no purchased item precedes an unpurchased one. */
  ghost predicate Grouped(r: seq<ShoppingItem>) {
    forall i, j :: 0 <= i < j < |r| ==> Compare(r[i], r[j]) <= 0
  }

  lemma SortedItemsGrouped(items: seq<ShoppingItem>)
    ensures Grouped(SortedItems(items))
  {
    var a := WithStatus(items, false);
    var b := WithStatus(items, true);
    assert forall i :: 0 <= i < |a| ==> a[i] in a;
    assert forall i :: 0 <= i < |b| ==> b[i] in b;
  }

  /** The display order is a permutation of the items. */
  lemma SortedItemsPermutation(items: seq<ShoppingItem>)
    ensures multiset(SortedItems(items)) == multiset(items)
  {
    WithStatusSplit(items);
  }

  /** Within each status the original relative order is kept. */
  lemma {:induction false} SortedItemsStable(items: seq<ShoppingItem>)
    ensures WithStatus(SortedItems(items), false) == WithStatus(items, false)
    ensures WithStatus(SortedItems(items), true) == WithStatus(items, true)
  {
    var a := WithStatus(items, false);
    var b := WithStatus(items, true);
    WithStatusAppend(a, b, false);
    WithStatusAppend(a, b, true);
    WithStatusAll(a, false);
    WithStatusNone(b, false);
    WithStatusNone(a, true);
    WithStatusAll(b, true);
  }

  /**
   * The display order is the only order a stable sort by the comparator can
   * produce: any grouped sequence that keeps each status's original order is it.
   */
  lemma SortedItemsUnique(items: seq<ShoppingItem>, r: seq<ShoppingItem>)
    requires Grouped(r)
    requires WithStatus(r, false) == WithStatus(items, false)
    requires WithStatus(r, true) == WithStatus(items, true)
    ensures r == SortedItems(items)
  {
    GroupedSplits(r);
  }

  /* ---------- helpers about WithStatus ---------- */

  lemma {:induction false} WithStatusAppend(a: seq<ShoppingItem>, b: seq<ShoppingItem>, purchased: bool)
    ensures WithStatus(a + b, purchased) == WithStatus(a, purchased) + WithStatus(b, purchased)
  {
    if |a| > 0 {
      WithStatusAppend(a[1..], b, purchased);
      assert (a + b)[1..] == a[1..] + b;
    } else {
      assert a + b == b;
    }
  }

  /** Every item is in exactly one of the two status groups. */
  lemma {:induction false} WithStatusSplit(items: seq<ShoppingItem>)
    ensures multiset(WithStatus(items, false)) + multiset(WithStatus(items, true)) == multiset(items)
  {
    if |items| > 0 {
      WithStatusSplit(items[1..]);
      assert items == [items[0]] + items[1..];
    }
  }

  lemma {:induction false} WithStatusAll(a: seq<ShoppingItem>, purchased: bool)
    requires forall i :: 0 <= i < |a| ==> a[i].isPurchased == purchased
    ensures WithStatus(a, purchased) == a
  {
    if |a| > 0 {
      WithStatusAll(a[1..], purchased);
    }
  }

  lemma {:induction false} WithStatusNone(a: seq<ShoppingItem>, purchased: bool)
    requires forall i :: 0 <= i < |a| ==> a[i].isPurchased != purchased
    ensures WithStatus(a, purchased) == []
  {
    if |a| > 0 {
      WithStatusNone(a[1..], purchased);
    }
  }

  /** A grouped sequence is its unpurchased part followed by its purchased part. */
  lemma {:induction false} GroupedSplits(r: seq<ShoppingItem>)
    requires Grouped(r)
    ensures r == WithStatus(r, false) + WithStatus(r, true)
  {
    if |r| > 0 {
      assert Grouped(r[1..]) by {
        forall i, j | 0 <= i < j < |r[1..]|
          ensures Compare(r[1..][i], r[1..][j]) <= 0
        {
          assert Compare(r[i + 1], r[j + 1]) <= 0;
        }
      }
      GroupedSplits(r[1..]);
      if r[0].isPurchased {
        assert forall i :: 0 <= i < |r| ==> r[i].isPurchased by {
          forall i | 0 <= i < |r| ensures r[i].isPurchased {
            if i > 0 {
              assert Compare(r[0], r[i]) <= 0;
            }
          }
        }
        WithStatusNone(r, false);
        WithStatusAll(r, true);
      } else {
        ConsAppend(r, WithStatus(r[1..], false), WithStatus(r[1..], true));
      }
    }
  }

  lemma ConsAppend<T>(r: seq<T>, a: seq<T>, b: seq<T>)
    requires |r| > 0
    requires r[1..] == a + b
    ensures r == ([r[0]] + a) + b
  {
    assert r == [r[0]] + r[1..];
  }
}
