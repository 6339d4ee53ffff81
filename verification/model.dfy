/**
 * The two persistent entities, Category and Item, and the well-formedness
 * conditions a store of them keeps.
 *
 * A store is the sequence of category rows in the order the repository
 * returns them. Each category carries its items (the one-to-many
 * association); each item names its parent by category id.
 */
module Model {
  import opened Wrappers

  /** An item row. `category` is the id of the parent category (null when
      detached); `updatedAt` is null until the item is first persisted. */
  datatype Item = Item(
    id: nat,
    name: string,
    userId: int,
    category: Option<nat>,
    quantity: int,
    deletedFlag: bool,
    updatedAt: Option<int>)

  /** A category row. A null item list is represented by the empty sequence. */
  datatype Category = Category(
    id: nat,
    name: string,
    userId: int,
    deletedFlag: bool,
    items: seq<Item>)

  type Store = seq<Category>

  /** `new Item()`: every field at its Java default. */
  function NewItem(id: nat): (i: Item)
    ensures i.name == [] && i.userId == 0 && i.quantity == 0
    ensures !i.deletedFlag && i.category == None && i.updatedAt == None
  {
    Item(id, [], 0, None, 0, false, None)
  }

  /** `new Item(name)`: only the name is set. */
  function NamedItem(id: nat, name: string): (i: Item)
    ensures i.name == name
    ensures i == NewItem(id).(name := name)
  {
    Item(id, name, 0, None, 0, false, None)
  }

  /** `new Category()`: every field at its Java default. */
  function NewCategory(id: nat): (c: Category)
    ensures c.name == [] && c.userId == 0 && !c.deletedFlag && c.items == []
  {
    Category(id, [], 0, false, [])
  }

  /** `new Category(name)`: only the name is set. */
  function NamedCategory(id: nat, name: string): (c: Category)
    ensures c.name == name
    ensures c == NewCategory(id).(name := name)
  {
    Category(id, name, 0, false, [])
  }

  /** The `@PrePersist`/`@PreUpdate` hook: stamps the current time and
      touches nothing else. */
  function UpdateTimestamp(i: Item, now: int): (r: Item)
    ensures r.updatedAt == Some(now)
    ensures r.(updatedAt := i.updatedAt) == i
  {
    i.(updatedAt := Some(now))
  }

  predicate Active(i: Item) { !i.deletedFlag }

  /** Index of the first category with the given id, if any. */
  function IndexOfId(store: Store, id: nat): (r: Option<nat>)
    ensures r.Some? ==> r.value < |store| && store[r.value].id == id
    ensures r.Some? ==> forall k :: 0 <= k < r.value ==> store[k].id != id
    ensures r.None? <==> forall k :: 0 <= k < |store| ==> store[k].id != id
  {
    if |store| == 0 then None
    else if store[0].id == id then Some(0)
    else match IndexOfId(store[1..], id)
      case None => None
      case Some(k) => Some(k + 1)
  }

  /** `getCategoryName`: the parent category's name, or null when the item
      has no category. A dangling category id also gives null. */
  function CategoryName(store: Store, i: Item): (r: Option<string>)
    ensures i.category.None? ==> r.None?
    ensures r.Some? ==> exists k :: 0 <= k < |store| && Some(store[k].id) == i.category
                                  && store[k].name == r.value
  {
    match i.category
    case None => None
    case Some(cid) =>
      match IndexOfId(store, cid)
      case None => None
      case Some(k) => Some(store[k].name)
  }

  // ---------------------------------------------------------------------
  // Store invariants

  ghost predicate UniqueCategoryIds(store: Store) {
    forall a, b :: 0 <= a < b < |store| ==> store[a].id != store[b].id
  }

  /** Every item in `c.items` refers back to `c` (the `mappedBy` side). */
  ghost predicate ItemsReferTo(items: seq<Item>, id: nat) {
    forall j :: 0 <= j < |items| ==> items[j].category == Some(id)
  }

  /** Every stored item has been persisted, hence timestamped. */
  ghost predicate Timestamped(items: seq<Item>) {
    forall j :: 0 <= j < |items| ==> items[j].updatedAt.Some?
  }

  /** Within one category, at most one active item has a given name. */
  ghost predicate ActiveNamesUnique(items: seq<Item>) {
    forall a, b :: 0 <= a < b < |items| && Active(items[a]) && Active(items[b]) ==>
      items[a].name != items[b].name
  }

  /** No owner has two rows with the same name. */
  ghost predicate OwnerNamesUnique(store: Store) {
    forall a, b :: 0 <= a < b < |store| ==>
      !(store[a].userId == store[b].userId && store[a].name == store[b].name)
  }

  ghost predicate RowWellFormed(c: Category) {
    ItemsReferTo(c.items, c.id) && Timestamped(c.items) && ActiveNamesUnique(c.items)
  }

  ghost predicate WellFormed(store: Store) {
    && UniqueCategoryIds(store)
    && (forall k :: 0 <= k < |store| ==> RowWellFormed(store[k]))
  }

  /** Appending a well-formed row with a fresh id keeps the store well-formed. */
  lemma WellFormedAppend(store: Store, c: Category)
    requires WellFormed(store) && RowWellFormed(c)
    requires forall k :: 0 <= k < |store| ==> store[k].id != c.id
    ensures WellFormed(store + [c])
  {
  }

  /** Replacing a row by a well-formed one with the same id keeps the store
      well-formed. */
  lemma WellFormedReplace(store: Store, k: nat, c: Category)
    requires WellFormed(store) && RowWellFormed(c)
    requires k < |store| && c.id == store[k].id
    ensures WellFormed(store[k := c])
  {
  }

  /** In a well-formed store, every item's category name is the name of the
      category that holds it. */
  lemma CategoryNameOfStoredItem(store: Store, k: nat, j: nat)
    requires WellFormed(store)
    requires k < |store| && j < |store[k].items|
    ensures CategoryName(store, store[k].items[j]) == Some(store[k].name)
  {
    var idx := IndexOfId(store, store[k].id);
    assert idx.Some?;
    assert !(idx.value < k) && !(idx.value > k);
  }

  // ---------------------------------------------------------------------
  // Fresh identifiers (stand-in for generated UUIDs)

  function MaxCategoryId(store: Store): (m: nat)
    ensures forall k :: 0 <= k < |store| ==> store[k].id <= m
  {
    if |store| == 0 then 0
    else
      var rest := MaxCategoryId(store[1..]);
      assert forall k :: 1 <= k < |store| ==> store[k] == store[1..][k - 1];
      if store[0].id > rest then store[0].id else rest
  }

  /** An id no category of the store carries. */
  function FreshCategoryId(store: Store): (id: nat)
    ensures forall k :: 0 <= k < |store| ==> store[k].id != id
  {
    MaxCategoryId(store) + 1
  }

  function MaxItemIdIn(items: seq<Item>): (m: nat)
    ensures forall j :: 0 <= j < |items| ==> items[j].id <= m
  {
    if |items| == 0 then 0
    else
      var rest := MaxItemIdIn(items[1..]);
      assert forall j :: 1 <= j < |items| ==> items[j] == items[1..][j - 1];
      if items[0].id > rest then items[0].id else rest
  }

  function MaxItemId(store: Store): (m: nat)
    ensures forall k, j :: 0 <= k < |store| && 0 <= j < |store[k].items| ==>
      store[k].items[j].id <= m
  {
    if |store| == 0 then 0
    else
      var rest := MaxItemId(store[1..]);
      assert forall k :: 1 <= k < |store| ==> store[k] == store[1..][k - 1];
      var here := MaxItemIdIn(store[0].items);
      if here > rest then here else rest
  }

  /** An id no item of the store carries. */
  function FreshItemId(store: Store): (id: nat)
    ensures forall k, j :: 0 <= k < |store| && 0 <= j < |store[k].items| ==>
      store[k].items[j].id != id
  {
    MaxItemId(store) + 1
  }
}
