/**
 * ItemService: creating an item inside a category visible to the user, and
 * listing a category's active items newest first.
 */
module ItemService {
  import opened Wrappers
  import opened Model
  import opened CategoryRepository
  import opened Sorting
  import opened Errors

  /** What `getItems` returns per item: its name and quantity. */
  type ItemDto = (string, int)

  function ToItemDto(i: Item): ItemDto { (i.name, i.quantity) }

  /** The sort key `Item::getUpdatedAt`; every item it is applied to carries
      a timestamp (see `GetItems`). */
  function Stamp(i: Item): (t: int)
    ensures i.updatedAt.Some? ==> t == i.updatedAt.value
  {
    match i.updatedAt
    case Some(t) => t
    case None => 0
  }

  /** `Comparator.comparing(Item::getUpdatedAt).reversed()`: newer first. */
  predicate NewerOrSame(a: int, b: int) { a >= b }

  lemma NewerOrSameIsTotal()
    ensures Total(NewerOrSame)
  {
  }

  // -----------------------------------------------------------------------
  // createItem

  /** Position of the category `createItem` resolves: the first row of `u`
      or the system user with that name, deleted or not. */
  function ResolveForWrite(store: Store, sys: int, u: int, categoryName: string): (r: Option<nat>)
    ensures r.Some? ==> (r.value < |store| && store[r.value].userId in {u, sys}
                         && store[r.value].name == categoryName)
    ensures r.None? <==> forall k :: 0 <= k < |store| ==> !(store[k].userId in {u, sys} && store[k].name == categoryName)
  {
    FirstWhere(store, Criteria({u, sys}, Some(categoryName), None, false))
  }

  /** That row is the head of `findByUserIdInAndName({u, sys}, categoryName)`. */
  lemma ResolveForWriteIsHead(store: Store, sys: int, u: int, categoryName: string)
    ensures ResolveForWrite(store, sys, u, categoryName).None? <==>
            FindByUserIdInAndName(store, {u, sys}, categoryName) == []
    ensures ResolveForWrite(store, sys, u, categoryName).Some? ==>
            store[ResolveForWrite(store, sys, u, categoryName).value] ==
            FindByUserIdInAndName(store, {u, sys}, categoryName)[0]
  {
    WhereHead(store, Criteria({u, sys}, Some(categoryName), None, false));
  }

  /** Whether the items hold an active item of that name. */
  predicate HasActiveNamed(items: seq<Item>, name: string) {
    exists j :: 0 <= j < |items| && items[j].name == name && Active(items[j])
  }

  /** The duplicate check finds an item iff an item of that name survives
      the `!isDeletedFlag()` filter. */
  lemma HasActiveNamedIffListed(items: seq<Item>, name: string)
    ensures HasActiveNamed(items, name) <==> exists it :: it in ActiveItems(items) && it.name == name
  {
    ActiveItemsFilter(items);
    if HasActiveNamed(items, name) {
      var j :| 0 <= j < |items| && items[j].name == name && Active(items[j]);
      assert items[j] in multiset(items);
      assert items[j] in multiset(ActiveItems(items));
    } else {
      forall it | it in ActiveItems(items)
        ensures it.name != name
      {
        assert it in multiset(ActiveItems(items));
        assert it in multiset(items);
      }
    }
  }

  /** Appends a new active item, stamped `now`, to the resolved category,
      unless that category already holds an active item of the same name.
      Soft-deleted items of that name neither block nor get revived. */
  function CreateItem(store: Store, sys: int, u: int, name: string, quantity: int,
                      categoryName: string, now: int): (r: Result<Store, Error>)
    ensures ResolveForWrite(store, sys, u, categoryName).None? ==> r == Err(CategoryNotFound)
    ensures ResolveForWrite(store, sys, u, categoryName).Some? ==>
      var k := ResolveForWrite(store, sys, u, categoryName).value;
      var old_items := store[k].items;
      if HasActiveNamed(old_items, name) then r == Err(ItemNameExists(name))
      else
        && r.Ok?
        && |r.value| == |store|
        && (forall j :: 0 <= j < |store| && j != k ==> r.value[j] == store[j])
        && r.value[k].(items := old_items) == store[k]
        && |r.value[k].items| == |old_items| + 1
        && r.value[k].items[..|old_items|] == old_items
        && var it := r.value[k].items[|old_items|];
           && it.name == name && it.quantity == quantity && it.userId == u
           && it.category == Some(store[k].id) && Active(it) && it.updatedAt == Some(now)
           && forall a, b :: 0 <= a < |store| && 0 <= b < |store[a].items| ==> store[a].items[b].id != it.id
  {
    var categoryList := FindByUserIdInAndName(store, {u, sys}, categoryName);
    ResolveForWriteIsHead(store, sys, u, categoryName);
    if categoryList == [] then Err(CategoryNotFound)
    else
      var k := ResolveForWrite(store, sys, u, categoryName).value;
      var cate := categoryList[0];
      if HasActiveNamed(cate.items, name) then Err(ItemNameExists(name))
      else
        var item := UpdateTimestamp(NewItem(FreshItemId(store)).(
          name := name, userId := u, category := Some(cate.id), quantity := quantity), now);
        var saved := cate.(items := cate.items + [item]);
        Ok(store[k := saved])
  }

  /** The items after a successful create are the old ones plus the new. */
  lemma CreateItemAppends(store: Store, sys: int, u: int, name: string, quantity: int,
                          categoryName: string, now: int)
    requires CreateItem(store, sys, u, name, quantity, categoryName, now).Ok?
    ensures var k := ResolveForWrite(store, sys, u, categoryName).value;
            var s' := CreateItem(store, sys, u, name, quantity, categoryName, now).value;
            s'[k].items == store[k].items + [s'[k].items[|store[k].items|]]
  {
    var k := ResolveForWrite(store, sys, u, categoryName).value;
    var s' := CreateItem(store, sys, u, name, quantity, categoryName, now).value;
    assert s'[k].items == s'[k].items[..|store[k].items|] + [s'[k].items[|store[k].items|]];
  }

  /** `createItem` keeps "at most one active item per name" in every
      category. */
  lemma CreateItemKeepsActiveNamesUnique(store: Store, sys: int, u: int, name: string, quantity: int,
                                         categoryName: string, now: int)
    requires forall k :: 0 <= k < |store| ==> ActiveNamesUnique(store[k].items)
    requires CreateItem(store, sys, u, name, quantity, categoryName, now).Ok?
    ensures var s' := CreateItem(store, sys, u, name, quantity, categoryName, now).value;
            forall k :: 0 <= k < |s'| ==> ActiveNamesUnique(s'[k].items)
  {
    var k := ResolveForWrite(store, sys, u, categoryName).value;
    var s' := CreateItem(store, sys, u, name, quantity, categoryName, now).value;
    var n := |store[k].items|;
    var items := s'[k].items;
    forall a, b | 0 <= a < b < |items| && Active(items[a]) && Active(items[b])
      ensures items[a].name != items[b].name
    {
      if b == n {
        assert items[a] == store[k].items[a];
        assert !HasActiveNamed(store[k].items, name);
      } else {
        assert items[a] == store[k].items[a] && items[b] == store[k].items[b];
      }
    }
  }

  /** `createItem` keeps the store well-formed: the new item points back to
      its category, carries a timestamp, and clashes with no active name. */
  lemma CreateItemPreservesWellFormed(store: Store, sys: int, u: int, name: string, quantity: int,
                                      categoryName: string, now: int)
    requires WellFormed(store)
    requires CreateItem(store, sys, u, name, quantity, categoryName, now).Ok?
    ensures WellFormed(CreateItem(store, sys, u, name, quantity, categoryName, now).value)
  {
    var k := ResolveForWrite(store, sys, u, categoryName).value;
    var s' := CreateItem(store, sys, u, name, quantity, categoryName, now).value;
    CreateItemKeepsActiveNamesUnique(store, sys, u, name, quantity, categoryName, now);
    assert s' == store[k := s'[k]];
    WellFormedReplace(store, k, s'[k]);
  }

  /** A soft-deleted item of the requested name does not block creation: a
      second row is added and the deleted one stays where it was. */
  lemma DeletedTwinDoesNotBlock(store: Store, sys: int, u: int, name: string, quantity: int,
                                categoryName: string, now: int, j: nat)
    requires ResolveForWrite(store, sys, u, categoryName).Some?
    requires var k := ResolveForWrite(store, sys, u, categoryName).value;
             && j < |store[k].items| && store[k].items[j].name == name
             && forall i :: 0 <= i < |store[k].items| && store[k].items[i].name == name ==>
                  store[k].items[i].deletedFlag
    ensures CreateItem(store, sys, u, name, quantity, categoryName, now).Ok?
    ensures var k := ResolveForWrite(store, sys, u, categoryName).value;
            var s' := CreateItem(store, sys, u, name, quantity, categoryName, now).value;
            && s'[k].items[j] == store[k].items[j]
            && |s'[k].items| == |store[k].items| + 1
  {
    var k := ResolveForWrite(store, sys, u, categoryName).value;
    var s' := CreateItem(store, sys, u, name, quantity, categoryName, now).value;
    assert s'[k].items[..|store[k].items|][j] == s'[k].items[j];
  }

  // -----------------------------------------------------------------------
  // getItems

  /** `filter(category -> !category.isDeletedFlag())` on categories. */
  function ActiveCategories(cs: seq<Category>): (r: seq<Category>)
    ensures |r| <= |cs|
    ensures forall i :: 0 <= i < |r| ==> !r[i].deletedFlag
  {
    if |cs| == 0 then []
    else (if cs[0].deletedFlag then [] else [cs[0]]) + ActiveCategories(cs[1..])
  }

  /** The filter keeps every non-deleted category, as often as it occurs,
      and drops every deleted one. */
  lemma {:induction false} ActiveCategoriesFilter(cs: seq<Category>)
    ensures forall c :: multiset(ActiveCategories(cs))[c] == if c.deletedFlag then 0 else multiset(cs)[c]
  {
    if |cs| > 0 {
      var h := if cs[0].deletedFlag then [] else [cs[0]];
      assert cs == [cs[0]] + cs[1..];
      assert ActiveCategories(cs) == h + ActiveCategories(cs[1..]);
      ActiveCategoriesFilter(cs[1..]);
    }
  }

  lemma {:induction false} ActiveCategoriesAppend(a: seq<Category>, b: seq<Category>)
    ensures ActiveCategories(a + b) == ActiveCategories(a) + ActiveCategories(b)
  {
    if |a| > 0 {
      var h := if a[0].deletedFlag then [] else [a[0]];
      assert (a + b)[0] == a[0];
      assert (a + b)[1..] == a[1..] + b;
      assert ActiveCategories(a + b) == h + ActiveCategories(a[1..] + b);
      assert ActiveCategories(a) == h + ActiveCategories(a[1..]);
      ActiveCategoriesAppend(a[1..], b);
    } else {
      assert a + b == b;
    }
  }

  /** Filtering a list query by the deleted flag is the query with the
      `DeletedFlagFalse` condition added. */
  lemma {:induction false} ActiveCategoriesOfWhere(store: Store, q: Criteria)
    requires !q.activeOnly
    ensures ActiveCategories(Where(store, q)) == Where(store, q.(activeOnly := true))
  {
    if |store| > 0 {
      var q' := q.(activeOnly := true);
      var h := if Matches(store[0], q) then [store[0]] else [];
      var h' := if Matches(store[0], q') then [store[0]] else [];
      assert Where(store, q) == h + Where(store[1..], q);
      assert Where(store, q') == h' + Where(store[1..], q');
      ActiveCategoriesAppend(h, Where(store[1..], q));
      ActiveCategoriesOfWhere(store[1..], q);
      assert ActiveCategories(h) == h' by {
        if h != [] {
          assert ActiveCategories(h) == (if h[0].deletedFlag then [] else [h[0]]) + ActiveCategories(h[1..]);
          assert h[1..] == [];
        }
      }
    }
  }

  /** Position of the category `getItems` resolves: the first active row of
      `u` or the system user with that name. */
  function ResolveForRead(store: Store, sys: int, u: int, categoryName: string): (r: Option<nat>)
    ensures r.Some? ==> (r.value < |store| && store[r.value].userId in {u, sys}
                         && store[r.value].name == categoryName && !store[r.value].deletedFlag)
    ensures r.None? <==> forall k :: 0 <= k < |store| ==>
      !(store[k].userId in {u, sys} && store[k].name == categoryName && !store[k].deletedFlag)
  {
    FirstWhere(store, Criteria({u, sys}, Some(categoryName), None, true))
  }

  /** That row is the head of `findByUserIdInAndName({u, sys}, categoryName)`
      once deleted categories are filtered out. */
  lemma ResolveForReadIsHead(store: Store, sys: int, u: int, categoryName: string)
    ensures ResolveForRead(store, sys, u, categoryName).None? <==>
            ActiveCategories(FindByUserIdInAndName(store, {u, sys}, categoryName)) == []
    ensures ResolveForRead(store, sys, u, categoryName).Some? ==>
            store[ResolveForRead(store, sys, u, categoryName).value] ==
            ActiveCategories(FindByUserIdInAndName(store, {u, sys}, categoryName))[0]
  {
    var q := Criteria({u, sys}, Some(categoryName), None, false);
    ActiveCategoriesOfWhere(store, q);
    WhereHead(store, q.(activeOnly := true));
  }

  /** `filter(item -> !item.isDeletedFlag())`. */
  function ActiveItems(items: seq<Item>): (r: seq<Item>)
    ensures forall i :: 0 <= i < |r| ==> Active(r[i])
  {
    if |items| == 0 then []
    else (if Active(items[0]) then [items[0]] else []) + ActiveItems(items[1..])
  }

  /** The filter keeps every active item, as often as it occurs, and drops
      every deleted one. */
  lemma {:induction false} ActiveItemsFilter(items: seq<Item>)
    ensures forall it :: multiset(ActiveItems(items))[it] == if Active(it) then multiset(items)[it] else 0
  {
    if |items| > 0 {
      var h := if Active(items[0]) then [items[0]] else [];
      assert items == [items[0]] + items[1..];
      assert ActiveItems(items) == h + ActiveItems(items[1..]);
      ActiveItemsFilter(items[1..]);
    }
  }

  /** The filter keeps list order: filtering a concatenation concatenates
      the filtered parts. */
  lemma {:induction false} ActiveItemsAppend(a: seq<Item>, b: seq<Item>)
    ensures ActiveItems(a + b) == ActiveItems(a) + ActiveItems(b)
  {
    if |a| > 0 {
      var h := if Active(a[0]) then [a[0]] else [];
      assert (a + b)[0] == a[0];
      assert (a + b)[1..] == a[1..] + b;
      assert ActiveItems(a + b) == h + ActiveItems(a[1..] + b);
      assert ActiveItems(a) == h + ActiveItems(a[1..]);
      ActiveItemsAppend(a[1..], b);
    } else {
      assert a + b == b;
    }
  }

  /** The active items, newest first; items stamped alike keep list order. */
  function NewestFirst(items: seq<Item>): (r: seq<Item>)
    ensures multiset(r) == multiset(ActiveItems(items))
    ensures forall i :: 0 <= i < |r| ==> Active(r[i])
    ensures forall i, j :: 0 <= i < j < |r| ==> Stamp(r[i]) >= Stamp(r[j])
    ensures forall t :: WithKey(r, Stamp, t) == WithKey(ActiveItems(items), Stamp, t)
  {
    NewerOrSameIsTotal();
    var r := SortBy(ActiveItems(items), Stamp, NewerOrSame);
    forall i | 0 <= i < |r|
      ensures Active(r[i])
    {
      assert r[i] in multiset(ActiveItems(items));
    }
    r
  }

  /** Every item of an active visible category of that name has been
      persisted, so the timestamp comparator never meets a null. */
  ghost predicate ReadableStamps(store: Store, sys: int, u: int, categoryName: string) {
    forall k :: (0 <= k < |store| && store[k].userId in {u, sys} && store[k].name == categoryName
                 && !store[k].deletedFlag) ==> Timestamped(store[k].items)
  }

  /** The active items of the first active visible category named
      `categoryName`, newest first, as (name, quantity) pairs; fails when no
      such category exists or it has no active item. */
  function GetItems(store: Store, sys: int, u: int, categoryName: string): (r: Result<seq<ItemDto>, Error>)
    requires ReadableStamps(store, sys, u, categoryName)
    ensures ResolveForRead(store, sys, u, categoryName).None? ==> r == Err(CategoryNotFound)
    ensures ResolveForRead(store, sys, u, categoryName).Some? ==>
      var items := store[ResolveForRead(store, sys, u, categoryName).value].items;
      if ActiveItems(items) == [] then r == Err(ItemsNotRegistered)
      else r == Ok(MapSeq(NewestFirst(items), ToItemDto))
  {
    var live := ActiveCategories(FindByUserIdInAndName(store, {u, sys}, categoryName));
    ResolveForReadIsHead(store, sys, u, categoryName);
    if live == [] then Err(CategoryNotFound)
    else
      var category := live[0];
      var dtos := MapSeq(NewestFirst(category.items), ToItemDto);
      if dtos == [] then
        assert |multiset(ActiveItems(category.items))| == 0;
        Err(ItemsNotRegistered)
      else
        assert |ActiveItems(category.items)| != 0;
        Ok(dtos)
  }

  /** Every pair `getItems` returns is the name and quantity of an active
      item of the resolved category. */
  lemma GetItemsOnlyActive(store: Store, sys: int, u: int, categoryName: string, e: ItemDto)
    requires ReadableStamps(store, sys, u, categoryName)
    requires GetItems(store, sys, u, categoryName).Ok?
    requires e in GetItems(store, sys, u, categoryName).value
    ensures var items := store[ResolveForRead(store, sys, u, categoryName).value].items;
            exists j :: 0 <= j < |items| && Active(items[j]) && e == ToItemDto(items[j])
  {
    var items := store[ResolveForRead(store, sys, u, categoryName).value].items;
    var sorted := NewestFirst(items);
    var i := MapSeqSource(sorted, ToItemDto, e);
    var j := ActiveItemSource(items, sorted[i]);
    assert e == ToItemDto(items[j]);
  }

  /** Every active item of the resolved category is listed. */
  lemma GetItemsListsEveryActive(store: Store, sys: int, u: int, categoryName: string, j: nat)
    requires ReadableStamps(store, sys, u, categoryName)
    requires GetItems(store, sys, u, categoryName).Ok?
    requires var items := store[ResolveForRead(store, sys, u, categoryName).value].items;
             j < |items| && Active(items[j])
    ensures var items := store[ResolveForRead(store, sys, u, categoryName).value].items;
            ToItemDto(items[j]) in GetItems(store, sys, u, categoryName).value
  {
    var items := store[ResolveForRead(store, sys, u, categoryName).value].items;
    var i := SortedPosition(items, j);
    assert MapSeq(NewestFirst(items), ToItemDto)[i] == ToItemDto(items[j]);
  }

  /** Where an active item lands in the sorted list. */
  lemma SortedPosition(items: seq<Item>, j: nat) returns (i: nat)
    requires j < |items| && Active(items[j])
    ensures i < |NewestFirst(items)| && NewestFirst(items)[i] == items[j]
  {
    var sorted := NewestFirst(items);
    ActiveItemsFilter(items);
    assert multiset(items)[items[j]] > 0;
    assert multiset(sorted)[items[j]] > 0;
    i :| 0 <= i < |sorted| && sorted[i] == items[j];
  }

  /** Where in `items` an element of the sorted active list comes from. */
  lemma ActiveItemSource(items: seq<Item>, it: Item) returns (j: nat)
    requires it in NewestFirst(items)
    ensures j < |items| && items[j] == it && Active(it)
  {
    assert multiset(NewestFirst(items))[it] > 0;
    ActiveItemsFilter(items);
    assert multiset(items)[it] > 0;
    j :| 0 <= j < |items| && items[j] == it;
  }

  /** `createItem` writes into a soft-deleted category that `getItems`
      refuses to read: when every visible category of that name is deleted,
      the create succeeds and a following read still finds no category. */
  lemma DeletedCategoryWritableNotReadable(store: Store, sys: int, u: int, name: string, quantity: int,
                                           categoryName: string, now: int)
    requires ResolveForWrite(store, sys, u, categoryName).Some?
    requires !HasActiveNamed(store[ResolveForWrite(store, sys, u, categoryName).value].items, name)
    requires ResolveForRead(store, sys, u, categoryName).None?
    ensures CreateItem(store, sys, u, name, quantity, categoryName, now).Ok?
    ensures var s' := CreateItem(store, sys, u, name, quantity, categoryName, now).value;
            && ReadableStamps(s', sys, u, categoryName)
            && GetItems(s', sys, u, categoryName) == Err(CategoryNotFound)
  {
    var k := ResolveForWrite(store, sys, u, categoryName).value;
    var s' := CreateItem(store, sys, u, name, quantity, categoryName, now).value;
    assert store[k].deletedFlag;
    forall j | 0 <= j < |s'|
      ensures !(s'[j].userId in {u, sys} && s'[j].name == categoryName && !s'[j].deletedFlag)
    {
      if j == k {
        assert s'[k].(items := store[k].items) == store[k];
      } else {
        assert s'[j] == store[j];
      }
    }
  }
}
