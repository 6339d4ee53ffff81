/**
 * CategoryService: listing, owner-scoped item lookup, and create, rename and
 * soft-delete of categories. Every operation takes the store and returns
 * the new store (for writes) or a value (for reads); failures are `Err`.
 */
module CategoryService {
  import opened Wrappers
  import opened Model
  import opened CategoryRepository
  import opened Sorting
  import opened Errors

  /** A user may own at most this many active categories. */
  const CategoryLimit: nat := 50

  /** What `getAllCategories` returns per category: its name and items. */
  type CategoryDto = (string, seq<Item>)

  function CategoryNameKey(c: Category): string { c.name }
  function DtoNameKey(d: CategoryDto): string { d.0 }
  function ToDto(c: Category): CategoryDto { (c.name, c.items) }

  // -----------------------------------------------------------------------
  // getAllCategories

  /** One entry per category of `u` or of the system user, deleted ones
      included, sorted by name (stably, so same-named entries keep store
      order). */
  function GetAllCategories(store: Store, sys: int, u: int): (r: seq<CategoryDto>)
    ensures |r| == |FindByUserIdIn(store, {u, sys})|
    ensures multiset(r) == multiset(MapSeq(FindByUserIdIn(store, {u, sys}), ToDto))
    ensures forall i, j :: 0 <= i < j < |r| ==> LexLe(r[i].0, r[j].0)
    ensures forall n :: WithKey(r, DtoNameKey, n) ==
                        WithKey(MapSeq(FindByUserIdIn(store, {u, sys}), ToDto), DtoNameKey, n)
  {
    var visible := FindByUserIdIn(store, {u, sys});
    LexLeIsTotal();
    MapSortBy(visible, ToDto, CategoryNameKey, DtoNameKey, LexLe);
    MapSeq(SortBy(visible, CategoryNameKey, LexLe), ToDto)
  }

  /** Every category of `u` or of the system user shows up with exactly its
      name and items. */
  lemma GetAllCategoriesListsVisible(store: Store, sys: int, u: int, k: nat)
    requires k < |store| && store[k].userId in {u, sys}
    ensures (store[k].name, store[k].items) in GetAllCategories(store, sys, u)
  {
    var visible := FindByUserIdIn(store, {u, sys});
    var dtos := MapSeq(visible, ToDto);
    var r := GetAllCategories(store, sys, u);
    assert multiset(store)[store[k]] > 0;
    assert multiset(visible)[store[k]] > 0;
    var i :| 0 <= i < |visible| && visible[i] == store[k];
    assert dtos[i] == ToDto(store[k]);
    assert multiset(dtos)[ToDto(store[k])] > 0;
    assert multiset(r)[ToDto(store[k])] > 0;
  }

  /** Where in `findByUserIdIn` an entry of the listing comes from. */
  lemma ListingEntrySource(store: Store, sys: int, u: int, d: CategoryDto) returns (i: nat)
    requires d in GetAllCategories(store, sys, u)
    ensures i < |FindByUserIdIn(store, {u, sys})| && d == ToDto(FindByUserIdIn(store, {u, sys})[i])
  {
    var dtos := MapSeq(FindByUserIdIn(store, {u, sys}), ToDto);
    assert d in multiset(GetAllCategories(store, sys, u));
    assert d in multiset(dtos);
    i := MapSeqSource(FindByUserIdIn(store, {u, sys}), ToDto, d);
  }

  /** Every entry of the listing comes from a category of `u` or of the
      system user. */
  lemma GetAllCategoriesOnlyVisible(store: Store, sys: int, u: int, d: CategoryDto)
    requires d in GetAllCategories(store, sys, u)
    ensures exists k :: 0 <= k < |store| && store[k].userId in {u, sys} && d == (store[k].name, store[k].items)
  {
    var i := ListingEntrySource(store, sys, u, d);
    var k := FindByUserIdInSource(store, {u, sys}, i);
    assert d == (store[k].name, store[k].items);
  }

  // -----------------------------------------------------------------------
  // getCategoryItems

  /** The items of category `id`, only when `u` itself owns it. */
  function GetCategoryItems(store: Store, u: int, id: nat): (r: Option<seq<Item>>)
    ensures r.Some? <==> exists k :: 0 <= k < |store| && store[k].userId == u && store[k].id == id
    ensures r.Some? ==> exists k :: 0 <= k < |store| && store[k].userId == u && store[k].id == id
                                     && r.value == store[k].items
  {
    match FindByUserIdAndId(store, u, id)
    case Some(c) => Some(c.items)
    case None => None
  }

  /** A system category is never returned to another user. */
  lemma SystemCategoryItemsHidden(store: Store, sys: int, u: int, k: nat)
    requires UniqueCategoryIds(store)
    requires k < |store| && store[k].userId == sys && u != sys
    ensures GetCategoryItems(store, u, store[k].id) == None
  {
    FindByUserIdAndIdOwnerScoped(store, u, k);
  }

  // -----------------------------------------------------------------------
  // createCategory

  /** The row a revival produces: active again, with its items dropped. */
  function Revived(c: Category): (r: Category)
    ensures r.id == c.id && r.name == c.name && r.userId == c.userId
    ensures !r.deletedFlag && r.items == []
  {
    c.(deletedFlag := false, items := [])
  }

  /** Refuses when `u` already has 50 active categories; revives `u`'s
      soft-deleted category of that name in place; refuses when `u`'s
      category of that name is active; otherwise appends a new category.
      Returns the new store and the saved category. */
  function CreateCategory(store: Store, u: int, name: string): (r: Result<(Store, Category), Error>)
    ensures CountByUserIdAndDeletedFlagFalse(store, u) >= CategoryLimit ==>
      r == Err(CategoryLimitReached)
    ensures CountByUserIdAndDeletedFlagFalse(store, u) < CategoryLimit ==>
      match IndexByUserIdAndName(store, u, name)
      case None =>
        && r.Ok?
        && r.value.0 == store + [r.value.1]
        && r.value.1.name == name && r.value.1.userId == u
        && !r.value.1.deletedFlag && r.value.1.items == []
        && (forall k :: 0 <= k < |store| ==> store[k].id != r.value.1.id)
      case Some(k) =>
        if store[k].deletedFlag then
          && r.Ok?
          && r.value.1 == Revived(store[k])
          && r.value.0 == store[k := r.value.1]
        else r == Err(CategoryNameExists)
    ensures r.Err? ==> r.error == CategoryLimitReached || r.error == CategoryNameExists
  {
    if CountByUserIdAndDeletedFlagFalse(store, u) >= CategoryLimit then
      Err(CategoryLimitReached)
    else if ExistsByUserIdAndName(store, u, name) then
      var k := IndexByUserIdAndName(store, u, name).value;
      if store[k].deletedFlag then
        var c := Revived(store[k]);
        Ok((store[k := c], c))
      else
        Err(CategoryNameExists)
    else
      var c := Category(FreshCategoryId(store), name, u, false, []);
      Ok((store + [c], c))
  }

  /** A name clash is only ever with `u`'s own active category: a system
      category of the same name does not block. */
  lemma CreateCategoryConflictIsOwn(store: Store, u: int, name: string)
    requires CreateCategory(store, u, name) == Err(CategoryNameExists)
    ensures exists k :: 0 <= k < |store| && store[k].userId == u && store[k].name == name
                        && !store[k].deletedFlag
  {
    var k := IndexByUserIdAndName(store, u, name).value;
    assert store[k].userId == u && store[k].name == name && !store[k].deletedFlag;
  }

  /** A successful create raises `u`'s active count by exactly one and
      leaves every other owner's count alone. */
  lemma {:induction false} CreateCategoryCounts(store: Store, u: int, name: string, v: int)
    requires CreateCategory(store, u, name).Ok?
    ensures CountByUserIdAndDeletedFlagFalse(CreateCategory(store, u, name).value.0, v) ==
            CountByUserIdAndDeletedFlagFalse(store, v) + (if v == u then 1 else 0)
  {
    var r := CreateCategory(store, u, name);
    var c := r.value.1;
    var q := Criteria({v}, None, None, true);
    assert Matches(c, q) <==> v == u;
    match IndexByUserIdAndName(store, u, name)
    case None =>
      CountAppend(store, c, q);
    case Some(k) =>
      assert !Matches(store[k], q);
      CountUpdate(store, k, c, q);
  }

  /** Hence no create takes a user past 50 active categories. */
  lemma CreateCategoryRespectsLimit(store: Store, u: int, name: string)
    requires CreateCategory(store, u, name).Ok?
    ensures CountByUserIdAndDeletedFlagFalse(CreateCategory(store, u, name).value.0, u) <= CategoryLimit
  {
    CreateCategoryCounts(store, u, name, u);
  }

  /** Create never introduces a second row with the same owner and name. */
  lemma CreateCategoryKeepsOwnerNamesUnique(store: Store, u: int, name: string)
    requires OwnerNamesUnique(store)
    requires CreateCategory(store, u, name).Ok?
    ensures OwnerNamesUnique(CreateCategory(store, u, name).value.0)
  {
    var s' := CreateCategory(store, u, name).value.0;
    if IndexByUserIdAndName(store, u, name).None? {
      forall a, b | 0 <= a < b < |s'|
        ensures !(s'[a].userId == s'[b].userId && s'[a].name == s'[b].name)
      {
        if b == |store| {
          assert !(store[a].userId == u && store[a].name == name);
        }
      }
    }
  }

  lemma CreateCategoryPreservesWellFormed(store: Store, u: int, name: string)
    requires WellFormed(store)
    requires CreateCategory(store, u, name).Ok?
    ensures WellFormed(CreateCategory(store, u, name).value.0)
  {
    var c := CreateCategory(store, u, name).value.1;
    match IndexByUserIdAndName(store, u, name)
    case None => WellFormedAppend(store, c);
    case Some(k) => WellFormedReplace(store, k, c);
  }

  // -----------------------------------------------------------------------
  // updateCategory

  /** Renames `u`'s category `id`; nothing else about it, and no other
      category, changes. No uniqueness check is made on the new name. */
  function UpdateCategory(store: Store, u: int, id: nat, name: string): (r: Result<(Store, Category), Error>)
    ensures r.Err? <==> forall k :: 0 <= k < |store| ==> !(store[k].userId == u && store[k].id == id)
    ensures r.Err? ==> r.error == CategoryNotFound
    ensures r.Ok? ==>
      var (s', c) := r.value;
      && |s'| == |store|
      && exists k :: 0 <= k < |store| && store[k].userId == u && store[k].id == id
           && c == s'[k]
           && c.name == name
           && c.(name := store[k].name) == store[k]
           && (forall j :: 0 <= j < |store| && j != k ==> s'[j] == store[j])
  {
    match IndexByUserIdAndId(store, u, id)
    case None => Err(CategoryNotFound)
    case Some(k) =>
      var c := store[k].(name := name);
      Ok((store[k := c], c))
  }

  lemma UpdateCategoryPreservesWellFormed(store: Store, u: int, id: nat, name: string)
    requires WellFormed(store)
    requires UpdateCategory(store, u, id, name).Ok?
    ensures WellFormed(UpdateCategory(store, u, id, name).value.0)
  {
    var k := IndexByUserIdAndId(store, u, id).value;
    WellFormedReplace(store, k, store[k].(name := name));
  }

  /** A rename can create a second row with the same owner and name: the
      uniqueness enforced at create time is not re-checked here. */
  lemma UpdateCategoryMayDuplicateName()
    ensures var store := [Category(1, "Food", 7, false, []), Category(2, "Books", 7, false, [])];
      && OwnerNamesUnique(store)
      && UpdateCategory(store, 7, 2, "Food").Ok?
      && !OwnerNamesUnique(UpdateCategory(store, 7, 2, "Food").value.0)
  {
    var store := [Category(1, "Food", 7, false, []), Category(2, "Books", 7, false, [])];
    assert IndexByUserIdAndId(store, 7, 2) == Some(1);
    var s' := UpdateCategory(store, 7, 2, "Food").value.0;
    assert s'[0].userId == s'[1].userId && s'[0].name == s'[1].name;
  }

  // -----------------------------------------------------------------------
  // deleteCategory

  /** Soft-deletes `u`'s category `id` when it holds no items (deleted ones
      count); fails when it holds any; does nothing when `u` has no such
      category. */
  function DeleteCategory(store: Store, u: int, id: nat): (r: Result<Store, Error>)
    ensures (forall k :: 0 <= k < |store| ==> !(store[k].userId == u && store[k].id == id)) ==>
      r == Ok(store)
    ensures r.Err? ==> r.error == ItemsExist
    ensures forall k :: 0 <= k < |store| && store[k].userId == u && store[k].id == id
                        && (forall j :: 0 <= j < k ==> !(store[j].userId == u && store[j].id == id)) ==>
      if store[k].items == [] then r == Ok(store[k := store[k].(deletedFlag := true)])
      else r == Err(ItemsExist)
  {
    match IndexByUserIdAndId(store, u, id)
    case None => Ok(store)
    case Some(k) =>
      assert forall j :: 0 <= j < k ==> !Matches(store[j], OwnedBy(u).(id := Some(id)));
      if store[k].items == [] then Ok(store[k := store[k].(deletedFlag := true)])
      else Err(ItemsExist)
  }

  /** Deleting never removes a row: the store keeps its length, ids, owners
      and names, and only deleted flags may change. */
  lemma DeleteCategoryIsSoft(store: Store, u: int, id: nat)
    requires DeleteCategory(store, u, id).Ok?
    ensures var s' := DeleteCategory(store, u, id).value;
      && |s'| == |store|
      && forall k :: 0 <= k < |store| ==> s'[k] == store[k].(deletedFlag := s'[k].deletedFlag)
  {
  }

  lemma DeleteCategoryPreservesWellFormed(store: Store, u: int, id: nat)
    requires WellFormed(store)
    requires DeleteCategory(store, u, id).Ok?
    ensures WellFormed(DeleteCategory(store, u, id).value)
  {
    match IndexByUserIdAndId(store, u, id)
    case None =>
    case Some(k) => WellFormedReplace(store, k, store[k].(deletedFlag := true));
  }
}
