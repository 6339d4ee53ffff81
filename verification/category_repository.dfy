/**
 * The derived query methods of the category repositories, as pure functions
 * over the store. A derived query is a conjunction of field conditions
 * (`Criteria`); list queries keep the store's order, single-result queries
 * take the first row that matches.
 */
module CategoryRepository {
  import opened Wrappers
  import opened Model

  /** `UserIdIn` / `UserId`, `Name`, `Id` and `DeletedFlagFalse` conditions. */
  datatype Criteria = Criteria(owners: set<int>, name: Option<string>, id: Option<nat>, activeOnly: bool)

  predicate Matches(c: Category, q: Criteria) {
    && c.userId in q.owners
    && (q.name.Some? ==> c.name == q.name.value)
    && (q.id.Some? ==> c.id == q.id.value)
    && (q.activeOnly ==> !c.deletedFlag)
  }

  /** The rows matching `q`, in store order. */
  function Where(store: Store, q: Criteria): (r: Store)
    ensures |r| <= |store|
    ensures forall c :: c in r <==> c in store && Matches(c, q)
    ensures forall c :: multiset(r)[c] == if Matches(c, q) then multiset(store)[c] else 0
  {
    if |store| == 0 then []
    else
      var r := (if Matches(store[0], q) then [store[0]] else []) + Where(store[1..], q);
      assert store == [store[0]] + store[1..];
      r
  }

  /** Index of the first row matching `q`. */
  function FirstWhere(store: Store, q: Criteria): (r: Option<nat>)
    ensures r.Some? ==> r.value < |store| && Matches(store[r.value], q)
    ensures r.Some? ==> forall k :: 0 <= k < r.value ==> !Matches(store[k], q)
    ensures r.None? <==> forall k :: 0 <= k < |store| ==> !Matches(store[k], q)
  {
    if |store| == 0 then None
    else if Matches(store[0], q) then Some(0)
    else match FirstWhere(store[1..], q)
      case None => None
      case Some(k) => Some(k + 1)
  }

  /** The head of a list query is the first matching row. */
  lemma {:induction false} WhereHead(store: Store, q: Criteria)
    ensures Where(store, q) == [] <==> FirstWhere(store, q).None?
    ensures Where(store, q) != [] ==> Where(store, q)[0] == store[FirstWhere(store, q).value]
  {
    if |store| > 0 {
      if Matches(store[0], q) {
        assert Where(store, q) == [store[0]] + Where(store[1..], q);
      } else {
        assert Where(store, q) == Where(store[1..], q);
        WhereHead(store[1..], q);
      }
    }
  }

  /** Number of rows matching `q`. */
  function Count(store: Store, q: Criteria): (n: nat)
    ensures n <= |store|
    ensures n == 0 <==> forall k :: 0 <= k < |store| ==> !Matches(store[k], q)
  {
    if |store| == 0 then 0
    else (if Matches(store[0], q) then 1 else 0) + Count(store[1..], q)
  }

  /** The count is the length of the list query. */
  lemma {:induction false} CountIsLength(store: Store, q: Criteria)
    ensures Count(store, q) == |Where(store, q)|
  {
    if |store| > 0 {
      CountIsLength(store[1..], q);
    }
  }

  lemma {:induction false} CountAppend(store: Store, c: Category, q: Criteria)
    ensures Count(store + [c], q) == Count(store, q) + (if Matches(c, q) then 1 else 0)
  {
    if |store| > 0 {
      assert (store + [c])[1..] == store[1..] + [c];
      CountAppend(store[1..], c, q);
    }
  }

  /** Replacing one row changes the count only by that row. */
  lemma {:induction false} CountUpdate(store: Store, i: nat, c: Category, q: Criteria)
    requires i < |store|
    ensures Count(store[i := c], q) ==
      Count(store, q) - (if Matches(store[i], q) then 1 else 0) + (if Matches(c, q) then 1 else 0)
  {
    if i > 0 {
      assert store[i := c][1..] == store[1..][i - 1 := c];
      CountUpdate(store[1..], i - 1, c, q);
    }
  }

  // -----------------------------------------------------------------------
  // The query methods

  function OwnedBy(u: int): Criteria { Criteria({u}, None, None, false) }

  /** `existsByUserIdAndName`: the deleted flag is not consulted. */
  function ExistsByUserIdAndName(store: Store, u: int, name: string): (b: bool)
    ensures b <==> exists k :: 0 <= k < |store| && store[k].userId == u && store[k].name == name
  {
    var r := FirstWhere(store, OwnedBy(u).(name := Some(name)));
    if r.Some? then true
    else
      assert forall k :: 0 <= k < |store| ==> !Matches(store[k], OwnedBy(u).(name := Some(name)));
      false
  }

  /** `findByUserIdIn`: every row of the given owners, deleted ones included. */
  function FindByUserIdIn(store: Store, us: set<int>): (r: Store)
    ensures forall c :: multiset(r)[c] == if c.userId in us then multiset(store)[c] else 0
    ensures forall k :: 0 <= k < |r| ==> r[k].userId in us
  {
    Where(store, Criteria(us, None, None, false))
  }

  /** The store row an entry of `findByUserIdIn` is. */
  lemma FindByUserIdInSource(store: Store, us: set<int>, i: nat) returns (k: nat)
    requires i < |FindByUserIdIn(store, us)|
    ensures k < |store| && store[k] == FindByUserIdIn(store, us)[i] && store[k].userId in us
  {
    var c := FindByUserIdIn(store, us)[i];
    assert c in FindByUserIdIn(store, us);
    assert c in store;
    k :| 0 <= k < |store| && store[k] == c;
  }

  /** `findByUserIdInAndDeletedFlagFalse`: the active rows of the given owners. */
  function FindByUserIdInAndDeletedFlagFalse(store: Store, us: set<int>): (r: Store)
    ensures forall c :: multiset(r)[c] == if c.userId in us && !c.deletedFlag then multiset(store)[c] else 0
    ensures forall k :: 0 <= k < |r| ==> r[k].userId in us && !r[k].deletedFlag
  {
    Where(store, Criteria(us, None, None, true))
  }

  /** `findByUserIdInAndName`: rows of the given owners with that name,
      deleted ones included. */
  function FindByUserIdInAndName(store: Store, us: set<int>, name: string): (r: Store)
    ensures forall c :: multiset(r)[c] == if c.userId in us && c.name == name then multiset(store)[c] else 0
    ensures forall k :: 0 <= k < |r| ==> r[k].userId in us && r[k].name == name
  {
    Where(store, Criteria(us, Some(name), None, false))
  }

  /** `countByUserIdAndDeletedFlagFalse`: the owner's active rows. */
  function CountByUserIdAndDeletedFlagFalse(store: Store, u: int): (n: nat)
    ensures n == |FindByUserIdInAndDeletedFlagFalse(store, {u})|
    ensures n == 0 <==> forall k :: 0 <= k < |store| && store[k].userId == u ==> store[k].deletedFlag
  {
    var q := Criteria({u}, None, None, true);
    WhereHead(store, q);
    CountIsLength(store, q);
    Count(store, q)
  }

  /** Position of the row `findByUserIdAndId` returns. */
  function IndexByUserIdAndId(store: Store, u: int, id: nat): (r: Option<nat>)
    ensures r.Some? ==> r.value < |store| && store[r.value].userId == u && store[r.value].id == id
    ensures r.None? <==> forall k :: 0 <= k < |store| ==> !(store[k].userId == u && store[k].id == id)
  {
    FirstWhere(store, OwnedBy(u).(id := Some(id)))
  }

  /** `findByUserIdAndId`: the category with that id, provided `u` owns it. */
  function FindByUserIdAndId(store: Store, u: int, id: nat): (r: Option<Category>)
    ensures r.Some? ==> r.value in store && r.value.userId == u && r.value.id == id
    ensures r.None? <==> forall k :: 0 <= k < |store| ==> !(store[k].userId == u && store[k].id == id)
  {
    match IndexByUserIdAndId(store, u, id)
    case None => None
    case Some(k) => Some(store[k])
  }

  /** Position of the row `findByUserIdAndName` returns. */
  function IndexByUserIdAndName(store: Store, u: int, name: string): (r: Option<nat>)
    ensures r.Some? ==> r.value < |store| && store[r.value].userId == u && store[r.value].name == name
    ensures r.Some? ==> forall k :: 0 <= k < r.value ==> !(store[k].userId == u && store[k].name == name)
    ensures r.None? <==> !ExistsByUserIdAndName(store, u, name)
  {
    FirstWhere(store, OwnedBy(u).(name := Some(name)))
  }

  /** `findByUserIdAndName`: present iff a row with that owner and name exists. */
  function FindByUserIdAndName(store: Store, u: int, name: string): (r: Option<Category>)
    ensures r.Some? <==> ExistsByUserIdAndName(store, u, name)
    ensures r.Some? ==> r.value in store && r.value.userId == u && r.value.name == name
  {
    match IndexByUserIdAndName(store, u, name)
    case None => None
    case Some(k) => Some(store[k])
  }

  /** In a store with unique ids, `findByUserIdAndId` finds the category with
      that id exactly when `u` owns it; a category of another owner (the
      system defaults included) is never returned. */
  lemma FindByUserIdAndIdOwnerScoped(store: Store, u: int, k: nat)
    requires UniqueCategoryIds(store)
    requires k < |store|
    ensures FindByUserIdAndId(store, u, store[k].id) ==
      (if store[k].userId == u then Some(store[k]) else None)
  {
    var r := IndexByUserIdAndId(store, u, store[k].id);
    if r.Some? {
      assert !(r.value < k) && !(k < r.value);
    }
  }
}
