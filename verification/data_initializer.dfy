/**
 * DataInitializer: at start-up, the system user receives the five default
 * categories it does not own yet.
 */
module DataInitializer {
  import opened Model
  import opened CategoryRepository

  const DefaultNames: seq<string> := ["Children", "Food", "Electronics", "Books", "Kitchen"]

  /** No name occurs twice in the list. */
  predicate Distinct(names: seq<string>) {
    names == [] || (names[0] !in names[1..] && Distinct(names[1..]))
  }

  /** `new Category(name)` followed by `setUserId(systemUserId)`, saved under
      a fresh id. */
  function SystemCategory(store: Store, sys: int, name: string): (c: Category)
    ensures c.name == name && c.userId == sys && !c.deletedFlag && c.items == []
    ensures forall k :: 0 <= k < |store| ==> store[k].id != c.id
  {
    NamedCategory(FreshCategoryId(store), name).(userId := sys)
  }

  /** The rows one iteration of the seeding loop saves: none when the system
      user already owns a row of that name, deleted or not, else one. */
  function StepRows(store: Store, sys: int, name: string): (rows: seq<Category>)
    ensures rows == [] <==> ExistsByUserIdAndName(store, sys, name)
    ensures |rows| <= 1
  {
    if ExistsByUserIdAndName(store, sys, name) then [] else [SystemCategory(store, sys, name)]
  }

  /** The seeding loop over `names`, in list order: existing rows are kept
      and every appended row is an empty, active system category. */
  function Seed(store: Store, sys: int, names: seq<string>): (r: Store)
    ensures |store| <= |r| <= |store| + |names|
    ensures r[..|store|] == store
    ensures forall k :: |store| <= k < |r| ==>
      r[k].userId == sys && !r[k].deletedFlag && r[k].items == []
    decreases |names|
  {
    if names == [] then store
    else
      var s1 := store + StepRows(store, sys, names[0]);
      var r := Seed(s1, sys, names[1..]);
      assert r[..|store|] == r[..|s1|][..|store|];
      assert forall k :: |store| <= k < |s1| ==> r[k] == r[..|s1|][k];
      r
  }

  /** The rows the seeding loop appends, step by step. */
  function Added(store: Store, sys: int, names: seq<string>): (rows: seq<Category>)
    ensures |rows| <= |names|
    decreases |names|
  {
    if names == [] then []
    else
      var step := StepRows(store, sys, names[0]);
      step + Added(store + step, sys, names[1..])
  }

  /** Seeding appends exactly `Added` to the store. */
  lemma {:induction false} SeedIsAppend(store: Store, sys: int, names: seq<string>)
    ensures Seed(store, sys, names) == store + Added(store, sys, names)
    decreases |names|
  {
    if names != [] {
      var step := StepRows(store, sys, names[0]);
      var rest := Added(store + step, sys, names[1..]);
      assert Seed(store, sys, names) == Seed(store + step, sys, names[1..]);
      assert Added(store, sys, names) == step + rest;
      SeedIsAppend(store + step, sys, names[1..]);
      assert store + step + rest == store + (step + rest);
    }
  }

  /** `existsByUserIdAndName` over two stores put together. */
  lemma ExistsAppend(s: Store, t: Store, u: int, name: string)
    ensures ExistsByUserIdAndName(s + t, u, name) <==>
            ExistsByUserIdAndName(s, u, name) || ExistsByUserIdAndName(t, u, name)
  {
    if ExistsByUserIdAndName(s + t, u, name) {
      var j :| 0 <= j < |s + t| && (s + t)[j].userId == u && (s + t)[j].name == name;
      if j >= |s| { assert t[j - |s|] == (s + t)[j]; }
    }
    if ExistsByUserIdAndName(s, u, name) {
      var j :| 0 <= j < |s| && s[j].userId == u && s[j].name == name;
      assert (s + t)[j] == s[j];
    }
    if ExistsByUserIdAndName(t, u, name) {
      var j :| 0 <= j < |t| && t[j].userId == u && t[j].name == name;
      assert (s + t)[|s| + j] == t[j];
    }
  }

  /** One step makes its name exist and leaves every other name as it was. */
  lemma StepExists(store: Store, sys: int, name: string, n: string)
    ensures ExistsByUserIdAndName(store + StepRows(store, sys, name), sys, n) <==>
            n == name || ExistsByUserIdAndName(store, sys, n)
  {
    var step := StepRows(store, sys, name);
    ExistsAppend(store, step, sys, n);
    if step != [] && step[0].name == n {
      assert ExistsByUserIdAndName(step, sys, n);
    }
  }

  /** After seeding, the system user owns a row for every listed name. */
  lemma {:induction false} SeedEstablishes(store: Store, sys: int, names: seq<string>)
    ensures forall i :: 0 <= i < |names| ==> ExistsByUserIdAndName(Seed(store, sys, names), sys, names[i])
    decreases |names|
  {
    if names != [] {
      var s1 := store + StepRows(store, sys, names[0]);
      var r := Seed(s1, sys, names[1..]);
      SeedEstablishes(s1, sys, names[1..]);
      SeedIsAppend(s1, sys, names[1..]);
      StepExists(store, sys, names[0], names[0]);
      ExistsAppend(s1, Added(s1, sys, names[1..]), sys, names[0]);
      forall i | 1 <= i < |names|
        ensures ExistsByUserIdAndName(r, sys, names[i])
      {
        assert names[i] == names[1..][i - 1];
      }
    }
  }

  /** Seeding only appends names the system user did not own before. */
  lemma {:induction false} AddedOnlyMissing(store: Store, sys: int, names: seq<string>)
    ensures forall k :: 0 <= k < |Added(store, sys, names)| ==>
      !ExistsByUserIdAndName(store, sys, Added(store, sys, names)[k].name)
    decreases |names|
  {
    if names != [] {
      var step := StepRows(store, sys, names[0]);
      var rest := Added(store + step, sys, names[1..]);
      AddedOnlyMissing(store + step, sys, names[1..]);
      forall k | 0 <= k < |rest|
        ensures !ExistsByUserIdAndName(store, sys, rest[k].name)
      {
        assert !ExistsByUserIdAndName(store + step, sys, rest[k].name);
        ExistsAppend(store, step, sys, rest[k].name);
      }
      assert forall k :: 0 <= k < |step + rest| ==>
        (step + rest)[k] == if k < |step| then step[k] else rest[k - |step|];
    }
  }

  /** The same, stated on the seeded store: every row beyond the old store
      carries a name the system user did not own. */
  lemma SeedAddsOnlyMissing(store: Store, sys: int, names: seq<string>)
    ensures var r := Seed(store, sys, names);
            forall k :: |store| <= k < |r| ==> !ExistsByUserIdAndName(store, sys, r[k].name)
  {
    SeedIsAppend(store, sys, names);
    AddedOnlyMissing(store, sys, names);
    var r := Seed(store, sys, names);
    assert forall k :: |store| <= k < |r| ==> r[k] == Added(store, sys, names)[k - |store|];
  }

  /** `addDefaultCategories`: the seeding loop written as a loop. */
  method AddDefaultCategories(store: Store, sys: int) returns (r: Store)
    ensures r == Seed(store, sys, DefaultNames)
  {
    r := store;
    var i := 0;
    while i < |DefaultNames|
      invariant 0 <= i <= |DefaultNames|
      invariant Seed(r, sys, DefaultNames[i..]) == Seed(store, sys, DefaultNames)
    {
      var name := DefaultNames[i];
      assert DefaultNames[i..][0] == name && DefaultNames[i..][1..] == DefaultNames[i + 1..];
      ghost var next := r + StepRows(r, sys, name);
      var found := ExistsByUserIdAndName(r, sys, name);
      if !found {
        var category := NamedCategory(FreshCategoryId(r), name).(userId := sys);
        r := r + [category];
      }
      assert r == next;
      i := i + 1;
    }
  }

  /** Seeding a store that already holds every name changes nothing. */
  lemma {:induction false} SeedAllPresent(store: Store, sys: int, names: seq<string>)
    requires forall i :: 0 <= i < |names| ==> ExistsByUserIdAndName(store, sys, names[i])
    ensures Seed(store, sys, names) == store
    decreases |names|
  {
    if names != [] {
      assert StepRows(store, sys, names[0]) == [];
      assert store + [] == store;
      assert forall i :: 0 <= i < |names[1..]| ==> names[1..][i] == names[i + 1];
      SeedAllPresent(store, sys, names[1..]);
    }
  }

  /** Running the seeding twice gives the store of running it once. */
  lemma SeedIdempotent(store: Store, sys: int, names: seq<string>)
    ensures Seed(Seed(store, sys, names), sys, names) == Seed(store, sys, names)
  {
    SeedEstablishes(store, sys, names);
    SeedAllPresent(Seed(store, sys, names), sys, names);
  }

  /** The names `names` lists that the system user does not own yet, in
      list order. */
  function Missing(store: Store, sys: int, names: seq<string>): (r: seq<string>)
    ensures |r| <= |names|
  {
    if names == [] then []
    else
      var rest := Missing(store, sys, names[1..]);
      if ExistsByUserIdAndName(store, sys, names[0]) then rest else [names[0]] + rest
  }

  /** The names of a sequence of categories, in order. */
  function NamesOf(cs: seq<Category>): (r: seq<string>)
    ensures |r| == |cs|
    ensures forall i :: 0 <= i < |cs| ==> r[i] == cs[i].name
  {
    if cs == [] then [] else [cs[0].name] + NamesOf(cs[1..])
  }

  lemma NamesOfAppend(a: seq<Category>, b: seq<Category>)
    ensures NamesOf(a + b) == NamesOf(a) + NamesOf(b)
  {
    assert NamesOf(a + b) == NamesOf(a) + NamesOf(b);
  }

  /** `Missing` only depends on which of the listed names exist. */
  lemma {:induction false} MissingAgree(s: Store, t: Store, sys: int, names: seq<string>)
    requires forall n :: n in names ==> ExistsByUserIdAndName(s, sys, n) == ExistsByUserIdAndName(t, sys, n)
    ensures Missing(s, sys, names) == Missing(t, sys, names)
    decreases |names|
  {
    if names != [] {
      assert names[0] in names;
      assert forall n :: n in names[1..] ==> n in names;
      MissingAgree(s, t, sys, names[1..]);
    }
  }

  /** With distinct names, seeding appends one row per missing name, in
      list order, and nothing else. */
  lemma {:induction false} SeedAddsExactlyMissing(store: Store, sys: int, names: seq<string>)
    requires Distinct(names)
    ensures NamesOf(Added(store, sys, names)) == Missing(store, sys, names)
    decreases |names|
  {
    if names != [] {
      var step := StepRows(store, sys, names[0]);
      var rest := names[1..];
      SeedAddsExactlyMissing(store + step, sys, rest);
      forall n | n in rest
        ensures ExistsByUserIdAndName(store + step, sys, n) == ExistsByUserIdAndName(store, sys, n)
      {
        StepExists(store, sys, names[0], n);
      }
      MissingAgree(store + step, store, sys, rest);
      NamesOfAppend(step, Added(store + step, sys, rest));
    }
  }

  /** Seeding keeps the store well-formed and keeps owner/name pairs unique. */
  lemma {:induction false} SeedPreservesInvariants(store: Store, sys: int, names: seq<string>)
    requires WellFormed(store) && OwnerNamesUnique(store)
    ensures WellFormed(Seed(store, sys, names)) && OwnerNamesUnique(Seed(store, sys, names))
    decreases |names|
  {
    if names != [] {
      var step := StepRows(store, sys, names[0]);
      var s1 := store + step;
      if step != [] {
        WellFormedAppend(store, step[0]);
        assert s1 == store + [step[0]];
        forall a, b | 0 <= a < b < |s1|
          ensures !(s1[a].userId == s1[b].userId && s1[a].name == s1[b].name)
        {
          if b == |store| {
            assert s1[a] == store[a];
          } else {
            assert s1[a] == store[a] && s1[b] == store[b];
          }
        }
      } else {
        assert s1 == store;
      }
      SeedPreservesInvariants(s1, sys, names[1..]);
    }
  }

  /** A name the system user already owns, even soft-deleted, is neither
      re-added nor revived. */
  lemma ExistingNameSkipped(store: Store, sys: int, names: seq<string>, k: nat)
    requires k < |store| && store[k].userId == sys
    ensures var r := Seed(store, sys, names);
            && r[k] == store[k]
            && forall j :: |store| <= j < |r| ==> r[j].name != store[k].name
  {
    var r := Seed(store, sys, names);
    assert r[..|store|][k] == r[k];
    SeedAddsOnlyMissing(store, sys, names);
    assert ExistsByUserIdAndName(store, sys, store[k].name);
  }

  lemma DefaultNamesDistinct()
    ensures Distinct(DefaultNames)
  {
    assert DefaultNames[1..][1..][1..][1..][1..] == [];
  }

  /** The start-up seeding appends exactly the missing defaults, in the
      order Children, Food, Electronics, Books, Kitchen. */
  lemma DefaultsAddedInOrder(store: Store, sys: int)
    ensures Seed(store, sys, DefaultNames) == store + Added(store, sys, DefaultNames)
    ensures NamesOf(Added(store, sys, DefaultNames)) == Missing(store, sys, DefaultNames)
  {
    SeedIsAppend(store, sys, DefaultNames);
    DefaultNamesDistinct();
    SeedAddsExactlyMissing(store, sys, DefaultNames);
  }

  /** The defaults add at most five rows. */
  lemma SeedAddsAtMostFive(store: Store, sys: int)
    ensures |Seed(store, sys, DefaultNames)| <= |store| + 5
  {
  }

  /** Which defaults are missing when the system user owns only a
      soft-deleted "Food". */
  lemma MissingBesideDeletedFood()
    ensures Missing([Category(1, "Food", 0, true, [])], 0, DefaultNames) ==
            ["Children", "Electronics", "Books", "Kitchen"]
  {
    var store := [Category(1, "Food", 0, true, [])];
    var d := DefaultNames;
    assert d[1..] == ["Food", "Electronics", "Books", "Kitchen"];
    assert d[1..][1..] == ["Electronics", "Books", "Kitchen"];
    assert d[1..][1..][1..] == ["Books", "Kitchen"];
    assert d[1..][1..][1..][1..] == ["Kitchen"];
    assert d[1..][1..][1..][1..][1..] == [];
    assert store[0].userId == 0 && store[0].name == "Food";
    assert ExistsByUserIdAndName(store, 0, "Food");
    assert Missing(store, 0, ["Kitchen"]) == ["Kitchen"];
    assert Missing(store, 0, ["Books", "Kitchen"]) == ["Books", "Kitchen"];
    assert Missing(store, 0, ["Electronics", "Books", "Kitchen"]) == ["Electronics", "Books", "Kitchen"];
    assert Missing(store, 0, d[1..]) == ["Electronics", "Books", "Kitchen"];
    assert d[0] == "Children" && !ExistsByUserIdAndName(store, 0, "Children");
    assert Missing(store, 0, d) == ["Children"] + Missing(store, 0, d[1..]);
  }

  /** A soft-deleted system "Food" stays deleted; the other four defaults
      are appended after it. */
  lemma DeletedDefaultStaysDeleted()
    ensures var store := [Category(1, "Food", 0, true, [])];
            var r := Seed(store, 0, DefaultNames);
            && |r| == 5 && r[0] == store[0]
            && NamesOf(r[1..]) == ["Children", "Electronics", "Books", "Kitchen"]
  {
    var store := [Category(1, "Food", 0, true, [])];
    DefaultsAddedInOrder(store, 0);
    MissingBesideDeletedFood();
    var r := Seed(store, 0, DefaultNames);
    assert r[1..] == Added(store, 0, DefaultNames);
  }
}
