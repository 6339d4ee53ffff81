/**
 * Bean Validation of the two request bodies. A request field that may be
 * JSON null is an `Option`; validation yields the set of constraint
 * violations, and a request is valid exactly when that set is empty.
 */
module Requests {
  import opened Wrappers

  const MaxNameLength: nat := 50

  /** One failed constraint: the field it is on and its message. */
  datatype Violation = Violation(field: string, message: string)

  const CategoryNameRequired := Violation("name", "カテゴリ名は必須")
  const CategoryNameTooLong  := Violation("name", "カテゴリ名は50文字以内")
  const ItemNameRequired     := Violation("name", "アイテム名は必須です")
  const ItemNameTooLong      := Violation("name", "アイテム名は50文字以内で入力してください")
  const QuantityNegative     := Violation("quantity", "数量は0以上の整数で入力してください")
  const CategoryRequired     := Violation("categoryName", "カテゴリは必須です")

  /** Java's `String.trim()` drops every leading and trailing character at
      or below U+0020, so a string trims to empty iff all its characters are. */
  predicate IsBlank(s: string) {
    forall k :: 0 <= k < |s| ==> s[k] <= ' '
  }

  /** `@NotBlank`: fails on null and on a string that trims to empty. */
  predicate NotBlank(s: Option<string>) {
    s.Some? && !IsBlank(s.value)
  }

  /** `@Size(max = 50)`: null is accepted. */
  predicate SizeAtMost(s: Option<string>, max: nat) {
    s.None? || |s.value| <= max
  }

  /** `String.trim()`'s first loop: from `st`, skip characters at or below
      U+0020; stop at the first other character or at the end. */
  function TrimStartIndex(s: string, st: nat): (i: nat)
    requires st <= |s|
    ensures st <= i <= |s|
    ensures forall k :: st <= k < i ==> s[k] <= ' '
    ensures i < |s| ==> s[i] > ' '
    decreases |s| - st
  {
    if st < |s| && s[st] <= ' ' then TrimStartIndex(s, st + 1) else st
  }

  /** `String.trim()`'s second loop: move `len` down over characters at or
      below U+0020, never below `st`. */
  function TrimEndIndex(s: string, st: nat, len: nat): (j: nat)
    requires st <= len <= |s|
    ensures st <= j <= len
    ensures forall k :: j <= k < len ==> s[k] <= ' '
    ensures j > st ==> s[j - 1] > ' '
  {
    if st < len && s[len - 1] <= ' ' then TrimEndIndex(s, st, len - 1) else len
  }

  /** `String.trim()`: the infix of `s` left once blanks are dropped at both
      ends. Only blanks are dropped, and the result neither starts nor ends
      with one. */
  function Trim(s: string): (r: string)
    ensures var a := TrimStartIndex(s, 0);
            && a + |r| <= |s| && r == s[a..a + |r|]
            && IsBlank(s[..a]) && IsBlank(s[a + |r|..])
    ensures r == [] || (r[0] > ' ' && r[|r| - 1] > ' ')
  {
    var a := TrimStartIndex(s, 0);
    var b := TrimEndIndex(s, a, |s|);
    assert IsBlank(s[..a]) by {
      forall k | 0 <= k < a
        ensures s[..a][k] <= ' '
      {
        assert s[..a][k] == s[k];
      }
    }
    assert IsBlank(s[b..]) by {
      forall k | 0 <= k < |s| - b
        ensures s[b..][k] <= ' '
      {
        assert s[b..][k] == s[b + k];
      }
    }
    s[a..b]
  }

  /** Hibernate's `@NotBlank` test `trim().length() > 0` agrees with
      `IsBlank`: a string trims to empty iff every character is a blank. */
  lemma BlankIffTrimsToEmpty(s: string)
    ensures IsBlank(s) <==> Trim(s) == []
  {
    var a := TrimStartIndex(s, 0);
    var r := Trim(s);
    if r != [] {
      assert r[0] == s[a];
    } else {
      forall k | 0 <= k < |s|
        ensures s[k] <= ' '
      {
        assert s[..a][k] == s[k];
      }
    }
  }

  /** `@NotBlank` accepts exactly the non-null strings whose trimmed form is
      not empty. */
  lemma NotBlankIsTrimNonEmpty(s: Option<string>)
    ensures NotBlank(s) <==> (s.Some? && |Trim(s.value)| > 0)
  {
    if s.Some? {
      BlankIffTrimsToEmpty(s.value);
    }
  }

  datatype CategoryRequest = CategoryRequest(name: Option<string>)

  datatype ItemRequest = ItemRequest(name: Option<string>, quantity: int, categoryName: Option<string>)

  /** `new ItemRequest()`: quantity defaults to 0, the strings to null. */
  function NewItemRequest(): (r: ItemRequest)
    ensures r.quantity == 0 && r.name.None? && r.categoryName.None?
  {
    ItemRequest(None, 0, None)
  }

  function CategoryRequestViolations(r: CategoryRequest): (vs: set<Violation>)
    ensures CategoryNameRequired in vs <==> !NotBlank(r.name)
    ensures CategoryNameTooLong in vs <==> !SizeAtMost(r.name, MaxNameLength)
    ensures vs <= {CategoryNameRequired, CategoryNameTooLong}
  {
    (if NotBlank(r.name) then {} else {CategoryNameRequired})
    + (if SizeAtMost(r.name, MaxNameLength) then {} else {CategoryNameTooLong})
  }

  function ItemRequestViolations(r: ItemRequest): (vs: set<Violation>)
    ensures ItemNameRequired in vs <==> !NotBlank(r.name)
    ensures ItemNameTooLong in vs <==> !SizeAtMost(r.name, MaxNameLength)
    ensures QuantityNegative in vs <==> r.quantity < 0
    ensures CategoryRequired in vs <==> r.categoryName.None?
    ensures vs <= {ItemNameRequired, ItemNameTooLong, QuantityNegative, CategoryRequired}
  {
    (if NotBlank(r.name) then {} else {ItemNameRequired})
    + (if SizeAtMost(r.name, MaxNameLength) then {} else {ItemNameTooLong})
    + (if r.quantity >= 0 then {} else {QuantityNegative})
    + (if r.categoryName.Some? then {} else {CategoryRequired})
  }

  /** A category request is valid iff its name is present, not blank, and at
      most 50 characters long. */
  lemma CategoryRequestValidIff(r: CategoryRequest)
    ensures CategoryRequestViolations(r) == {} <==>
      (r.name.Some? && !IsBlank(r.name.value) && |r.name.value| <= 50)
  {
    if CategoryRequestViolations(r) == {} {
      assert CategoryNameRequired !in CategoryRequestViolations(r);
    }
  }

  lemma NullCategoryNameInvalid()
    ensures CategoryRequestViolations(CategoryRequest(None)) == {CategoryNameRequired}
  {}

  /** The empty name and the all-spaces name both break `@NotBlank`. */
  lemma BlankCategoryNameInvalid(s: string)
    requires IsBlank(s)
    ensures CategoryNameRequired in CategoryRequestViolations(CategoryRequest(Some(s)))
  {}

  lemma LongCategoryNameInvalid(s: string)
    requires |s| > 50
    ensures CategoryNameTooLong in CategoryRequestViolations(CategoryRequest(Some(s)))
  {}

  /** An item request is valid iff its name is present, not blank and at most
      50 characters, its quantity is not negative and its category name is
      present (an empty category name passes: only `@NotNull` applies). */
  lemma ItemRequestValidIff(r: ItemRequest)
    ensures ItemRequestViolations(r) == {} <==>
      (&& r.name.Some? && !IsBlank(r.name.value) && |r.name.value| <= 50
       && r.quantity >= 0
       && r.categoryName.Some?)
  {
    if ItemRequestViolations(r) == {} {
      assert ItemNameRequired !in ItemRequestViolations(r);
      assert CategoryRequired !in ItemRequestViolations(r);
    }
  }

  lemma BlankItemNameInvalid(r: ItemRequest)
    requires r.name.None? || IsBlank(r.name.value)
    ensures ItemNameRequired in ItemRequestViolations(r)
  {}

  lemma NegativeQuantityInvalid(r: ItemRequest)
    requires r.quantity < 0
    ensures QuantityNegative in ItemRequestViolations(r)
  {}

  /** Zero is a valid quantity (`@PositiveOrZero`), and an empty category
      name is accepted while a null one is not. */
  lemma ZeroQuantityAndEmptyCategoryAccepted(name: string)
    requires !IsBlank(name) && |name| <= 50
    ensures ItemRequestViolations(ItemRequest(Some(name), 0, Some(""))) == {}
    ensures ItemRequestViolations(ItemRequest(Some(name), 0, None)) == {CategoryRequired}
  {}
}
