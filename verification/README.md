# Inventory service business rules, in Dafny

This project models the business-rule layer of a small inventory service (a
Spring application). Users own categories, and categories hold items.

A user sees their own categories and those of one fixed system user.

- A user may hold at most 50 active categories.
- Deleting a category only sets its deleted flag.
- Creating a category whose name the user already used for a soft-deleted one
  revives that row instead of adding a new one.
- Items are created inside a category the user can see, one active item per
  name.
- Items are listed newest first.

At start-up the system user receives five default categories.

The model is functional:

- The database is a `Store`, a sequence of `Category` records in repository
  order. Each record holds its sequence of `Item` records.
- Every service operation is a pure function. It takes the store and returns
  either a new store (with the saved row) or a typed `Error` carrying the
  exception message of the source.
- The system user id (`sys`) and the current time (`now`) are parameters.
- Generated UUIDs become fresh natural numbers, one more than the largest id
  in use.

Some behaviour of the code that the model keeps as written:

- `createCategory` revives a soft-deleted category of the same name.
- Its name clash check looks only at the user's own rows.
- `updateCategory` and `deleteCategory` look up a category by (owner, id).
- Errors are `IllegalArgumentException`s, except the empty item list of
  `getItems`, which is a `ResponseStatusException` with status NOT_FOUND.

Files:

- `wrappers.dfy`: `Option` and `Result`.
- `model.dfy`:
  - the `Item` and `Category` records and their constructors;
  - `updateTimestamp` and `getCategoryName`;
  - the store invariants: unique ids, items pointing back to their category,
    timestamps on persisted items, one active item per name, and unique
    owner/name pairs;
  - fresh-id helpers.
- `requests.dfy`: Bean Validation of `CategoryRequest` and `ItemRequest`, as
  the set of violated constraints.
- `errors.dfy`: the failures and their exact messages.
- `sorting.dfy`: a stable insertion sort over a key with a total preorder,
  and the `String.compareTo` order on names.
- `category_repository.dfy`: the derived query methods as filters over the
  store. A list query keeps store order. A single-row query takes the first
  match.
- `category_service.dfy`: `getAllCategories`, `getCategoryItems`,
  `createCategory`, `updateCategory`, `deleteCategory`.
- `item_service.dfy`: `createItem` and `getItems`.
- `data_initializer.dfy`: the seeding of the default categories, both as a
  recursive definition and as the loop the source runs.

## Model

| member | source | states |
|---|---|---|
| Model.NewItem | inventory-bk/src/main/java/inventory/example/inventory_id/model/Item.java:27-41 | A new item has quantity 0. It is not deleted, has no category and no timestamp, and its owner is 0. |
| Model.NamedItem | inventory-bk/src/main/java/inventory/example/inventory_id/model/Item.java:54-56 | `Item(name)` differs from a new item only in its name. |
| Model.NewCategory | inventory-bk/src/main/java/inventory/example/inventory_id/model/Category.java:25-35 | A new category has owner 0, is not deleted and has no items. |
| Model.NamedCategory | inventory-bk/src/main/java/inventory/example/inventory_id/model/Category.java:37-39 | `Category(name)` differs from a new category only in its name. |
| Model.UpdateTimestamp | inventory-bk/src/main/java/inventory/example/inventory_id/model/Item.java:43-47 | `updatedAt` becomes the current time and no other field changes. |
| Model.CategoryName | inventory-bk/src/main/java/inventory/example/inventory_id/model/Item.java:49-52 | An item without a category has no category name. A name is only reported when a category with the item's category id exists. |
| Model.CategoryNameOfStoredItem | inventory-bk/src/main/java/inventory/example/inventory_id/model/Item.java:49-52 | In a well-formed store, an item's category name is the name of the category that holds it. |
| Model.FreshCategoryId | inventory-bk/src/main/java/inventory/example/inventory_id/model/Category.java:26-29 | The generated category id differs from every id already in the store. |
| Model.FreshItemId | inventory-bk/src/main/java/inventory/example/inventory_id/model/Item.java:28-30 | The generated item id differs from every item id already in the store. |
| Requests.CategoryRequestViolations | inventory-bk/src/main/java/inventory/example/inventory_id/request/CategoryRequest.java:9-11 | "Name required" is reported iff the name is null or blank. "Too long" is reported iff the name is longer than 50. Nothing else is reported. |
| Requests.CategoryRequestValidIff | inventory-bk/src/main/java/inventory/example/inventory_id/request/CategoryRequest.java:9-11 | A category request is valid iff its name is present, not blank and at most 50 characters long. |
| Requests.NullCategoryNameInvalid | inventory-bk/src/test/java/inventory/example/inventory_id/request/CategoryRequestValidationTest.java:45-53 | A null name yields exactly the "name required" violation. |
| Requests.BlankCategoryNameInvalid | inventory-bk/src/test/java/inventory/example/inventory_id/request/CategoryRequestValidationTest.java:35-43 | An empty or whitespace-only name breaks `@NotBlank`. |
| Requests.LongCategoryNameInvalid | inventory-bk/src/test/java/inventory/example/inventory_id/request/CategoryRequestValidationTest.java:55-63 | A name over 50 characters breaks `@Size`. |
| Requests.NewItemRequest | inventory-bk/src/main/java/inventory/example/inventory_id/request/ItemRequest.java:17 | An unset quantity is 0. Unset strings are null. |
| Requests.Trim | inventory-bk/src/main/java/inventory/example/inventory_id/request/CategoryRequest.java:9 | `String.trim()` returns an infix of the input; everything it drops before and after that infix is a character at or below U+0020, and the result neither starts nor ends with one. |
| Requests.BlankIffTrimsToEmpty | inventory-bk/src/main/java/inventory/example/inventory_id/request/CategoryRequest.java:9 | A string trims to empty iff every character is at or below U+0020, so `IsBlank` is the test `@NotBlank` applies. |
| Requests.NotBlankIsTrimNonEmpty | inventory-bk/src/main/java/inventory/example/inventory_id/request/ItemRequest.java:12 | `@NotBlank` accepts exactly the non-null strings whose trimmed form is non-empty. |
| Requests.ItemRequestViolations | inventory-bk/src/main/java/inventory/example/inventory_id/request/ItemRequest.java:12-20 | Each of the four constraints is reported iff its own condition fails: name null or blank, name over 50, quantity negative, category name null. |
| Requests.ItemRequestValidIff | inventory-bk/src/test/java/inventory/example/inventory_id/request/ItemRequestValidationTest.java:25-35 | An item request is valid iff all of these hold: the name is present, not blank and at most 50; the quantity is at least 0; the category name is present. |
| Requests.BlankItemNameInvalid | inventory-bk/src/test/java/inventory/example/inventory_id/request/ItemRequestValidationTest.java:37-47 | A null, empty or whitespace-only item name breaks `@NotBlank`. |
| Requests.NegativeQuantityInvalid | inventory-bk/src/test/java/inventory/example/inventory_id/request/ItemRequestValidationTest.java:49-59 | A negative quantity breaks `@PositiveOrZero`. |
| Requests.ZeroQuantityAndEmptyCategoryAccepted | inventory-bk/src/main/java/inventory/example/inventory_id/request/ItemRequest.java:16-20 | Quantity 0 with an empty category name is valid. The same request with a null category name fails only `@NotNull`. |
| Errors.MessagesDistinct | inventory-bk/src/main/java/inventory/example/inventory_id/service/ItemService.java:36-80 | Different failures carry different messages, including item-name clashes for different names. |
| Sorting.SortBy | inventory-bk/src/main/java/inventory/example/inventory_id/service/CategoryService.java:30 | The sort returns a permutation of its input. The result is ordered by the key. Elements with equal keys keep their input order (the sort is stable). |
| Sorting.MapSortBy | inventory-bk/src/main/java/inventory/example/inventory_id/service/CategoryService.java:29-37 | Sorting and then mapping equals mapping and then sorting on the mapped key, for a map that keeps the key. |
| Sorting.LexLeIsTotal | inventory-bk/src/main/java/inventory/example/inventory_id/service/CategoryService.java:30 | The lexicographic order on names is total and transitive. |
| Sorting.LexLeAntisymmetric | inventory-bk/src/main/java/inventory/example/inventory_id/service/CategoryService.java:30 | Two names that compare both ways are equal. |
| Sorting.LexLeIsCompareTo | inventory-bk/src/main/java/inventory/example/inventory_id/service/CategoryService.java:30 | `LexLe(a, b)` holds iff `a.compareTo(b) <= 0`, with `compareTo` written out as Java defines it (difference of the first differing characters, else of the lengths). |
| CategoryRepository.Where | inventory-bk/src/main/java/inventory/example/inventory_id/repository/CategoryRepository.java:16-20 | A list query returns exactly the matching rows, with their multiplicity. |
| CategoryRepository.FirstWhere | inventory-bk/src/main/java/inventory/example/inventory_id/repository/CategoryRepository.java:18 | A single-row query finds the first matching row, or reports that none matches. |
| CategoryRepository.WhereHead | inventory-bk/src/main/java/inventory/example/inventory_id/repository/CategoryRepository.java:20 | A list query is empty iff the single-row query finds nothing. Otherwise its head is the row that query finds. |
| CategoryRepository.CountIsLength | inventory-bk/src/main/java/inventory/example/inventory_id/service/CategoryService.java:51 | A count query equals the length of the matching list query. |
| CategoryRepository.CountAppend | inventory-bk/src/main/java/inventory/example/inventory_id/service/CategoryService.java:51 | Appending a row raises a count by one exactly when the row matches. |
| CategoryRepository.CountUpdate | inventory-bk/src/main/java/inventory/example/inventory_id/service/CategoryService.java:51 | Replacing a row changes a count only by the old row and the new row. |
| CategoryRepository.Count | inventory-bk/src/main/java/inventory/example/inventory_id/service/CategoryService.java:51 | A count never exceeds the number of rows, and it is zero iff no row matches. |
| CategoryRepository.ExistsByUserIdAndName | inventory-bk/src/main/java/inventory/example/inventory_id/repository/CategoryRepository.java:14 | True iff some row has that owner and name, whatever its deleted flag. |
| CategoryRepository.FindByUserIdIn | inventory-bk/src/test/java/inventory/example/inventory_id/repository/CategoryRepositoryTest.java:73-79 | Returns every row (deleted ones included) whose owner is in the set, with multiplicity, and no other row. |
| CategoryRepository.FindByUserIdInAndDeletedFlagFalse | inventory-bk/src/main/java/inventory/example/inventory_id/repository/CategoryRepository.java:16 | Returns exactly the non-deleted rows whose owner is in the set. |
| CategoryRepository.FindByUserIdInAndName | inventory-bk/src/main/java/inventory/example/inventory_id/repository/CategoryRepository.java:20 | Returns exactly the rows with that name whose owner is in the set, deleted ones included. |
| CategoryRepository.CountByUserIdAndDeletedFlagFalse | inventory-bk/src/test/java/inventory/example/inventory_id/repository/CategoryRepositoryTest.java:111-123 | Counts the owner's non-deleted rows. The count is 0 iff every row of the owner is deleted. |
| CategoryRepository.IndexByUserIdAndId | inventory-bk/src/main/java/inventory/example/inventory_id/repository/CategoryRepository.java:18 | Finds a row with that owner and id, and finds nothing iff no row has both. |
| CategoryRepository.FindByUserIdAndId | inventory-bk/src/main/java/inventory/example/inventory_id/repository/CategoryRepository.java:18 | Returns a row with that id and owner. It is empty iff no row has both. |
| CategoryRepository.FindByUserIdAndIdOwnerScoped | inventory-bk/src/test/java/inventory/example/inventory_id/repository/CategoryRepositoryTest.java:96-109 | With unique ids, looking up a row's id finds that row for its owner and nothing for any other user. |
| CategoryRepository.IndexByUserIdAndName | inventory-bk/src/main/java/inventory/example/inventory_id/service/CategoryService.java:57 | Finds the first row with that owner and name. It finds nothing iff `existsByUserIdAndName` is false. |
| CategoryRepository.FindByUserIdAndName | inventory-bk/src/test/java/inventory/example/inventory_id/repository/CategoryRepositoryTest.java:81-94 | Present iff a row with that owner and name exists. When present, it is such a row. |
| CategoryService.GetAllCategories | inventory-bk/src/main/java/inventory/example/inventory_id/service/CategoryService.java:28-38 | The listing is a permutation of (name, items) of every row owned by the user or the system user, deleted ones included. It is sorted by name, and same-named entries keep store order. |
| CategoryService.GetAllCategoriesListsVisible | inventory-bk/src/main/java/inventory/example/inventory_id/service/CategoryService.java:29-36 | Every category of the user or the system user appears, with exactly its name and items. |
| CategoryService.GetAllCategoriesOnlyVisible | inventory-bk/src/main/java/inventory/example/inventory_id/service/CategoryService.java:29-36 | Every entry is the name and items of some category of the user or the system user. |
| CategoryService.GetCategoryItems | inventory-bk/src/main/java/inventory/example/inventory_id/service/CategoryService.java:40-46 | Returns a result iff the user owns a category with that id. That result is that category's items. |
| CategoryService.SystemCategoryItemsHidden | inventory-bk/src/main/java/inventory/example/inventory_id/service/CategoryService.java:40-46 | Another user never gets a system category's items. |
| CategoryService.Revived | inventory-bk/src/main/java/inventory/example/inventory_id/service/CategoryService.java:58-62 | Revival clears the deleted flag and empties the items. It keeps the id, name and owner. |
| CategoryService.CreateCategory | inventory-bk/src/main/java/inventory/example/inventory_id/service/CategoryService.java:48-71 | With 50 or more active own categories, the limit error, checked first. Otherwise, if no own row has the name, one new active empty row with a fresh id is appended. An own soft-deleted row of that name is revived in place. An own active row of that name gives the name-exists error. |
| CategoryService.CreateCategoryConflictIsOwn | inventory-bk/src/main/java/inventory/example/inventory_id/service/CategoryService.java:56-65 | A name clash is always with the user's own active category. A same-named system category never blocks. |
| CategoryService.CreateCategoryCounts | inventory-bk/src/main/java/inventory/example/inventory_id/service/CategoryService.java:50-70 | A successful create raises the user's active count by one. It leaves every other owner's count unchanged. |
| CategoryService.CreateCategoryRespectsLimit | inventory-bk/src/main/java/inventory/example/inventory_id/service/CategoryService.java:50-54 | After a successful create, the user has at most 50 active categories. |
| CategoryService.CreateCategoryKeepsOwnerNamesUnique | inventory-bk/src/main/java/inventory/example/inventory_id/service/CategoryService.java:56-70 | Create never yields two rows with the same owner and name. |
| CategoryService.CreateCategoryPreservesWellFormed | inventory-bk/src/main/java/inventory/example/inventory_id/service/CategoryService.java:56-70 | Create keeps the store invariants. |
| CategoryService.UpdateCategory | inventory-bk/src/main/java/inventory/example/inventory_id/service/CategoryService.java:73-82 | Gives the not-found error iff the user owns no category with that id. Otherwise only that category's name changes; the other fields and all other rows are untouched. |
| CategoryService.UpdateCategoryPreservesWellFormed | inventory-bk/src/main/java/inventory/example/inventory_id/service/CategoryService.java:73-82 | A rename keeps the store invariants. |
| CategoryService.UpdateCategoryMayDuplicateName | inventory-bk/src/main/java/inventory/example/inventory_id/service/CategoryService.java:78-80 | A rename can produce a second row with the same owner and name, since uniqueness is not re-checked. |
| CategoryService.DeleteCategory | inventory-bk/src/main/java/inventory/example/inventory_id/service/CategoryService.java:84-96 | Unknown (owner, id): the store is returned unchanged. Known and without items: its deleted flag is set. Known with any item, deleted or not: the items-exist error. |
| CategoryService.DeleteCategoryIsSoft | inventory-bk/src/main/java/inventory/example/inventory_id/service/CategoryService.java:84-96 | Delete never removes a row. Only deleted flags may change. |
| CategoryService.DeleteCategoryPreservesWellFormed | inventory-bk/src/main/java/inventory/example/inventory_id/service/CategoryService.java:84-96 | Delete keeps the store invariants. |
| ItemService.ResolveForWrite | inventory-bk/src/main/java/inventory/example/inventory_id/service/ItemService.java:32-38 | Finds a row of the user or the system user with that name, deleted or not. It finds nothing iff no such row exists. |
| ItemService.ResolveForWriteIsHead | inventory-bk/src/main/java/inventory/example/inventory_id/service/ItemService.java:32-38 | That row is the head of `findByUserIdInAndName`, and nothing is found iff that list is empty. |
| ItemService.HasActiveNamedIffListed | inventory-bk/src/main/java/inventory/example/inventory_id/service/ItemService.java:41-46 | The duplicate check finds an item iff an item of that name survives the deleted-flag filter. |
| ItemService.CreateItem | inventory-bk/src/main/java/inventory/example/inventory_id/service/ItemService.java:30-55 | No visible category of that name: the not-found error. The category holds an active item of that name: the name-exists error. Otherwise one item is appended with the request's name and quantity, the user as owner, the category as parent, not deleted, a fresh id, and stamped `now`. Nothing else changes. |
| ItemService.CreateItemAppends | inventory-bk/src/main/java/inventory/example/inventory_id/service/ItemService.java:48-54 | The category's new items are its old items plus one. |
| ItemService.CreateItemKeepsActiveNamesUnique | inventory-bk/src/main/java/inventory/example/inventory_id/service/ItemService.java:41-54 | If every category holds at most one active item per name, it still does after a create. |
| ItemService.CreateItemPreservesWellFormed | inventory-bk/src/main/java/inventory/example/inventory_id/service/ItemService.java:48-54 | The new item points back to its category and carries a timestamp. Create keeps the store invariants. |
| ItemService.DeletedTwinDoesNotBlock | inventory-bk/src/main/java/inventory/example/inventory_id/service/ItemService.java:41-46 | If the only items of that name are deleted, the create succeeds. The deleted item stays where it was and one item is added. |
| ItemService.DeletedCategoryWritableNotReadable | inventory-bk/src/main/java/inventory/example/inventory_id/service/ItemService.java:32-64 | When every visible category of that name is deleted, `createItem` still succeeds, and a following `getItems` reports the category not found. |
| ItemService.ActiveCategoriesFilter | inventory-bk/src/main/java/inventory/example/inventory_id/service/ItemService.java:59-61 | The deleted-flag filter keeps every non-deleted category as often as it occurs and drops every deleted one. |
| ItemService.ActiveCategoriesAppend | inventory-bk/src/main/java/inventory/example/inventory_id/service/ItemService.java:59-61 | The filter keeps list order: filtering a concatenation concatenates the filtered parts. |
| ItemService.ActiveCategoriesOfWhere | inventory-bk/src/main/java/inventory/example/inventory_id/service/ItemService.java:58-61 | Filtering a list query's result by the deleted flag equals the same query with the deleted-flag condition added. |
| ItemService.ResolveForRead | inventory-bk/src/main/java/inventory/example/inventory_id/service/ItemService.java:58-66 | Finds an active row of the user or the system user with that name. It finds nothing iff no such row exists. |
| ItemService.ResolveForReadIsHead | inventory-bk/src/main/java/inventory/example/inventory_id/service/ItemService.java:58-66 | That row is the head of the deleted-flag-filtered `findByUserIdInAndName` list. |
| ItemService.Stamp | inventory-bk/src/main/java/inventory/example/inventory_id/service/ItemService.java:71 | The sort key is the item's `updatedAt` wherever one is set. |
| ItemService.NewerOrSameIsTotal | inventory-bk/src/main/java/inventory/example/inventory_id/service/ItemService.java:71 | The reversed timestamp comparison is a total preorder, so the stable sort can order by it. |
| ItemService.ActiveItemsFilter | inventory-bk/src/main/java/inventory/example/inventory_id/service/ItemService.java:68-69 | The deleted-flag filter keeps every active item as often as it occurs and drops every deleted one. |
| ItemService.ActiveItemsAppend | inventory-bk/src/main/java/inventory/example/inventory_id/service/ItemService.java:68-69 | The filter keeps list order, so items stamped alike reach the sort in list order. |
| ItemService.NewestFirst | inventory-bk/src/main/java/inventory/example/inventory_id/service/ItemService.java:68-71 | A permutation of the active items, ordered by `updatedAt` from newest to oldest. Items with the same timestamp keep list order. |
| ItemService.GetItems | inventory-bk/src/main/java/inventory/example/inventory_id/service/ItemService.java:57-84 | No active visible category: the not-found error. No active item in it: the NOT_FOUND "no items" error. Otherwise (name, quantity) of its active items, newest first. The store is only read. |
| ItemService.GetItemsOnlyActive | inventory-bk/src/main/java/inventory/example/inventory_id/service/ItemService.java:68-77 | Every returned pair is the name and quantity of an active item of the resolved category. |
| ItemService.GetItemsListsEveryActive | inventory-bk/src/main/java/inventory/example/inventory_id/service/ItemService.java:68-77 | Every active item of the resolved category is listed. |
| DataInitializer.SystemCategory | inventory-bk/src/main/java/inventory/example/inventory_id/config/DataInitializer.java:32-34 | The saved default is named, owned by the system user, active and empty, with a fresh id. |
| DataInitializer.StepRows | inventory-bk/src/main/java/inventory/example/inventory_id/config/DataInitializer.java:30-35 | One loop step saves nothing iff the system user already owns that name, deleted or not. Otherwise it saves one row. |
| DataInitializer.Seed | inventory-bk/src/main/java/inventory/example/inventory_id/config/DataInitializer.java:27-37 | Existing rows are kept in place. At most one row per name is appended. Every appended row is an active, empty system category. |
| DataInitializer.AddDefaultCategories | inventory-bk/src/main/java/inventory/example/inventory_id/config/DataInitializer.java:27-37 | The loop computes the recursive seeding over the five default names. |
| DataInitializer.SeedIsAppend | inventory-bk/src/main/java/inventory/example/inventory_id/config/DataInitializer.java:29-36 | Seeding appends the rows the steps save, in order, to the unchanged store. |
| DataInitializer.SeedEstablishes | inventory-bk/src/main/java/inventory/example/inventory_id/config/DataInitializer.java:28-36 | After seeding, the system user owns a row for every listed name. |
| DataInitializer.SeedAddsOnlyMissing | inventory-bk/src/main/java/inventory/example/inventory_id/config/DataInitializer.java:30-35 | Every appended row carries a name the system user did not own before. |
| DataInitializer.SeedAllPresent | inventory-bk/src/main/java/inventory/example/inventory_id/config/DataInitializer.java:30-31 | When every name is already owned, seeding changes nothing. |
| DataInitializer.SeedIdempotent | inventory-bk/src/main/java/inventory/example/inventory_id/config/DataInitializer.java:27-37 | Seeding twice gives the same store as seeding once. |
| DataInitializer.SeedAddsExactlyMissing | inventory-bk/src/main/java/inventory/example/inventory_id/config/DataInitializer.java:28-35 | For distinct names, the names of the appended rows are exactly the missing names, in list order. |
| DataInitializer.DefaultsAddedInOrder | inventory-bk/src/main/java/inventory/example/inventory_id/config/DataInitializer.java:28-35 | The start-up run appends exactly the missing defaults, in the listed order. |
| DataInitializer.SeedAddsAtMostFive | inventory-bk/src/main/java/inventory/example/inventory_id/config/DataInitializer.java:28 | The start-up run adds at most five rows. |
| DataInitializer.ExistingNameSkipped | inventory-bk/src/main/java/inventory/example/inventory_id/config/DataInitializer.java:30-31 | A name the system user already owns, even soft-deleted, keeps its row unchanged (no revival) and is not added again. |
| DataInitializer.DeletedDefaultStaysDeleted | inventory-bk/src/main/java/inventory/example/inventory_id/config/DataInitializer.java:30-34 | Example: with only a deleted system "Food", "Food" stays deleted and the other four defaults follow in order. |
| DataInitializer.SeedPreservesInvariants | inventory-bk/src/main/java/inventory/example/inventory_id/config/DataInitializer.java:27-37 | Seeding keeps the store invariants and keeps owner/name pairs unique. |

## Left out

- Controllers, exception-to-HTTP mapping and authentication are not modelled: routing, response bodies, and where user ids come from.
- `ItemRepository` and `ItemRepo` are not modelled, because no modelled service calls their queries.
- The `CategoryRepo` interface that `CategoryService` uses is modelled by the meaning of its derived query names.
- JPA mechanics are reduced to the store update each save amounts to. This covers cascades, orphan removal, lazy loading, transactions and `DataAccessException`s. Saving a category stores the items appended to its list. A revival's empty list drops the old items.
- UUIDs become fresh natural numbers, one past the largest id in use. `LocalDateTime.now()` becomes the `now` argument, and timestamps are integers.
- The `@PreUpdate` re-stamping of items that a later save of their category would change is not modelled. No modelled operation changes an existing item.
- Concurrency is not modelled: the model runs one request at a time, so races between check and save do not arise.
- Strings are sequences of Unicode scalar values. Java's `String.length()` counts UTF-16 code units, so `@Size` differs for characters outside the Basic Multilingual Plane. `String.compareTo` also compares UTF-16 code units, so the name order differs for such characters.
- `int` and `long` widths are not modelled. Counts are below 2^31 for any store that fits in memory.
- Null strings reaching the services are not modelled: names are plain strings. The validators model null with `Option`. The name of a new `Item` or `Category` is the empty string rather than null.
  - This case can occur. The PUT handler passes the request body to `updateCategory` without `@Valid` (`CategoryController.java:62-66`), so a null name can be stored.
  - A later `getAllCategories` would then throw in `Comparator.comparing(Category::getName)`.
- A null `items` list is the empty sequence. Every item list in the model is non-null. The code treats null differently by operation:
  - `deleteCategory` accepts null explicitly.
  - `createItem` and `getItems` would throw on null.
  - `getCategoryItems` would throw a `NullPointerException` from `Optional.of` (`CategoryService.java:43`), where the model returns the empty sequence.
  - `getAllCategories` would put null into the DTO (`CategoryService.java:34`), where the model gives the empty sequence.
- CategoryRepository.FindByUserIdAndName: when one owner has two rows of the same name, Spring throws a non-unique-result exception. The model returns the first row instead. `createCategory` never creates such pairs, but `updateCategory` can (`UpdateCategoryMayDuplicateName`).
- ItemService.GetItems: requires every active visible category of that name to carry only timestamped items. A null `updatedAt` would make the comparator throw. Persisted items always carry a timestamp, so the well-formed store invariant implies the requirement.
- Test expectations written against another revision are not modelled: errors as `ResponseStatusException`, default categories that cannot be edited or deleted, and deletion through the visibility set.
