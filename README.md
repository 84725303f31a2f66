# tetoy inventory engine in Dafny

This project models the server-side inventory engine of tetoy, an API for warehouse storage. Storages are grids of blocks. Each block holds boxes of a product, and boxes can be checked out in part or in full. Every change to a storage is recorded in an append-only activity log. Categories, sub-categories and products are catalogue entities that are soft-deleted, never removed.

The model covers:

- **Grid layout** (`Grid`, `StorageSchema`): the dimension tokens "1x1" to "7x7", the dimension map, and `getBlocksFromDimension`. The generator is an imperative method with two nested loops, proved equal to the row-major layout `Layout`.
- **Request validators** (`StorageSchema`): the bounds of the create-storage, add-box and checkout schemas, written as predicates.
- **The store** (`Db`): one `Database` class with a map per table, the activity log as a sequence, and a counter for fresh ids. Its invariant `Consistent` says:
  - every id is below the counter;
  - every box keeps the checkout counter invariant;
  - every reference points to an existing row.
- **Storage handlers** (`StoragesRoute`):
  - create a storage with its blocks;
  - cascading soft-delete;
  - add a box with its countries;
  - delete a box;
  - partial or full checkout;
  - the activity-log page query;
  - the block-box listing filter.
- **Category handlers** (`CategoriesRoute`):
  - create a category;
  - update it, with the three-way reconciliation of submitted sub-categories (new, renamed, soft-deleted);
  - soft-delete it with its sub-categories.
- **Product handlers** (`ProductsRoute`): create, update and soft-delete, after ordered existence and name checks.
- **CSRF tokens** (`Csrf`): salt plus digest. The digest function and the random bytes are parameters.

Each handler has two parts:

- A pure step function `XStep(tables, request…)` returns an `Outcome`: the tables after the request, and the response.
- A method `X(db, request…)` performs the writes one at a time on the `Database`. It is proved to end in exactly the outcome of `XStep`, and to keep `Db.Consistent`.

The lemmas next to each step function state what the handler promises:

- the order of its checks;
- that a refused request writes nothing;
- which rows change, and that no other row does;
- that the invariant is preserved.

In two places the code's evident intent and its behaviour part; the model follows the behaviour:

- **Deleting a storage that has no blocks.** The `if (blockIds.length)` guard (packages/api/src/routes/storages.route.ts:452) is meant to skip the box update for a storage without blocks. But the transaction reads the storage through an inner join with its blocks, so such a storage yields no row and the handler fails inside the transaction. The model returns `Internal` and changes nothing.
- **Duplicate country ids when adding a box.** The country query (packages/api/src/routes/storages.route.ts:1045-1089) is meant to check that every submitted country exists. It compares the number of distinct matched ids with the raw input length, so a duplicated country id is refused (`StoragesRoute.CountriesExistIff`).

One more place where the schema and the routes part:

- **Where a box lives.** The boxes table declares a `storageId` column, but the routes read and write `blockId`. The model follows the routes.

Updating a product under its own current name is refused as a conflict. The name query in the update does not exclude the product itself. The model keeps this behaviour, and `ProductsRoute.UpdateProductKeepingNameRefused` states it.

## Model

| member | source | states |
|---|---|---|
| Grid.GetBlocksFromDimension | packages/api/src/utils/storage.ts:26-44 | the nested loops produce exactly `Layout(row, column)` of the dimension's grid |
| Grid.LayoutLength | packages/api/src/utils/storage.ts:32-41 | the grid has rows × columns cells |
| Grid.LayoutMembers | packages/api/src/utils/storage.ts:32-41 | a cell is generated iff its row is in 1..rows, its column in 1..columns, and it carries its own name |
| Grid.LayoutAt | packages/api/src/utils/storage.ts:32-41 | row-major order: the cell (r, c) sits at index (r-1)·columns + (c-1) |
| Grid.LayoutDistinctCoordinates | packages/api/src/utils/storage.ts:32-41 | no two cells share a (row, column) pair |
| Grid.CharactersAreLetters | packages/api/src/utils/storage.ts:7-24 | the letter table holds the 16 letters A..P in order |
| Grid.CellNameInjective | packages/api/src/utils/storage.ts:33-36 | within 16 rows, the name `${letter}${col}` determines row and column |
| Grid.LayoutDistinctNames | packages/api/src/utils/storage.ts:32-41 | with at most 16 rows every block name is distinct |
| Grid.DimensionLayout | packages/api/src/utils/storage.ts:26-44 | an accepted "NxN" yields N·N cells, exactly those with row and column in 1..N |
| Grid.TwoByTwoLayout | packages/api/src/utils/storage.ts:32-41 | "2x2" yields A1, A2, B1, B2 in that order |
| StorageSchema.DimensionTokenShape | packages/api/src/common/storages.schema.ts:60-75 | a dimension is accepted iff it is "NxN" for some N in 1..7 |
| StorageSchema.StorageDimensionMap | packages/api/src/common/storages.schema.ts:77-109 | "NxN" maps to row = column = N, with N in 1..7 |
| Text.LikeLiteral | packages/api/src/routes/storages.route.ts:185-193 | a LIKE pattern without wildcards matches exactly the strings equal to it ignoring ASCII case |
| Text.LikeAnything | packages/api/src/routes/storages.route.ts:581 | the pattern "%" matches every string |
| Text.LikePrefix | packages/api/src/routes/storages.route.ts:581 | `name%` matches exactly the strings that start with `name`, ignoring ASCII case |
| Text.DecimalString | packages/api/src/utils/storage.ts:36 | `${col}` renders a number as a non-empty run of decimal digits |
| Text.DecimalStringInjective | packages/api/src/utils/storage.ts:36 | different numbers render differently |
| Seqs.ElementsCardinality | packages/api/src/routes/categories.route.ts:194-198 | `new Set(xs).size` ≤ `xs.length`, with equality iff no element repeats |
| Db.Database.constructor | packages/db/src/schema.ts:101-252 | an empty store, holding only users and countries, is consistent |
| Db.Database.Insert | packages/db/src/schema.ts:101-252 | an insert puts the row under the next fresh id and advances the counter |
| Db.Database.Log | packages/db/src/schema.ts:190-206 | a log entry is appended at the end |
| Db.InsertCategoryConsistent | packages/db/src/schema.ts:101-118 | inserting a category keeps the invariant |
| Db.InsertSubCategoryConsistent | packages/db/src/schema.ts:120-136 | inserting a sub-category of an existing category keeps the invariant |
| Db.InsertProductConsistent | packages/db/src/schema.ts:138-161 | inserting a product with existing references keeps the invariant |
| Db.InsertStorageConsistent | packages/db/src/schema.ts:163-188 | inserting a storage with existing references keeps the invariant |
| Db.InsertBlockConsistent | packages/db/src/schema.ts:208-224 | inserting a block of an existing storage keeps the invariant |
| Db.InsertBoxConsistent | packages/db/src/schema.ts:226-252 | inserting a box with valid counters and existing references keeps the invariant |
| Db.InsertBoxCountryConsistent | packages/db/src/schema.ts:254-272 | a join row between an existing box and country keeps the invariant |
| Db.UpdateBoxConsistent | packages/db/src/schema.ts:226-252 | rewriting a box with valid counters and the same references keeps the invariant |
| Db.UpdateCategoryConsistent | packages/db/src/schema.ts:101-118 | rewriting a category row keeps the invariant |
| Db.UpdateSubCategoriesConsistent | packages/db/src/schema.ts:120-136 | rewriting sub-category rows under the same ids and categories keeps the invariant |
| Db.UpdateProductConsistent | packages/db/src/schema.ts:138-161 | rewriting a product with existing references keeps the invariant |
| Db.AppendLogConsistent | packages/db/src/schema.ts:190-206 | a log entry for an existing storage keeps the invariant |
| StoragesRoute.StorageNameTakenLiteral | packages/api/src/routes/storages.route.ts:185-211 | a wildcard-free name conflicts exactly with the live storages of that name, ignoring ASCII case |
| StoragesRoute.StorageNamePercentTaken | packages/api/src/routes/storages.route.ts:185-211 | the submitted name is the LIKE pattern, so "%" conflicts with every live storage |
| StoragesRoute.InsertBlocksEffect | packages/api/src/routes/storages.route.ts:242-253 | one block per generated cell, under consecutive fresh ids and in order; nothing else changes |
| StoragesRoute.InsertBlocksConsistent | packages/api/src/routes/storages.route.ts:242-253 | blocks of an existing storage keep the invariant |
| StoragesRoute.CreateStorageChecks | packages/api/src/routes/storages.route.ts:171-211 | product, then supervisor, then name are checked; Ok iff all pass; a refusal writes nothing |
| StoragesRoute.StorageWithBlocksWrites | packages/api/src/routes/storages.route.ts:219-262 | the storage row, its blocks (exactly the cells, in order) and one log entry are written; nothing else changes |
| StoragesRoute.CreateStorageWrites | packages/api/src/routes/storages.route.ts:219-262 | a created storage gets exactly the blocks `getBlocksFromDimension` lists and one CREATE entry naming dimension and capacity |
| StoragesRoute.CreateStorageConsistent | packages/api/src/routes/storages.route.ts:167-275 | creating a storage keeps the invariant |
| StoragesRoute.CreateStorageTwiceConflicts | packages/api/src/routes/storages.route.ts:185-211 | after a create, a second create with the same wildcard-free name is refused |
| StoragesRoute.AddBlocks | packages/api/src/routes/storages.route.ts:242-253 | the insert loop performs exactly `InsertBlocks` |
| StoragesRoute.CreateStorage | packages/api/src/routes/storages.route.ts:167-275 | the handler ends in exactly `CreateStorageStep`'s outcome and keeps the invariant |
| StoragesRoute.DeleteStorageCascade | packages/api/src/routes/storages.route.ts:390-475 | the storage takes the date as `deletedAt` and `updatedAt` and the acting user as `updatedById`; its blocks and their boxes take the date as `deletedAt` and `updatedAt`; other storages, blocks and boxes keep their rows; one DELETE entry; no other table changes; a missing storage writes nothing |
| StoragesRoute.StampStorageConsistent | packages/api/src/routes/storages.route.ts:433-460 | the three soft-delete updates keep the invariant |
| StoragesRoute.DeleteStorageConsistent | packages/api/src/routes/storages.route.ts:390-475 | deleting a storage keeps the invariant |
| StoragesRoute.DeleteStorage | packages/api/src/routes/storages.route.ts:390-475 | the handler ends in exactly `DeleteStorageStep`'s outcome and keeps the invariant |
| StoragesRoute.CountriesExistIff | packages/api/src/routes/storages.route.ts:1045-1098 | `countriesExists` holds iff the ids are all known and none repeats |
| StoragesRoute.NewBox | packages/api/src/routes/storages.route.ts:729-740 | a new box has nothing checked out, is open, and keeps the counter invariant |
| StoragesRoute.InsertBoxCountriesEffect | packages/api/src/routes/storages.route.ts:753-763 | one join row per submitted country, in order, under fresh ids; nothing else changes |
| StoragesRoute.InsertBoxCountriesConsistent | packages/api/src/routes/storages.route.ts:753-763 | join rows between an existing box and existing countries keep the invariant |
| StoragesRoute.CreateBoxChecks | packages/api/src/routes/storages.route.ts:695-723 | storage, block of that storage, product, user, then countries are checked; Ok iff all pass; a refusal writes nothing |
| StoragesRoute.BoxWithCountriesWrites | packages/api/src/routes/storages.route.ts:728-770 | the box row, its join rows and one log entry are written; nothing else changes |
| StoragesRoute.CreateBoxWrites | packages/api/src/routes/storages.route.ts:728-770 | an added box starts with nothing checked out, gets one join row per country and one ADD_BOX entry |
| StoragesRoute.CreateBoxConsistent | packages/api/src/routes/storages.route.ts:691-785 | adding a box keeps the invariant |
| StoragesRoute.AddBoxCountries | packages/api/src/routes/storages.route.ts:753-763 | the insert loop performs exactly `InsertBoxCountries` |
| StoragesRoute.CreateBox | packages/api/src/routes/storages.route.ts:691-785 | the handler ends in exactly `CreateBoxStep`'s outcome and keeps the invariant |
| StoragesRoute.DeleteBoxEffect | packages/api/src/routes/storages.route.ts:786-883 | storage, block, then box (live, in that block, with a live product) are checked; a refusal writes nothing; only that box is stamped; sibling boxes are unchanged; one DELETE_BOX entry |
| StoragesRoute.DeleteBoxConsistent | packages/api/src/routes/storages.route.ts:786-883 | deleting a box keeps the invariant |
| StoragesRoute.DeleteStorageBox | packages/api/src/routes/storages.route.ts:786-883 | the handler ends in exactly `DeleteBoxStep`'s outcome and keeps the invariant |
| StoragesRoute.CheckoutDecisionSpec | packages/api/src/routes/storages.route.ts:946-962 | an exhausted or closed box refuses every request; otherwise exactly 1..remaining is accepted; `isAllCheckout` iff the request takes all that remain |
| StoragesRoute.CheckoutKeepsInvariant | packages/api/src/routes/storages.route.ts:992-1001 | the counter rises by exactly the request and stays ≤ total; `checkedOutAt` is set iff everything is now out |
| StoragesRoute.CheckoutMessageCases | packages/api/src/routes/storages.route.ts:1006-1013 | "all" iff nothing was out and all is taken; "last remaining" iff earlier checkouts and the rest is taken; otherwise partial |
| StoragesRoute.CheckoutScenario | packages/api/src/routes/storages.route.ts:946-1013 | a box of 5: taking 3, then 2, closes it with the "last remaining" wording; further requests are refused |
| StoragesRoute.CheckoutEffect | packages/api/src/routes/storages.route.ts:884-1026 | storage, block, box, then quantity are checked; a refusal writes nothing; success changes that box alone and logs one CHECKOUT_BOX entry |
| StoragesRoute.CheckoutConsistent | packages/api/src/routes/storages.route.ts:884-1026 | a checkout keeps the invariant, box counters included |
| StoragesRoute.Checkout | packages/api/src/routes/storages.route.ts:884-1026 | the handler ends in exactly `CheckoutStep`'s outcome and keeps the invariant |
| StoragesRoute.StorageLogs | packages/api/src/routes/storages.route.ts:476-538 | an invalid cursor is refused; a missing storage is refused; at most 20 entries, each of that storage, by an existing user and strictly before the bound (the cursor, or now when it is absent or 0) |
| StoragesRoute.StorageLogsNewest | packages/api/src/routes/storages.route.ts:499-526 | of the n selected entries the page holds min(20, n), and its i-th entry is the i-th newest selected one |
| StoragesRoute.StorageLogsComplete | packages/api/src/routes/storages.route.ts:500-526 | when fewer than a page are selected, every selected entry is returned |
| StoragesRoute.StorageLogsNewestFirst | packages/api/src/routes/storages.route.ts:525 | with a clock that never runs backwards, the page is in descending timestamp order |
| StoragesRoute.NextPageSelection | packages/api/src/routes/storages.route.ts:519-531 | with a clock that never runs backwards, the next cursor is at most every timestamp on the page, and the next query selects exactly the entries the previous one selected that are strictly older than it |
| StoragesRoute.CursorSkipsTiedEntry | packages/api/src/routes/storages.route.ts:519-531 | 21 selected entries of one second: the first page holds 20, the next cursor is that second, the page after it is empty, and the oldest entry is on neither page |
| StoragesRoute.TiedLogExists | packages/db/src/schema.ts:203-205 | a log of 21 entries of one storage within one second exists (the timestamp column has one-second resolution) |
| StoragesRoute.KeysetPagesSplit | packages/api/src/routes/storages.route.ts:519-531 | corrected cursor (bound, position of the oldest entry returned): the position strictly decreases, and the entries selected below the old position are exactly those below the new one followed by the page, so no entry is skipped or repeated |
| StoragesRoute.KeysetFirstPage | packages/api/src/routes/storages.route.ts:499-526 | the corrected first page lists the same entries, in the same order, as the source's first page |
| StoragesRoute.BlockBoxes | packages/api/src/routes/storages.route.ts:539-660 | a missing storage, then a block not of that storage, are refused; every listed id is a box of that block that is neither checked out in full nor deleted, and whose user and product rows exist |
| StoragesRoute.BlockBoxesSearchNarrows | packages/api/src/routes/storages.route.ts:581-640 | a search name fails exactly when the unfiltered listing does, and lists only boxes the unfiltered listing lists |
| StoragesRoute.BlockBoxesUnfiltered | packages/api/src/routes/storages.route.ts:581-640 | without a search name, all open, live boxes of the block are listed |
| StoragesRoute.BlockBoxesByPrefix | packages/api/src/routes/storages.route.ts:581-640 | with a non-empty search name containing neither `%` nor `_`, exactly the boxes whose product name starts with it (ignoring ASCII case) are listed; a search name with wildcards is matched as a SQLite LIKE pattern, which `BlockBoxes` models through `Like` |
| CategoriesRoute.UniqueNamesIff | packages/api/src/routes/categories.route.ts:194-204 | the names pass iff no two are equal ignoring ASCII case |
| CategoriesRoute.InsertSubCategoriesEffect | packages/api/src/routes/categories.route.ts:230-237 | one sub-category per name, in order, under consecutive fresh ids; nothing else changes |
| CategoriesRoute.InsertSubCategoriesConsistent | packages/api/src/routes/categories.route.ts:230-237 | sub-categories of an existing category keep the invariant |
| CategoriesRoute.CreateCategoryChecks | packages/api/src/routes/categories.route.ts:191-217 | duplicate names, then any category of that exact name (soft-deleted included) are refused; Ok iff neither; a refusal writes nothing |
| CategoriesRoute.CategoryWithSubCategoriesWrites | packages/api/src/routes/categories.route.ts:219-238 | the category row and exactly one sub-category of it per name are written; nothing else changes |
| CategoriesRoute.CreateCategoryWrites | packages/api/src/routes/categories.route.ts:219-238 | a created category gets exactly the submitted sub-categories, in order; only categories, sub-categories and the id counter change |
| CategoriesRoute.CreateCategoryConsistent | packages/api/src/routes/categories.route.ts:191-261 | creating a category keeps the invariant |
| CategoriesRoute.CreateCategoryTwiceConflicts | packages/api/src/routes/categories.route.ts:207-217 | after a create, a second create of the same name is a conflict |
| CategoriesRoute.AddSubCategories | packages/api/src/routes/categories.route.ts:230-237 | the insert loop performs exactly `InsertSubCategories` |
| CategoriesRoute.CreateCategory | packages/api/src/routes/categories.route.ts:191-261 | the handler ends in exactly `CreateCategoryStep`'s outcome and keeps the invariant |
| CategoriesRoute.DiffPartition | packages/api/src/routes/categories.route.ts:414-421 | items without id are new and items with id are renamed, and nothing else; each live sub-category is either kept (id submitted) or removed, never both |
| CategoriesRoute.RenameSubCategoriesEffect | packages/api/src/routes/categories.route.ts:446-466 | renames keep ids, categories and `deletedAt`; other categories' rows are untouched; each row of the category takes its last rename |
| CategoriesRoute.RenamesIssued | packages/api/src/routes/categories.route.ts:446-466 | ids issued before the request never name a row the request inserts |
| CategoriesRoute.ReconcileEffect | packages/api/src/routes/categories.route.ts:435-486 | row by row: inserts under fresh ids, last rename per row, removed rows stamped with the date, other categories untouched |
| CategoriesRoute.ReconcileLive | packages/api/src/routes/categories.route.ts:404-486 | after reconciling, the live sub-categories are the kept ones plus the inserted ones |
| CategoriesRoute.ReconcileSubmission | packages/api/src/routes/categories.route.ts:404-486 | only sub-categories and the id counter change; live sub-categories of the category afterwards are exactly the submitted existing ones plus one new row per added name, in order, under fresh ids; kept ones carry their last submitted name; unsubmitted ones carry the date as `deletedAt`; other categories' rows are untouched |
| CategoriesRoute.UpdateCategoryWrites | packages/api/src/routes/categories.route.ts:401-496 | on success the category row takes name, user and date, and the sub-categories satisfy every conclusion of `ReconcileSubmission`; products, storages and log are untouched |
| CategoriesRoute.SubmittedRenamed | packages/api/src/routes/categories.route.ts:416-417 | every submitted id has a rename |
| CategoriesRoute.UpdateCategoryChecks | packages/api/src/routes/categories.route.ts:353-399 | duplicate names, then an unknown id (a soft-deleted category passes), then another category of that name are refused; Ok iff none; a refusal writes nothing |
| CategoriesRoute.UpdateCategoryKeepsName | packages/api/src/routes/categories.route.ts:384-399 | keeping the category's own name is not a conflict |
| CategoriesRoute.ReconcileConsistent | packages/api/src/routes/categories.route.ts:435-486 | the reconciling writes keep the invariant |
| CategoriesRoute.UpdateCategoryConsistent | packages/api/src/routes/categories.route.ts:353-510 | updating a category keeps the invariant |
| CategoriesRoute.ApplyRenames | packages/api/src/routes/categories.route.ts:446-466 | the rename loop performs exactly `RenameSubCategories` and changes nothing else |
| CategoriesRoute.UpdateCategory | packages/api/src/routes/categories.route.ts:353-510 | the handler ends in exactly `UpdateCategoryStep`'s outcome and keeps the invariant |
| CategoriesRoute.DeleteCategoryEffect | packages/api/src/routes/categories.route.ts:511-553 | a missing or deleted category is refused with no write; otherwise it and each live sub-category get the date, no live sub-category remains, and others are untouched |
| CategoriesRoute.DeleteCategoryTwice | packages/api/src/routes/categories.route.ts:514-530 | a second delete is refused |
| CategoriesRoute.DeleteCategoryConsistent | packages/api/src/routes/categories.route.ts:511-553 | deleting a category keeps the invariant |
| CategoriesRoute.DeleteCategory | packages/api/src/routes/categories.route.ts:511-553 | the handler ends in exactly `DeleteCategoryStep`'s outcome and keeps the invariant |
| ProductsRoute.ProductChecksOrder | packages/api/src/routes/products.route.ts:197-243 | category, then sub-category of that category, then name are checked, in order; Ok iff all pass |
| ProductsRoute.DeletedNameReusable | packages/api/src/routes/products.route.ts:217-226 | a name held only by soft-deleted products is free |
| ProductsRoute.CreateProductEffect | packages/api/src/routes/products.route.ts:193-271 | a refusal writes nothing; success adds exactly one live product with the submitted fields under a fresh id |
| ProductsRoute.CreateProductConsistent | packages/api/src/routes/products.route.ts:193-271 | creating a product keeps the invariant |
| ProductsRoute.CreateProductTwiceConflicts | packages/api/src/routes/products.route.ts:217-243 | after a create, a second create of the same name is refused |
| ProductsRoute.CreateProduct | packages/api/src/routes/products.route.ts:193-271 | the handler ends in exactly `CreateProductStep`'s outcome and keeps the invariant |
| ProductsRoute.UpdateProductEffect | packages/api/src/routes/products.route.ts:344-428 | a refusal writes nothing; success rewrites only the row of that id (fields, user, date, `deletedAt` kept); an unknown id changes nothing |
| ProductsRoute.UpdateProductKeepingNameRefused | packages/api/src/routes/products.route.ts:369-395 | resubmitting a live product's current name is refused as a conflict |
| ProductsRoute.UpdateProductConsistent | packages/api/src/routes/products.route.ts:344-428 | updating a product keeps the invariant |
| ProductsRoute.UpdateProduct | packages/api/src/routes/products.route.ts:344-428 | the handler ends in exactly `UpdateProductStep`'s outcome and keeps the invariant |
| ProductsRoute.DeleteProductEffect | packages/api/src/routes/products.route.ts:429-460 | a missing or deleted product is refused with no write; otherwise only its row changes, taking the date; a second delete is refused |
| ProductsRoute.DeleteProductConsistent | packages/api/src/routes/products.route.ts:429-460 | deleting a product keeps the invariant |
| ProductsRoute.DeleteProduct | packages/api/src/routes/products.route.ts:429-460 | the handler ends in exactly `DeleteProductStep`'s outcome and keeps the invariant |
| Csrf.HexEncode | packages/api/src/utils/csrf-token.ts:6 | hex encoding yields two lower-case hex digits per byte |
| Csrf.GenerateSalt | packages/api/src/utils/csrf-token.ts:3-7 | a salt is 2·32 = 64 hex characters |
| Csrf.CreatedTokenValidates | packages/api/src/utils/csrf-token.ts:18-28 | a created token validates against the same secret |
| Csrf.ValidateCsrfTokenIff | packages/api/src/utils/csrf-token.ts:23-28 | an absent token is refused; a token is accepted iff it has 128 characters and its second half is the digest of its first half and the secret |
| Csrf.ExtendedTokenRejected | packages/api/src/utils/csrf-token.ts:25-27 | appending anything to a valid token makes it invalid |
| Csrf.ForgedDigestRejected | packages/api/src/utils/csrf-token.ts:25-27 | keeping the salt but changing the digest is refused |
| Csrf.OtherSecretRejected | packages/api/src/utils/csrf-token.ts:9-16 | a token is refused for another secret unless the two digests collide |

## Findings

| source | as written | input that shows it | evidently intended | confidence | as-written member | corrected member |
|---|---|---|---|---|---|---|
| packages/api/src/routes/storages.route.ts:519-531 | the next cursor is the timestamp of the last entry returned, and the next page takes entries strictly older than it | 21 entries of one storage logged within one second (the timestamp column has one-second resolution, packages/db/src/schema.ts:203-205): the first page holds 20, the cursor is that second, the next page is empty, and the oldest entry is never listed. Any two selected entries that share the second of a page's last entry, one on the page and one not, already show it; `StoragesRoute.NextPageSelection` states that general case | consecutive pages list every selected entry exactly once | not executed | StoragesRoute.CursorSkipsTiedEntry | StoragesRoute.KeysetPagesSplit |

The corrected cursor is a keyset: the query's bound plus the log position of the oldest entry returned. `StoragesRoute.KeysetFirstPage` shows that its first page equals the source's first page.

## Left out

- HTTP, JSON responses and zod parsing are left out. Request bodies arrive already parsed, as datatypes. The storage validators are predicates in `StorageSchema`.
- The length bounds of the category and product schemas (names of 1..100 characters, at least one sub-category on create) are left out. No behaviour modelled here depends on them.
- Fresh ids are drawn from a counter instead of `createId()`, and "now" and the acting user are parameters. Clock reads, randomness and SHA-256 are also parameters.
- The `Internal` responses for database failures are left out. The only `Internal` paths modelled are the ones the data can cause: a storage with no blocks, and a checkout whose product was deleted.
- Concurrency is left out. `Promise.all`, `pMap` and transaction isolation are modelled as one sequential store, with inserts and renames in submission order. The checkout's read before the transaction and its re-read inside it therefore coincide.
- Pagination, `orderBy(createdAt)` and total counts of the paginated listings are left out. So is the JSON aggregation of joined rows. The block-box listing is modelled as the set of listed box ids, and its separate count query (which does not filter by block) is not modelled.
- StoragesRoute.StorageLogs orders by position in the log, not by timestamp. `StorageLogsNewestFirst` shows the two agree whenever the clock never runs backwards. Entries with equal timestamps come newest position first; SQLite leaves their order unspecified.
- `new Date(cursor)` parsing is left out. The cursor is the `Cursor` datatype. An absent cursor and a cursor of 0 both mean now (`LogBound`), since 0 is falsy. A negative cursor is not representable, because times are natural numbers.
- CategoriesRoute.UniqueNamesIff folds ASCII letters only. JavaScript's `toLowerCase` folds every cased letter, so "É" and "é" are duplicates in the source but distinct in the model. The same gap reaches `CreateCategoryStep` and `UpdateCategoryStep`.
- CategoriesRoute.UniqueNames compares names under the same ASCII-only fold, for the same reason: Unicode case mapping is not modelled.
- StorageSchema.ValidCreateStorageBody counts string length in code points. zod's `.max` counts UTF-16 code units, so a name of 26 emoji is refused by the source and accepted by the model.
- Price and weight are `real`, not IEEE floats. Log messages are modelled by case and by the values they mention, not as strings.
- `totalBoxes` and the checkout quantity are whole numbers ≥ 1. The schema accepts any number ≥ 1, fractions included.
- CategoriesRoute.SubCategoryInput uses `None` both for a missing id and for an empty-string id, which `!c.id` treats alike.
- CategoriesRoute.UpdateCategoryWrites assumes every submitted id was issued before the request. Real ids are unguessable, so a submitted id cannot name a row the same request inserts.
- Read-only single-row lookups (get storage, category, product) and the paginated searches, with their `page`/`perPage` schema, are left out, along with users, sessions, authentication and the web client.
