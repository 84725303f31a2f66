/** The tables the route handlers read and write (packages/db/src/schema.ts),
    as maps from row id to record. Every table that can be soft-deleted keeps
    `deletedAt`; nothing is ever removed. Fresh ids come from one counter,
    standing for `createId()`. Users and countries are only read here, so they
    are sets of ids. */
module Db {
  import opened Common

  datatype Category = Category(
    name: string,
    createdById: Id,
    updatedById: Option<Id>,
    updatedAt: Option<Time>,
    deletedAt: Option<Time>)

  datatype SubCategory = SubCategory(
    name: string,
    categoryId: Id,
    updatedAt: Option<Time>,
    deletedAt: Option<Time>)

  datatype Product = Product(
    name: string,
    categoryId: Id,
    subCategoryId: Id,
    createdById: Id,
    updatedById: Option<Id>,
    updatedAt: Option<Time>,
    deletedAt: Option<Time>)

  datatype Storage = Storage(
    name: string,
    dimension: string,
    capacity: string,
    productId: Id,
    supervisorId: Id,
    createdById: Id,
    updatedById: Option<Id>,
    updatedAt: Option<Time>,
    deletedAt: Option<Time>)

  datatype Block = Block(
    name: string,
    row: nat,
    column: nat,
    storageId: Id,
    updatedAt: Option<Time>,
    deletedAt: Option<Time>)

  /** A row of `storage_boxes`; the routes place a box in a block by `blockId`. */
  datatype Box = Box(
    blockId: Id,
    productId: Id,
    userId: Id,
    grade: string,
    subGrade: Option<string>,
    weight: real,
    price: real,
    totalBoxes: nat,
    checkedOutBoxes: nat,
    checkedOutAt: Option<Time>,
    updatedAt: Option<Time>,
    deletedAt: Option<Time>)

  /** A row of `storage_boxes_countries`. */
  datatype BoxCountry = BoxCountry(boxId: Id, countryId: Id)

  /** `STORAGE_ACTIONS`. */
  datatype Action = Create | Update | Delete | Resize | AddBox | UpdateBox | DeleteBox | CheckoutBox

  /** The activity-log messages, by case and with the values they mention. */
  datatype LogMessage =
    | CreatedStorage(storageName: string, dimension: string, capacity: string)
    | DeletedStorage(storageName: string)
    | AddedBoxes(count: nat, productName: string, price: real, blockName: string)
    | DeletedBox(productName: string, blockName: string)
    | CheckedOutAll(total: nat, productName: string, blockName: string)
    | CheckedOutLastRemaining(count: nat, total: nat, productName: string, blockName: string)
    | CheckedOutSome(count: nat, productName: string, blockName: string)

  datatype ActivityLog = ActivityLog(
    action: Action,
    message: LogMessage,
    storageId: Id,
    userId: Id,
    timestamp: Time)

  /** One value of the whole database. */
  datatype Tables = Tables(
    users: set<Id>,
    countries: set<Id>,
    categories: map<Id, Category>,
    subCategories: map<Id, SubCategory>,
    products: map<Id, Product>,
    storages: map<Id, Storage>,
    blocks: map<Id, Block>,
    boxes: map<Id, Box>,
    boxCountries: map<Id, BoxCountry>,
    logs: seq<ActivityLog>,
    nextId: Id)

  /** A row to insert, tagged with its table. */
  datatype Row =
    | CategoryRow(category: Category)
    | SubCategoryRow(subCategory: SubCategory)
    | ProductRow(product: Product)
    | StorageRow(storage: Storage)
    | BlockRow(block: Block)
    | BoxRow(box: Box)
    | BoxCountryRow(boxCountry: BoxCountry)

  /** `tx.insert(table).values(row)`: the row gets the next fresh id. */
  function InsertCategory(t: Tables, c: Category): Tables {
    t.(categories := t.categories[t.nextId := c], nextId := t.nextId + 1)
  }

  function InsertSubCategory(t: Tables, s: SubCategory): Tables {
    t.(subCategories := t.subCategories[t.nextId := s], nextId := t.nextId + 1)
  }

  function InsertProduct(t: Tables, p: Product): Tables {
    t.(products := t.products[t.nextId := p], nextId := t.nextId + 1)
  }

  function InsertStorage(t: Tables, s: Storage): Tables {
    t.(storages := t.storages[t.nextId := s], nextId := t.nextId + 1)
  }

  function InsertBlock(t: Tables, b: Block): Tables {
    t.(blocks := t.blocks[t.nextId := b], nextId := t.nextId + 1)
  }

  function InsertBox(t: Tables, b: Box): Tables {
    t.(boxes := t.boxes[t.nextId := b], nextId := t.nextId + 1)
  }

  function InsertBoxCountry(t: Tables, j: BoxCountry): Tables {
    t.(boxCountries := t.boxCountries[t.nextId := j], nextId := t.nextId + 1)
  }

  function InsertRow(t: Tables, row: Row): Tables {
    match row
    case CategoryRow(c) => InsertCategory(t, c)
    case SubCategoryRow(s) => InsertSubCategory(t, s)
    case ProductRow(p) => InsertProduct(t, p)
    case StorageRow(s) => InsertStorage(t, s)
    case BlockRow(b) => InsertBlock(t, b)
    case BoxRow(b) => InsertBox(t, b)
    case BoxCountryRow(j) => InsertBoxCountry(t, j)
  }

  function AppendLog(t: Tables, log: ActivityLog): Tables {
    t.(logs := t.logs + [log])
  }

  /** Every key of the table is below `n`. */
  ghost predicate KeysBelow<V>(m: map<Id, V>, n: Id) {
    forall id :: id in m ==> id < n
  }

  /** Every id in use is below the counter, so the next insert cannot overwrite a row. */
  ghost predicate FreshIds(t: Tables) {
    && KeysBelow(t.categories, t.nextId)
    && KeysBelow(t.subCategories, t.nextId)
    && KeysBelow(t.products, t.nextId)
    && KeysBelow(t.storages, t.nextId)
    && KeysBelow(t.blocks, t.nextId)
    && KeysBelow(t.boxes, t.nextId)
    && KeysBelow(t.boxCountries, t.nextId)
  }

  /** The checkout counters of a box: at least one box, never more checked out
      than there are, and `checkedOutAt` set exactly when all are checked out. */
  predicate BoxInvariant(b: Box) {
    && b.totalBoxes >= 1
    && b.checkedOutBoxes <= b.totalBoxes
    && (b.checkedOutAt.Some? <==> b.checkedOutBoxes == b.totalBoxes)
  }

  ghost predicate BoxesValid(boxes: map<Id, Box>) {
    forall id :: id in boxes ==> BoxInvariant(boxes[id])
  }

  // The foreign keys of the schema: every reference names an existing row.

  ghost predicate SubCategoryRefs(subCategories: map<Id, SubCategory>, categories: set<Id>) {
    forall id :: id in subCategories ==> subCategories[id].categoryId in categories
  }

  ghost predicate ProductRefs(products: map<Id, Product>, categories: set<Id>, subCategories: set<Id>) {
    forall id :: id in products ==>
      products[id].categoryId in categories && products[id].subCategoryId in subCategories
  }

  ghost predicate StorageRefs(storages: map<Id, Storage>, products: set<Id>, users: set<Id>) {
    forall id :: id in storages ==> storages[id].productId in products && storages[id].supervisorId in users
  }

  ghost predicate BlockRefs(blocks: map<Id, Block>, storages: set<Id>) {
    forall id :: id in blocks ==> blocks[id].storageId in storages
  }

  ghost predicate BoxRefs(boxes: map<Id, Box>, blocks: set<Id>, products: set<Id>, users: set<Id>) {
    forall id :: id in boxes ==>
      boxes[id].blockId in blocks && boxes[id].productId in products && boxes[id].userId in users
  }

  ghost predicate BoxCountryRefs(boxCountries: map<Id, BoxCountry>, boxes: set<Id>, countries: set<Id>) {
    forall id :: id in boxCountries ==> boxCountries[id].boxId in boxes && boxCountries[id].countryId in countries
  }

  ghost predicate LogRefs(logs: seq<ActivityLog>, storages: set<Id>) {
    forall i :: 0 <= i < |logs| ==> logs[i].storageId in storages
  }

  ghost predicate References(t: Tables) {
    && SubCategoryRefs(t.subCategories, t.categories.Keys)
    && ProductRefs(t.products, t.categories.Keys, t.subCategories.Keys)
    && StorageRefs(t.storages, t.products.Keys, t.users)
    && BlockRefs(t.blocks, t.storages.Keys)
    && BoxRefs(t.boxes, t.blocks.Keys, t.products.Keys, t.users)
    && BoxCountryRefs(t.boxCountries, t.boxes.Keys, t.countries)
    && LogRefs(t.logs, t.storages.Keys)
  }

  /** The invariant every handler keeps. */
  ghost predicate Consistent(t: Tables) {
    FreshIds(t) && BoxesValid(t.boxes) && References(t)
  }

  /** What a handler leaves behind: the new tables and its response. */
  datatype Outcome<T> = Outcome(tables: Tables, result: Result<T>)

  /** The `isNull(deletedAt)` lookups the handlers share. */
  predicate ActiveCategory(t: Tables, id: Id) {
    id in t.categories && t.categories[id].deletedAt.None?
  }

  /** A live sub-category of the given category. */
  predicate ActiveSubCategoryOf(t: Tables, id: Id, categoryId: Id) {
    id in t.subCategories && t.subCategories[id].deletedAt.None? && t.subCategories[id].categoryId == categoryId
  }

  predicate ActiveProduct(t: Tables, id: Id) {
    id in t.products && t.products[id].deletedAt.None?
  }

  predicate ActiveStorage(t: Tables, id: Id) {
    id in t.storages && t.storages[id].deletedAt.None?
  }

  /** A live block of the given storage. */
  predicate ActiveBlockOf(t: Tables, id: Id, storageId: Id) {
    id in t.blocks && t.blocks[id].storageId == storageId && t.blocks[id].deletedAt.None?
  }

  /** The database before any handler ran: only users and countries. */
  function Empty(users: set<Id>, countries: set<Id>): Tables {
    Tables(users, countries, map[], map[], map[], map[], map[], map[], map[], [], 0)
  }

  /** The store the handlers share. */
  class Database {
    var users: set<Id>
    var countries: set<Id>
    var categories: map<Id, Category>
    var subCategories: map<Id, SubCategory>
    var products: map<Id, Product>
    var storages: map<Id, Storage>
    var blocks: map<Id, Block>
    var boxes: map<Id, Box>
    var boxCountries: map<Id, BoxCountry>
    var logs: seq<ActivityLog>
    var nextId: Id

    function State(): Tables
      reads this
    {
      Tables(users, countries, categories, subCategories, products, storages,
             blocks, boxes, boxCountries, logs, nextId)
    }

    ghost predicate Valid()
      reads this
    {
      Consistent(State())
    }

    constructor (users: set<Id>, countries: set<Id>)
      ensures State() == Empty(users, countries)
      ensures Valid()
    {
      this.users := users;
      this.countries := countries;
      categories, subCategories, products := map[], map[], map[];
      storages, blocks, boxes, boxCountries := map[], map[], map[], map[];
      logs := [];
      nextId := 0;
    }

    /** `insert(...).returning({ id })`. */
    method Insert(row: Row) returns (id: Id)
      modifies this
      ensures id == old(nextId)
      ensures State() == InsertRow(old(State()), row)
    {
      id := nextId;
      match row {
        case CategoryRow(c) => categories := categories[id := c];
        case SubCategoryRow(s) => subCategories := subCategories[id := s];
        case ProductRow(p) => products := products[id := p];
        case StorageRow(s) => storages := storages[id := s];
        case BlockRow(b) => blocks := blocks[id := b];
        case BoxRow(b) => boxes := boxes[id := b];
        case BoxCountryRow(j) => boxCountries := boxCountries[id := j];
      }
      nextId := nextId + 1;
    }

    /** `insert(storageActivityLogsTable)`. */
    method Log(log: ActivityLog)
      modifies this
      ensures State() == AppendLog(old(State()), log)
    {
      logs := logs + [log];
    }
  }

  // ------------------------------------------------------------ keeping the invariant

  /** A fresh key keeps every key below the raised counter. */
  lemma KeysBelowInsert<V>(m: map<Id, V>, n: Id, v: V)
    requires KeysBelow(m, n)
    ensures KeysBelow(m[n := v], n + 1)
  {
  }

  lemma KeysBelowRaise<V>(m: map<Id, V>, n: Id, k: Id)
    requires KeysBelow(m, n) && n <= k
    ensures KeysBelow(m, k)
  {
  }

  /** Raising the counter keeps every table's keys below it. */
  lemma FreshIdsRaise(t: Tables, k: Id)
    requires FreshIds(t) && t.nextId <= k
    ensures FreshIds(t.(nextId := k))
  {
    KeysBelowRaise(t.categories, t.nextId, k);
    KeysBelowRaise(t.subCategories, t.nextId, k);
    KeysBelowRaise(t.products, t.nextId, k);
    KeysBelowRaise(t.storages, t.nextId, k);
    KeysBelowRaise(t.blocks, t.nextId, k);
    KeysBelowRaise(t.boxes, t.nextId, k);
    KeysBelowRaise(t.boxCountries, t.nextId, k);
  }

  /** An insert into a table under `FreshIds` adds exactly one key, the old counter. */
  lemma InsertFreshKey<V>(m: map<Id, V>, n: Id, v: V)
    requires KeysBelow(m, n)
    ensures n !in m
    ensures m[n := v].Keys == m.Keys + {n}
  {
  }

  lemma InsertCategoryConsistent(t: Tables, c: Category)
    requires Consistent(t)
    ensures Consistent(InsertCategory(t, c))
  {
    var r := InsertCategory(t, c);
    FreshIdsRaise(t, r.nextId);
    KeysBelowInsert(t.categories, t.nextId, c);
    InsertFreshKey(t.categories, t.nextId, c);
  }

  lemma InsertSubCategoryConsistent(t: Tables, s: SubCategory)
    requires Consistent(t)
    requires s.categoryId in t.categories
    ensures Consistent(InsertSubCategory(t, s))
  {
    var r := InsertSubCategory(t, s);
    FreshIdsRaise(t, r.nextId);
    KeysBelowInsert(t.subCategories, t.nextId, s);
    InsertFreshKey(t.subCategories, t.nextId, s);
  }

  lemma InsertProductConsistent(t: Tables, p: Product)
    requires Consistent(t)
    requires p.categoryId in t.categories && p.subCategoryId in t.subCategories
    ensures Consistent(InsertProduct(t, p))
  {
    var r := InsertProduct(t, p);
    FreshIdsRaise(t, r.nextId);
    KeysBelowInsert(t.products, t.nextId, p);
    InsertFreshKey(t.products, t.nextId, p);
  }

  lemma InsertStorageConsistent(t: Tables, s: Storage)
    requires Consistent(t)
    requires s.productId in t.products && s.supervisorId in t.users
    ensures Consistent(InsertStorage(t, s))
  {
    var r := InsertStorage(t, s);
    FreshIdsRaise(t, r.nextId);
    KeysBelowInsert(t.storages, t.nextId, s);
    InsertFreshKey(t.storages, t.nextId, s);
  }

  lemma InsertBlockConsistent(t: Tables, b: Block)
    requires Consistent(t)
    requires b.storageId in t.storages
    ensures Consistent(InsertBlock(t, b))
  {
    var r := InsertBlock(t, b);
    FreshIdsRaise(t, r.nextId);
    KeysBelowInsert(t.blocks, t.nextId, b);
    InsertFreshKey(t.blocks, t.nextId, b);
  }

  lemma InsertBoxConsistent(t: Tables, b: Box)
    requires Consistent(t)
    requires BoxInvariant(b)
    requires b.blockId in t.blocks && b.productId in t.products && b.userId in t.users
    ensures Consistent(InsertBox(t, b))
  {
    var r := InsertBox(t, b);
    FreshIdsRaise(t, r.nextId);
    InsertBoxParts(t.boxes, t.nextId, b, t.blocks.Keys, t.products.Keys, t.users);
    BoxCountryRefsGrow(t.boxCountries, t.boxes.Keys, r.boxes.Keys, t.countries);
  }

  lemma InsertBoxParts(boxes: map<Id, Box>, n: Id, b: Box, blocks: set<Id>, products: set<Id>, users: set<Id>)
    requires BoxInvariant(b) && b.blockId in blocks && b.productId in products && b.userId in users
    requires KeysBelow(boxes, n) && BoxesValid(boxes) && BoxRefs(boxes, blocks, products, users)
    ensures boxes[n := b].Keys == boxes.Keys + {n}
    ensures KeysBelow(boxes[n := b], n + 1) && BoxesValid(boxes[n := b]) && BoxRefs(boxes[n := b], blocks, products, users)
  {
  }

  lemma BoxCountryRefsGrow(boxCountries: map<Id, BoxCountry>, boxes: set<Id>, boxes': set<Id>, countries: set<Id>)
    requires BoxCountryRefs(boxCountries, boxes, countries) && boxes <= boxes'
    ensures BoxCountryRefs(boxCountries, boxes', countries)
  {
  }

  lemma InsertBoxCountryConsistent(t: Tables, j: BoxCountry)
    requires Consistent(t)
    requires j.boxId in t.boxes && j.countryId in t.countries
    ensures Consistent(InsertBoxCountry(t, j))
  {
    var r := InsertBoxCountry(t, j);
    FreshIdsRaise(t, r.nextId);
    KeysBelowInsert(t.boxCountries, t.nextId, j);
    InsertFreshKey(t.boxCountries, t.nextId, j);
  }

  /** Rewriting one box with the same references and valid counters keeps
      the invariant. */
  lemma UpdateBoxConsistent(t: Tables, id: Id, b: Box)
    requires Consistent(t)
    requires id in t.boxes && BoxInvariant(b)
    requires b.blockId == t.boxes[id].blockId && b.productId == t.boxes[id].productId
    requires b.userId == t.boxes[id].userId
    ensures Consistent(t.(boxes := t.boxes[id := b]))
  {
    UpdateBoxParts(t.boxes, id, b, t.blocks.Keys, t.products.Keys, t.users, t.nextId);
  }

  lemma UpdateBoxParts(boxes: map<Id, Box>, id: Id, b: Box, blocks: set<Id>, products: set<Id>, users: set<Id>, n: Id)
    requires id in boxes && BoxInvariant(b)
    requires b.blockId == boxes[id].blockId && b.productId == boxes[id].productId && b.userId == boxes[id].userId
    requires KeysBelow(boxes, n) && BoxesValid(boxes) && BoxRefs(boxes, blocks, products, users)
    ensures boxes[id := b].Keys == boxes.Keys
    ensures KeysBelow(boxes[id := b], n) && BoxesValid(boxes[id := b]) && BoxRefs(boxes[id := b], blocks, products, users)
  {
  }

  /** Rewriting a category row keeps the invariant: references are to ids only. */
  lemma UpdateCategoryConsistent(t: Tables, id: Id, c: Category)
    requires Consistent(t)
    requires id in t.categories
    ensures Consistent(t.(categories := t.categories[id := c]))
  {
    KeepKeys(t.categories, id, c, t.nextId);
  }

  /** Rewriting one row under an existing key keeps the key set. */
  lemma KeepKeys<V>(m: map<Id, V>, id: Id, v: V, n: Id)
    requires id in m && KeysBelow(m, n)
    ensures m[id := v].Keys == m.Keys && KeysBelow(m[id := v], n)
  {
    assert m[id := v].Keys == m.Keys;
  }

  /** Replacing the sub-category table by one with the same ids, each under
      the same category, keeps the invariant. */
  lemma UpdateSubCategoriesConsistent(t: Tables, subCategories: map<Id, SubCategory>)
    requires Consistent(t)
    requires subCategories.Keys == t.subCategories.Keys
    requires forall id :: id in subCategories ==> subCategories[id].categoryId == t.subCategories[id].categoryId
    ensures Consistent(t.(subCategories := subCategories))
  {
    SameSubCategoryRefs(t.subCategories, subCategories, t.categories.Keys, t.nextId);
  }

  lemma SameSubCategoryRefs(old_: map<Id, SubCategory>, new_: map<Id, SubCategory>, categories: set<Id>, n: Id)
    requires new_.Keys == old_.Keys
    requires forall id :: id in new_ ==> new_[id].categoryId == old_[id].categoryId
    requires KeysBelow(old_, n) && SubCategoryRefs(old_, categories)
    ensures KeysBelow(new_, n) && SubCategoryRefs(new_, categories)
  {
  }

  /** Rewriting a product row with existing references keeps the invariant. */
  lemma UpdateProductConsistent(t: Tables, id: Id, p: Product)
    requires Consistent(t)
    requires id in t.products
    requires p.categoryId in t.categories && p.subCategoryId in t.subCategories
    ensures Consistent(t.(products := t.products[id := p]))
  {
    KeepKeys(t.products, id, p, t.nextId);
    UpdateProductRefs(t.products, id, p, t.categories.Keys, t.subCategories.Keys);
  }

  lemma UpdateProductRefs(products: map<Id, Product>, id: Id, p: Product, categories: set<Id>, subCategories: set<Id>)
    requires ProductRefs(products, categories, subCategories)
    requires p.categoryId in categories && p.subCategoryId in subCategories
    ensures ProductRefs(products[id := p], categories, subCategories)
  {
  }

  /** A log entry for an existing storage keeps the invariant. */
  lemma AppendLogConsistent(t: Tables, log: ActivityLog)
    requires Consistent(t)
    requires log.storageId in t.storages
    ensures Consistent(AppendLog(t, log))
  {
    var r := AppendLog(t, log);
    assert LogRefs(r.logs, r.storages.Keys) by {
      forall i | 0 <= i < |r.logs|
        ensures r.logs[i].storageId in r.storages.Keys
      {
        if i < |t.logs| {
          assert r.logs[i] == t.logs[i];
        }
      }
    }
  }
}
