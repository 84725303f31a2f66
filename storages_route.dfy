/** The storage handlers (packages/api/src/routes/storages.route.ts): create and
    soft-delete a storage with its blocks, add, delete and check out boxes, and
    the read-only activity-log and block-box queries.

    Each handler is a pure step function from the tables before the request to
    an `Outcome` (the tables after it and the response), and a method that
    performs the same writes one statement at a time on a `Database`. Each
    method's postcondition ties it to its step function; the lemmas state what
    the step functions do. A request the source rejects writes nothing: the
    checks run before the transaction, or the transaction rolls back. */
module StoragesRoute {
  import opened Common
  import opened Db
  import opened Text
  import opened StorageSchema
  import opened Grid
  import Seqs

  // ---------------------------------------------------------------- create storage

  /** The row `insert(storagesTable)` writes. */
  function NewStorage(body: CreateStorageBody, authUserId: Id, now: Time): Storage {
    Storage(body.name, body.dimension, body.capacity, body.productId, body.superVisorId,
            authUserId, None, Some(now), None)
  }

  /** The row written for one generated cell. */
  function NewBlock(cell: BlockCell, storageId: Id): Block {
    Block(cell.name, cell.row, cell.column, storageId, None, None)
  }

  /** `isNull(deletedAt) and like(name, body.name)`: the submitted name is the
      LIKE pattern and the stored names are matched against it. */
  predicate StorageNameTaken(t: Tables, name: string) {
    exists id :: id in t.storages && t.storages[id].deletedAt.None? && Like(t.storages[id].name, name)
  }

  /** A submitted name without wildcards conflicts exactly with the live
      storages whose names equal it ignoring ASCII case. */
  lemma StorageNameTakenLiteral(t: Tables, name: string)
    requires NoWildcards(name)
    ensures StorageNameTaken(t, name) <==>
      exists id :: id in t.storages && t.storages[id].deletedAt.None? &&
                   LowerString(t.storages[id].name) == LowerString(name)
  {
    forall id | id in t.storages {
      LikeLiteral(t.storages[id].name, name);
    }
  }

  /** The submitted name is used as the pattern, so the name "%" conflicts
      with every live storage. */
  lemma StorageNamePercentTaken(t: Tables)
    ensures StorageNameTaken(t, "%") <==> exists id :: id in t.storages && t.storages[id].deletedAt.None?
  {
    forall id | id in t.storages {
      LikeAnything(t.storages[id].name);
    }
  }

  /** The `pMap` over the generated cells: one block row per cell, in order. */
  function InsertBlocks(t: Tables, cells: seq<BlockCell>, storageId: Id): Tables
    decreases |cells|
  {
    if cells == [] then t
    else InsertBlocks(InsertBlock(t, NewBlock(cells[0], storageId)), cells[1..], storageId)
  }

  function CreateStorageStep(t: Tables, body: CreateStorageBody, authUserId: Id, now: Time): Outcome<Id>
    requires ValidCreateStorageBody(body)
  {
    if !ActiveProduct(t, body.productId) then Outcome(t, Err(NotFound(ProductRef)))
    else if body.superVisorId !in t.users then Outcome(t, Err(NotFound(SupervisorRef)))
    else if StorageNameTaken(t, body.name) then Outcome(t, Err(Conflict(StorageRef)))
    else
      var storageId := t.nextId;
      var grid := StorageDimensionMap(body.dimension);
      var t1 := InsertStorage(t, NewStorage(body, authUserId, now));
      var t2 := InsertBlocks(t1, Layout(grid.row, grid.column), storageId);
      var log := ActivityLog(Create, CreatedStorage(body.name, body.dimension, body.capacity),
                             storageId, authUserId, now);
      Outcome(AppendLog(t2, log), Ok(storageId))
  }

  /** Inserting the cells adds exactly one block per cell, under consecutive
      fresh ids and in the order of the cells, and changes nothing else. */
  lemma {:induction false} InsertBlocksEffect(t: Tables, cells: seq<BlockCell>, storageId: Id)
    requires KeysBelow(t.blocks, t.nextId)
    ensures var r := InsertBlocks(t, cells, storageId);
      && r == t.(blocks := r.blocks, nextId := t.nextId + |cells|)
      && (forall id :: id in r.blocks <==> id in t.blocks || t.nextId <= id < t.nextId + |cells|)
      && (forall id :: id in t.blocks ==> r.blocks[id] == t.blocks[id])
      && (forall k :: 0 <= k < |cells| ==> r.blocks[t.nextId + k] == NewBlock(cells[k], storageId))
    decreases |cells|
  {
    if cells != [] {
      var t1 := InsertBlock(t, NewBlock(cells[0], storageId));
      InsertBlocksEffect(t1, cells[1..], storageId);
      var r := InsertBlocks(t, cells, storageId);
      forall k | 0 <= k < |cells| ensures r.blocks[t.nextId + k] == NewBlock(cells[k], storageId) {
        if k > 0 {
          assert cells[1..][k - 1] == cells[k];
          assert t1.nextId + (k - 1) == t.nextId + k;
        }
      }
    }
  }

  /** Blocks of an existing storage keep the database consistent. */
  lemma {:induction false} InsertBlocksConsistent(t: Tables, cells: seq<BlockCell>, storageId: Id)
    requires Consistent(t)
    requires storageId in t.storages
    ensures Consistent(InsertBlocks(t, cells, storageId))
    decreases |cells|
  {
    if cells != [] {
      var t1 := InsertBlock(t, NewBlock(cells[0], storageId));
      InsertBlockConsistent(t, NewBlock(cells[0], storageId));
      InsertBlocksConsistent(t1, cells[1..], storageId);
    }
  }

  /** Creating a storage checks the product, then the supervisor, then the name;
      a rejected request writes nothing. */
  lemma CreateStorageChecks(t: Tables, body: CreateStorageBody, authUserId: Id, now: Time)
    requires ValidCreateStorageBody(body)
    ensures var o := CreateStorageStep(t, body, authUserId, now);
      && (!ActiveProduct(t, body.productId) ==> o.result == Err(NotFound(ProductRef)))
      && (ActiveProduct(t, body.productId) && body.superVisorId !in t.users ==>
            o.result == Err(NotFound(SupervisorRef)))
      && (ActiveProduct(t, body.productId) && body.superVisorId in t.users && StorageNameTaken(t, body.name) ==>
            o.result == Err(Conflict(StorageRef)))
      && (o.result.Ok? <==>
            ActiveProduct(t, body.productId) && body.superVisorId in t.users && !StorageNameTaken(t, body.name))
      && (o.result.Err? ==> o.tables == t)
  {
  }

  /** The writes of an accepted request, for any storage row, cells and log
      entry: the storage under the fresh id, one block of it per cell under the
      following ids and no other block of it, and the entry at the end of the
      log; nothing else changes. */
  lemma {:induction false} StorageWithBlocksWrites(t: Tables, s: Storage, cells: seq<BlockCell>, log: ActivityLog)
    requires FreshIds(t) && BlockRefs(t.blocks, t.storages.Keys)
    ensures var sid := t.nextId;
      var r := AppendLog(InsertBlocks(InsertStorage(t, s), cells, sid), log);
      && sid !in t.storages
      && r.storages == t.storages[sid := s]
      && (forall id :: id in r.blocks && r.blocks[id].storageId == sid <==> sid < id <= sid + |cells|)
      && (forall k :: 0 <= k < |cells| ==> r.blocks[sid + 1 + k] == NewBlock(cells[k], sid))
      && (forall id :: id in t.blocks ==> id in r.blocks && r.blocks[id] == t.blocks[id])
      && r.logs == t.logs + [log]
      && r == t.(storages := r.storages, blocks := r.blocks, logs := r.logs, nextId := sid + 1 + |cells|)
  {
    var sid := t.nextId;
    var t1 := InsertStorage(t, s);
    assert KeysBelow(t1.blocks, t1.nextId) by {
      KeysBelowRaise(t.blocks, t.nextId, t1.nextId);
    }
    InsertBlocksEffect(t1, cells, sid);
    var r := AppendLog(InsertBlocks(t1, cells, sid), log);
    forall id | sid < id <= sid + |cells| ensures id in r.blocks && r.blocks[id].storageId == sid {
      assert r.blocks[sid + 1 + (id - sid - 1)] == NewBlock(cells[id - sid - 1], sid);
    }
  }

  /** An accepted request inserts the storage under a fresh id, exactly the
      blocks `getBlocksFromDimension` lists for its dimension (in order, under
      the following ids, and no other block of that storage), and one CREATE
      log entry; the other tables keep their rows. */
  lemma CreateStorageWrites(t: Tables, body: CreateStorageBody, authUserId: Id, now: Time)
    requires FreshIds(t) && BlockRefs(t.blocks, t.storages.Keys)
    requires ValidCreateStorageBody(body)
    ensures var o := CreateStorageStep(t, body, authUserId, now);
      var grid := StorageDimensionMap(body.dimension);
      var cells := Layout(grid.row, grid.column);
      var sid := t.nextId;
      o.result.Ok? ==>
        && o.result.value == sid
        && sid !in t.storages
        && o.tables.storages == t.storages[sid := NewStorage(body, authUserId, now)]
        && (forall id :: id in o.tables.blocks && o.tables.blocks[id].storageId == sid <==>
              sid < id <= sid + |cells|)
        && (forall k :: 0 <= k < |cells| ==> o.tables.blocks[sid + 1 + k] == NewBlock(cells[k], sid))
        && (forall id :: id in t.blocks ==> id in o.tables.blocks && o.tables.blocks[id] == t.blocks[id])
        && o.tables.logs == t.logs + [ActivityLog(Create, CreatedStorage(body.name, body.dimension, body.capacity),
                                                  sid, authUserId, now)]
        && o.tables.boxes == t.boxes && o.tables.boxCountries == t.boxCountries
        && o.tables.products == t.products
        && o.tables.categories == t.categories && o.tables.subCategories == t.subCategories
  {
    var grid := StorageDimensionMap(body.dimension);
    StorageWithBlocksWrites(t, NewStorage(body, authUserId, now), Layout(grid.row, grid.column),
      ActivityLog(Create, CreatedStorage(body.name, body.dimension, body.capacity), t.nextId, authUserId, now));
  }

  /** Creating a storage keeps the database consistent. */
  lemma CreateStorageConsistent(t: Tables, body: CreateStorageBody, authUserId: Id, now: Time)
    requires Consistent(t)
    requires ValidCreateStorageBody(body)
    ensures Consistent(CreateStorageStep(t, body, authUserId, now).tables)
  {
    var o := CreateStorageStep(t, body, authUserId, now);
    if o.result.Ok? {
      var grid := StorageDimensionMap(body.dimension);
      var sid := t.nextId;
      var t1 := InsertStorage(t, NewStorage(body, authUserId, now));
      InsertStorageConsistent(t, NewStorage(body, authUserId, now));
      InsertBlocksConsistent(t1, Layout(grid.row, grid.column), sid);
      var t2 := InsertBlocks(t1, Layout(grid.row, grid.column), sid);
      InsertBlocksEffect(t1, Layout(grid.row, grid.column), sid);
      AppendLogConsistent(t2, ActivityLog(Create, CreatedStorage(body.name, body.dimension, body.capacity),
                                          sid, authUserId, now));
    }
  }

  /** Once a storage is created under a name without wildcards, a second
      request with the same name is refused as a conflict. */
  lemma CreateStorageTwiceConflicts(t: Tables, body: CreateStorageBody, authUserId: Id, now: Time,
                                    body2: CreateStorageBody, now2: Time)
    requires Consistent(t)
    requires ValidCreateStorageBody(body) && ValidCreateStorageBody(body2)
    requires NoWildcards(body.name) && body2.name == body.name
    requires CreateStorageStep(t, body, authUserId, now).result.Ok?
    ensures var t1 := CreateStorageStep(t, body, authUserId, now).tables;
      CreateStorageStep(t1, body2, authUserId, now2).result.Err?
  {
    CreateStorageWrites(t, body, authUserId, now);
    var t1 := CreateStorageStep(t, body, authUserId, now).tables;
    LikeLiteral(body.name, body.name);
    assert t1.storages[t.nextId].name == body.name;
    assert StorageNameTaken(t1, body2.name);
  }

  /** The `pMap` that inserts one block row per generated cell. */
  method AddBlocks(db: Database, cells: seq<BlockCell>, storageId: Id)
    modifies db
    ensures db.State() == InsertBlocks(old(db.State()), cells, storageId)
  {
    ghost var final := InsertBlocks(db.State(), cells, storageId);
    var i := 0;
    while i < |cells|
      invariant 0 <= i <= |cells|
      invariant InsertBlocks(db.State(), cells[i..], storageId) == final
    {
      assert cells[i..][1..] == cells[i + 1..];
      var blockId := db.Insert(BlockRow(NewBlock(cells[i], storageId)));
      i := i + 1;
    }
  }

  /** `POST /storages`. */
  method CreateStorage(db: Database, body: CreateStorageBody, authUserId: Id, now: Time) returns (r: Result<Id>)
    requires db.Valid()
    requires ValidCreateStorageBody(body)
    modifies db
    ensures db.Valid()
    ensures Outcome(db.State(), r) == CreateStorageStep(old(db.State()), body, authUserId, now)
  {
    var t := db.State();
    if !ActiveProduct(t, body.productId) {
      return Err(NotFound(ProductRef));
    }
    if body.superVisorId !in db.users {
      return Err(NotFound(SupervisorRef));
    }
    if StorageNameTaken(t, body.name) {
      return Err(Conflict(StorageRef));
    }
    var storageId := db.Insert(StorageRow(NewStorage(body, authUserId, now)));
    var cells := GetBlocksFromDimension(body.dimension);
    AddBlocks(db, cells, storageId);
    db.Log(ActivityLog(Create, CreatedStorage(body.name, body.dimension, body.capacity), storageId, authUserId, now));
    r := Ok(storageId);
    CreateStorageConsistent(t, body, authUserId, now);
  }

  // ---------------------------------------------------------------- delete storage

  /** The blocks the inner join of the delete transaction finds: every block
      with that `storageId`, soft-deleted or not. */
  function BlocksOf(t: Tables, storageId: Id): set<Id> {
    set id | id in t.blocks && t.blocks[id].storageId == storageId
  }

  function SoftDeletedBlock(b: Block, now: Time): Block {
    b.(deletedAt := Some(now), updatedAt := Some(now))
  }

  function SoftDeletedBox(b: Box, now: Time): Box {
    b.(deletedAt := Some(now), updatedAt := Some(now))
  }

  function SoftDeletedStorage(s: Storage, authUserId: Id, now: Time): Storage {
    s.(deletedAt := Some(now), updatedAt := Some(now), updatedById := Some(authUserId))
  }

  /** `update(storageBlocksTable).where(eq(storageId, id))`. */
  function StampBlocks(blocks: map<Id, Block>, storageId: Id, now: Time): map<Id, Block> {
    map id | id in blocks :: if blocks[id].storageId == storageId then SoftDeletedBlock(blocks[id], now) else blocks[id]
  }

  /** `update(storageBoxesTable).where(inArray(blockId, blockIds))`. */
  function StampBoxes(boxes: map<Id, Box>, blockIds: set<Id>, now: Time): map<Id, Box> {
    map id | id in boxes :: if boxes[id].blockId in blockIds then SoftDeletedBox(boxes[id], now) else boxes[id]
  }

  /** The three updates of the delete transaction: the storage, every block
      of it, and every box in one of those blocks. */
  function StampStorage(t: Tables, storageId: Id, authUserId: Id, now: Time): Tables
    requires storageId in t.storages
  {
    t.(storages := t.storages[storageId := SoftDeletedStorage(t.storages[storageId], authUserId, now)],
       blocks := StampBlocks(t.blocks, storageId, now),
       boxes := StampBoxes(t.boxes, BlocksOf(t, storageId), now))
  }

  /** A storage without any block makes the transaction's inner join empty; the
      handler then fails inside the transaction, which rolls back. */
  function DeleteStorageStep(t: Tables, storageId: Id, authUserId: Id, now: Time): Outcome<()> {
    if !ActiveStorage(t, storageId) then Outcome(t, Err(NotFound(StorageRef)))
    else if BlocksOf(t, storageId) == {} then Outcome(t, Err(Internal))
    else
      var log := ActivityLog(Delete, DeletedStorage(t.storages[storageId].name), storageId, authUserId, now);
      Outcome(AppendLog(StampStorage(t, storageId, authUserId, now), log), Ok(()))
  }

  /** Deleting a storage stamps one date on the storage (with the acting
      user), on every block of that storage and on every box in one of those
      blocks, as `deletedAt` and `updatedAt`; other storages, blocks and boxes
      keep their rows, no row is added or removed, exactly one DELETE entry is
      logged, and no other table changes. A missing or deleted storage is rejected and
      nothing changes. */
  lemma DeleteStorageCascade(t: Tables, storageId: Id, authUserId: Id, now: Time)
    requires BoxRefs(t.boxes, t.blocks.Keys, t.products.Keys, t.users)
    ensures var o := DeleteStorageStep(t, storageId, authUserId, now);
      && (!ActiveStorage(t, storageId) ==> o.result == Err(NotFound(StorageRef)))
      && (o.result.Ok? <==> ActiveStorage(t, storageId) && BlocksOf(t, storageId) != {})
      && (o.result.Err? ==> o.tables == t)
    ensures var o := DeleteStorageStep(t, storageId, authUserId, now);
      o.result.Ok? ==>
        && o.tables.storages.Keys == t.storages.Keys
        && o.tables.storages[storageId] == SoftDeletedStorage(t.storages[storageId], authUserId, now)
        && o.tables.storages[storageId].deletedAt == Some(now)
        && (forall id :: id in t.storages && id != storageId ==> o.tables.storages[id] == t.storages[id])
        && o.tables.blocks.Keys == t.blocks.Keys
        && (forall id :: id in t.blocks && t.blocks[id].storageId == storageId ==>
              o.tables.blocks[id] == SoftDeletedBlock(t.blocks[id], now) && o.tables.blocks[id].deletedAt == Some(now))
        && (forall id :: id in t.blocks && t.blocks[id].storageId != storageId ==>
              o.tables.blocks[id] == t.blocks[id])
        && o.tables.boxes.Keys == t.boxes.Keys
        && (forall id :: id in t.boxes && t.blocks[t.boxes[id].blockId].storageId == storageId ==>
              o.tables.boxes[id] == SoftDeletedBox(t.boxes[id], now) && o.tables.boxes[id].deletedAt == Some(now))
        && (forall id :: id in t.boxes && t.blocks[t.boxes[id].blockId].storageId != storageId ==>
              o.tables.boxes[id] == t.boxes[id])
        && o.tables.logs == t.logs + [ActivityLog(Delete, DeletedStorage(t.storages[storageId].name),
                                                  storageId, authUserId, now)]
        && o.tables == t.(storages := o.tables.storages, blocks := o.tables.blocks, boxes := o.tables.boxes,
                          logs := o.tables.logs)
  {
    var o := DeleteStorageStep(t, storageId, authUserId, now);
    if o.result.Ok? {
      var ids := BlocksOf(t, storageId);
      forall id | id in t.boxes
        ensures t.boxes[id].blockId in ids <==> t.blocks[t.boxes[id].blockId].storageId == storageId
      {
        assert t.boxes[id].blockId in t.blocks;
      }
    }
  }

  /** Stamping the storage row keeps its key and references. */
  lemma StampStorageRowKeeps(storages: map<Id, Storage>, storageId: Id, authUserId: Id, now: Time,
                             products: set<Id>, users: set<Id>, n: Id)
    requires storageId in storages
    requires KeysBelow(storages, n) && StorageRefs(storages, products, users)
    ensures var r := storages[storageId := SoftDeletedStorage(storages[storageId], authUserId, now)];
      r.Keys == storages.Keys && KeysBelow(r, n) && StorageRefs(r, products, users)
  {
    var r := storages[storageId := SoftDeletedStorage(storages[storageId], authUserId, now)];
    assert r.Keys == storages.Keys;
  }

  /** Stamping keeps every block and its storage. */
  lemma StampBlocksKeeps(blocks: map<Id, Block>, storageId: Id, now: Time, storages: set<Id>, n: Id)
    requires KeysBelow(blocks, n) && BlockRefs(blocks, storages)
    ensures var r := StampBlocks(blocks, storageId, now);
      r.Keys == blocks.Keys && KeysBelow(r, n) && BlockRefs(r, storages)
  {
  }

  /** Stamping keeps every box, its references and its checkout counters. */
  lemma StampBoxesKeeps(boxes: map<Id, Box>, blockIds: set<Id>, now: Time,
                        blocks: set<Id>, products: set<Id>, users: set<Id>, n: Id)
    requires KeysBelow(boxes, n) && BoxesValid(boxes) && BoxRefs(boxes, blocks, products, users)
    ensures var r := StampBoxes(boxes, blockIds, now);
      r.Keys == boxes.Keys && KeysBelow(r, n) && BoxesValid(r) && BoxRefs(r, blocks, products, users)
  {
    var r := StampBoxes(boxes, blockIds, now);
    forall id | id in r ensures BoxInvariant(r[id]) {
      assert BoxInvariant(boxes[id]);
    }
  }

  /** Stamping changes no key, reference or checkout counter. */
  lemma StampStorageConsistent(t: Tables, storageId: Id, authUserId: Id, now: Time)
    requires Consistent(t)
    requires storageId in t.storages
    ensures Consistent(StampStorage(t, storageId, authUserId, now))
  {
    StampStorageRowKeeps(t.storages, storageId, authUserId, now, t.products.Keys, t.users, t.nextId);
    StampBlocksKeeps(t.blocks, storageId, now, t.storages.Keys, t.nextId);
    StampBoxesKeeps(t.boxes, BlocksOf(t, storageId), now, t.blocks.Keys, t.products.Keys, t.users, t.nextId);
  }

  /** Soft-deleting keeps the database consistent: no row disappears and no
      reference or checkout counter changes. */
  lemma DeleteStorageConsistent(t: Tables, storageId: Id, authUserId: Id, now: Time)
    requires Consistent(t)
    ensures Consistent(DeleteStorageStep(t, storageId, authUserId, now).tables)
  {
    if DeleteStorageStep(t, storageId, authUserId, now).result.Ok? {
      StampStorageConsistent(t, storageId, authUserId, now);
      AppendLogConsistent(StampStorage(t, storageId, authUserId, now),
        ActivityLog(Delete, DeletedStorage(t.storages[storageId].name), storageId, authUserId, now));
    }
  }

  /** `DELETE /storages/{id}`: the storage, then its blocks, then their boxes,
      then the log entry. */
  method DeleteStorage(db: Database, storageId: Id, authUserId: Id, now: Time) returns (r: Result<()>)
    requires db.Valid()
    modifies db
    ensures db.Valid()
    ensures Outcome(db.State(), r) == DeleteStorageStep(old(db.State()), storageId, authUserId, now)
  {
    ghost var t := db.State();
    if !ActiveStorage(db.State(), storageId) {
      return Err(NotFound(StorageRef));
    }
    var blockIds := BlocksOf(db.State(), storageId);
    if blockIds == {} {
      return Err(Internal);
    }
    var storage := db.storages[storageId];
    db.storages := db.storages[storageId := SoftDeletedStorage(storage, authUserId, now)];
    db.blocks := StampBlocks(db.blocks, storageId, now);
    db.boxes := StampBoxes(db.boxes, blockIds, now);
    db.Log(ActivityLog(Delete, DeletedStorage(storage.name), storageId, authUserId, now));
    r := Ok(());
    DeleteStorageConsistent(t, storageId, authUserId, now);
  }

  // ---------------------------------------------------------------- add box

  /** `countriesExists` of `checkDoesExistsInDB`: the number of distinct known
      countries among the submitted ids equals the number of submitted ids. */
  predicate CountriesExist(t: Tables, ids: seq<Id>) {
    |KnownCountries(t, ids)| == |ids|
  }

  /** The distinct submitted ids that name a country. */
  function KnownCountries(t: Tables, ids: seq<Id>): set<Id> {
    set c | c in ids && c in t.countries
  }

  /** The check passes exactly when every submitted country exists and none is
      submitted twice. */
  lemma CountriesExistIff(t: Tables, ids: seq<Id>)
    ensures CountriesExist(t, ids) <==>
      Seqs.Distinct(ids) && forall i :: 0 <= i < |ids| ==> ids[i] in t.countries
  {
    var known := KnownCountries(t, ids);
    var all := Seqs.Elements(ids);
    Seqs.ElementsCardinality(ids);
    Seqs.SubsetCardinality(known, all);
    if forall i :: 0 <= i < |ids| ==> ids[i] in t.countries {
      assert known == all;
    } else {
      var i :| 0 <= i < |ids| && ids[i] !in t.countries;
      assert ids[i] in ids;
      assert ids[i] in all && ids[i] !in known;
    }
  }

  /** The row the add-box transaction inserts: nothing checked out yet. */
  function NewBox(body: CreateStorageBoxBody, blockId: Id): (b: Box)
    requires ValidCreateStorageBoxBody(body)
    ensures BoxInvariant(b)
    ensures b.checkedOutBoxes == 0 && b.checkedOutAt.None? && b.deletedAt.None?
  {
    Box(blockId, body.productId, body.userId, body.grade, body.subGrade, body.weight, body.price,
        body.totalBoxes as nat, 0, None, None, None)
  }

  /** The `pMap` over the submitted countries: one join row each, in order. */
  function InsertBoxCountries(t: Tables, boxId: Id, countries: seq<Id>): Tables
    decreases |countries|
  {
    if countries == [] then t
    else InsertBoxCountries(InsertBoxCountry(t, BoxCountry(boxId, countries[0])), boxId, countries[1..])
  }

  function CreateBoxStep(t: Tables, storageId: Id, blockId: Id, body: CreateStorageBoxBody,
                         authUserId: Id, now: Time): Outcome<Id>
    requires ValidCreateStorageBoxBody(body)
  {
    if !ActiveStorage(t, storageId) then Outcome(t, Err(NotFound(StorageRef)))
    else if !ActiveBlockOf(t, blockId, storageId) then Outcome(t, Err(NotFound(BlockRef)))
    else if !ActiveProduct(t, body.productId) then Outcome(t, Err(NotFound(ProductRef)))
    else if body.userId !in t.users then Outcome(t, Err(NotFound(UserRef)))
    else if !CountriesExist(t, body.countries) then Outcome(t, Err(NotFound(CountryRefs)))
    else
      var boxId := t.nextId;
      var t1 := InsertBox(t, NewBox(body, blockId));
      var t2 := InsertBoxCountries(t1, boxId, body.countries);
      var log := ActivityLog(AddBox, AddedBoxes(body.totalBoxes as nat, t.products[body.productId].name,
                                                body.price, t.blocks[blockId].name),
                             storageId, authUserId, now);
      Outcome(AppendLog(t2, log), Ok(boxId))
  }

  /** Inserting the join rows adds one row per country, under consecutive
      fresh ids and in order, and changes nothing else. */
  lemma {:induction false} InsertBoxCountriesEffect(t: Tables, boxId: Id, countries: seq<Id>)
    requires KeysBelow(t.boxCountries, t.nextId)
    ensures var r := InsertBoxCountries(t, boxId, countries);
      && r == t.(boxCountries := r.boxCountries, nextId := t.nextId + |countries|)
      && (forall id :: id in r.boxCountries <==> id in t.boxCountries || t.nextId <= id < t.nextId + |countries|)
      && (forall id :: id in t.boxCountries ==> r.boxCountries[id] == t.boxCountries[id])
      && (forall k :: 0 <= k < |countries| ==> r.boxCountries[t.nextId + k] == BoxCountry(boxId, countries[k]))
    decreases |countries|
  {
    if countries != [] {
      var t1 := InsertBoxCountry(t, BoxCountry(boxId, countries[0]));
      InsertBoxCountriesEffect(t1, boxId, countries[1..]);
      var r := InsertBoxCountries(t, boxId, countries);
      forall k | 0 <= k < |countries| ensures r.boxCountries[t.nextId + k] == BoxCountry(boxId, countries[k]) {
        if k > 0 {
          assert countries[1..][k - 1] == countries[k];
          assert t1.nextId + (k - 1) == t.nextId + k;
        }
      }
    }
  }

  /** Join rows between an existing box and existing countries keep the
      database consistent. */
  lemma {:induction false} InsertBoxCountriesConsistent(t: Tables, boxId: Id, countries: seq<Id>)
    requires Consistent(t)
    requires boxId in t.boxes
    requires forall i :: 0 <= i < |countries| ==> countries[i] in t.countries
    ensures Consistent(InsertBoxCountries(t, boxId, countries))
    decreases |countries|
  {
    if countries != [] {
      InsertBoxCountryConsistent(t, BoxCountry(boxId, countries[0]));
      InsertBoxCountriesConsistent(InsertBoxCountry(t, BoxCountry(boxId, countries[0])), boxId, countries[1..]);
    }
  }

  /** Adding a box checks the storage, then the block (live, of that storage),
      then the product, then the user, then the countries; a rejected request
      writes nothing. */
  lemma CreateBoxChecks(t: Tables, storageId: Id, blockId: Id, body: CreateStorageBoxBody, authUserId: Id, now: Time)
    requires ValidCreateStorageBoxBody(body)
    ensures var o := CreateBoxStep(t, storageId, blockId, body, authUserId, now);
      && (!ActiveStorage(t, storageId) ==> o.result == Err(NotFound(StorageRef)))
      && (ActiveStorage(t, storageId) && !ActiveBlockOf(t, blockId, storageId) ==>
            o.result == Err(NotFound(BlockRef)))
      && (ActiveStorage(t, storageId) && ActiveBlockOf(t, blockId, storageId) && !ActiveProduct(t, body.productId) ==>
            o.result == Err(NotFound(ProductRef)))
      && ((ActiveStorage(t, storageId) && ActiveBlockOf(t, blockId, storageId) && ActiveProduct(t, body.productId)
           && body.userId !in t.users) ==> o.result == Err(NotFound(UserRef)))
      && (o.result.Ok? <==>
            && ActiveStorage(t, storageId) && ActiveBlockOf(t, blockId, storageId) && ActiveProduct(t, body.productId)
            && body.userId in t.users
            && Seqs.Distinct(body.countries)
            && forall i :: 0 <= i < |body.countries| ==> body.countries[i] in t.countries)
      && (o.result.Err? ==> o.tables == t)
  {
    CountriesExistIff(t, body.countries);
  }

  /** The join rows after adding box `boxId`: the box has exactly one row
      per country of `cs`, in order, under the ids right after its own, and
      every earlier row is kept. */
  ghost predicate JoinsOfNewBox(before: map<Id, BoxCountry>, after: map<Id, BoxCountry>, boxId: Id, cs: seq<Id>) {
    && (forall id :: id in after && after[id].boxId == boxId <==> boxId < id <= boxId + |cs|)
    && (forall k :: 0 <= k < |cs| ==> boxId + 1 + k in after && after[boxId + 1 + k] == BoxCountry(boxId, cs[k]))
    && (forall id :: id in before ==> id in after && after[id] == before[id])
  }

  /** The writes of an accepted request, for any box row, countries and log
      entry: the box under the fresh id, one join row of it per country under
      the following ids and no other join row of it, and the entry at the end
      of the log; nothing else changes. */
  lemma BoxWithCountriesWrites(t: Tables, b: Box, cs: seq<Id>, log: ActivityLog)
    requires FreshIds(t) && BoxCountryRefs(t.boxCountries, t.boxes.Keys, t.countries)
    ensures var bid := t.nextId;
      var r := AppendLog(InsertBoxCountries(InsertBox(t, b), bid, cs), log);
      && bid !in t.boxes
      && r.boxes == t.boxes[bid := b]
      && JoinsOfNewBox(t.boxCountries, r.boxCountries, bid, cs)
      && r.logs == t.logs + [log]
      && r == t.(boxes := r.boxes, boxCountries := r.boxCountries, logs := r.logs, nextId := bid + 1 + |cs|)
  {
    var bid := t.nextId;
    var t1 := InsertBox(t, b);
    assert KeysBelow(t1.boxCountries, t1.nextId) by {
      KeysBelowRaise(t.boxCountries, t.nextId, t1.nextId);
    }
    InsertBoxCountriesEffect(t1, bid, cs);
    assert forall id :: id in t1.boxCountries ==> t1.boxCountries[id].boxId != bid;
    NewBoxJoins(t1, bid, cs);
  }

  /** The join rows of a box that had none: inserting one row per country of
      `cs` right after the box's id gives the box exactly those rows. */
  lemma NewBoxJoins(t: Tables, boxId: Id, cs: seq<Id>)
    requires t.nextId == boxId + 1
    requires KeysBelow(t.boxCountries, t.nextId)
    requires forall id :: id in t.boxCountries ==> t.boxCountries[id].boxId != boxId
    ensures JoinsOfNewBox(t.boxCountries, InsertBoxCountries(t, boxId, cs).boxCountries, boxId, cs)
  {
    InsertBoxCountriesEffect(t, boxId, cs);
    var joins := InsertBoxCountries(t, boxId, cs).boxCountries;
    forall id | boxId < id <= boxId + |cs| ensures id in joins && joins[id].boxId == boxId {
      assert joins[t.nextId + (id - t.nextId)] == BoxCountry(boxId, cs[id - t.nextId]);
    }
    forall k | 0 <= k < |cs| ensures boxId + 1 + k in joins && joins[boxId + 1 + k] == BoxCountry(boxId, cs[k]) {
      assert t.nextId + k == boxId + 1 + k;
    }
  }

  /** An accepted request inserts one box with nothing checked out under a
      fresh id, one join row per submitted country (in order, under the
      following ids, and no other join row of that box) and one ADD_BOX entry. */
  lemma CreateBoxWrites(t: Tables, storageId: Id, blockId: Id, body: CreateStorageBoxBody, authUserId: Id, now: Time)
    requires FreshIds(t) && BoxCountryRefs(t.boxCountries, t.boxes.Keys, t.countries)
    requires ValidCreateStorageBoxBody(body)
    ensures var o := CreateBoxStep(t, storageId, blockId, body, authUserId, now);
      var bid := t.nextId;
      var cs := body.countries;
      o.result.Ok? ==>
        && o.result.value == bid
        && bid !in t.boxes
        && o.tables.boxes == t.boxes[bid := NewBox(body, blockId)]
        && JoinsOfNewBox(t.boxCountries, o.tables.boxCountries, bid, cs)
        && o.tables.logs == t.logs + [ActivityLog(AddBox, AddedBoxes(body.totalBoxes as nat,
                                        t.products[body.productId].name, body.price, t.blocks[blockId].name),
                                        storageId, authUserId, now)]
        && o.tables == t.(boxes := o.tables.boxes, boxCountries := o.tables.boxCountries,
                          logs := o.tables.logs, nextId := bid + 1 + |cs|)
  {
    if CreateBoxStep(t, storageId, blockId, body, authUserId, now).result.Ok? {
      BoxWithCountriesWrites(t, NewBox(body, blockId), body.countries,
        ActivityLog(AddBox, AddedBoxes(body.totalBoxes as nat, t.products[body.productId].name, body.price,
                                       t.blocks[blockId].name), storageId, authUserId, now));
    }
  }

  /** Adding a box keeps the database consistent. */
  lemma CreateBoxConsistent(t: Tables, storageId: Id, blockId: Id, body: CreateStorageBoxBody, authUserId: Id, now: Time)
    requires Consistent(t)
    requires ValidCreateStorageBoxBody(body)
    ensures Consistent(CreateBoxStep(t, storageId, blockId, body, authUserId, now).tables)
  {
    var o := CreateBoxStep(t, storageId, blockId, body, authUserId, now);
    if o.result.Ok? {
      var bid := t.nextId;
      var t1 := InsertBox(t, NewBox(body, blockId));
      InsertBoxConsistent(t, NewBox(body, blockId));
      CountriesExistIff(t, body.countries);
      InsertBoxCountriesConsistent(t1, bid, body.countries);
      var t2 := InsertBoxCountries(t1, bid, body.countries);
      InsertBoxCountriesEffect(t1, bid, body.countries);
      AppendLogConsistent(t2, ActivityLog(AddBox, AddedBoxes(body.totalBoxes as nat, t.products[body.productId].name,
                                                             body.price, t.blocks[blockId].name),
                                          storageId, authUserId, now));
    }
  }

  /** The `pMap` that inserts one join row per submitted country. */
  method AddBoxCountries(db: Database, boxId: Id, countries: seq<Id>)
    modifies db
    ensures db.State() == InsertBoxCountries(old(db.State()), boxId, countries)
  {
    ghost var final := InsertBoxCountries(db.State(), boxId, countries);
    var i := 0;
    while i < |countries|
      invariant 0 <= i <= |countries|
      invariant InsertBoxCountries(db.State(), boxId, countries[i..]) == final
    {
      assert countries[i..][1..] == countries[i + 1..];
      var joinId := db.Insert(BoxCountryRow(BoxCountry(boxId, countries[i])));
      i := i + 1;
    }
  }

  /** `POST /storages/{id}/blocks/{blockId}/boxes`. */
  method CreateBox(db: Database, storageId: Id, blockId: Id, body: CreateStorageBoxBody, authUserId: Id, now: Time)
    returns (r: Result<Id>)
    requires db.Valid()
    requires ValidCreateStorageBoxBody(body)
    modifies db
    ensures db.Valid()
    ensures Outcome(db.State(), r) == CreateBoxStep(old(db.State()), storageId, blockId, body, authUserId, now)
  {
    var t := db.State();
    if !ActiveStorage(t, storageId) {
      return Err(NotFound(StorageRef));
    }
    if !ActiveBlockOf(t, blockId, storageId) {
      return Err(NotFound(BlockRef));
    }
    if !ActiveProduct(t, body.productId) {
      return Err(NotFound(ProductRef));
    }
    if body.userId !in db.users {
      return Err(NotFound(UserRef));
    }
    if !CountriesExist(t, body.countries) {
      return Err(NotFound(CountryRefs));
    }
    var product := db.products[body.productId];
    var block := db.blocks[blockId];
    var boxId := db.Insert(BoxRow(NewBox(body, blockId)));
    AddBoxCountries(db, boxId, body.countries);
    db.Log(ActivityLog(AddBox, AddedBoxes(body.totalBoxes as nat, product.name, body.price, block.name),
                       storageId, authUserId, now));
    r := Ok(boxId);
    CreateBoxConsistent(t, storageId, blockId, body, authUserId, now);
  }

  // ---------------------------------------------------------------- delete box

  /** The box query of the delete handler: the box is in that block, is not
      deleted, and its product is not deleted (an inner join). */
  predicate DeletableBox(t: Tables, boxId: Id, blockId: Id) {
    && boxId in t.boxes
    && t.boxes[boxId].blockId == blockId
    && t.boxes[boxId].deletedAt.None?
    && ActiveProduct(t, t.boxes[boxId].productId)
  }

  function DeleteBoxStep(t: Tables, storageId: Id, blockId: Id, boxId: Id, authUserId: Id, now: Time): Outcome<()> {
    if !ActiveStorage(t, storageId) then Outcome(t, Err(NotFound(StorageRef)))
    else if !ActiveBlockOf(t, blockId, storageId) then Outcome(t, Err(NotFound(BlockRef)))
    else if !DeletableBox(t, boxId, blockId) then Outcome(t, Err(NotFound(BoxRef)))
    else
      var b := t.boxes[boxId];
      var log := ActivityLog(DeleteBox, DeletedBox(t.products[b.productId].name, t.blocks[blockId].name),
                             storageId, authUserId, now);
      Outcome(AppendLog(t.(boxes := t.boxes[boxId := SoftDeletedBox(b, now)]), log), Ok(()))
  }

  /** Deleting a box checks the storage, the block and the box in that order; a
      rejected request writes nothing. An accepted one stamps that box alone,
      keeps every other box and every other table, and logs one DELETE_BOX
      entry. */
  lemma DeleteBoxEffect(t: Tables, storageId: Id, blockId: Id, boxId: Id, authUserId: Id, now: Time)
    ensures var o := DeleteBoxStep(t, storageId, blockId, boxId, authUserId, now);
      && (!ActiveStorage(t, storageId) ==> o.result == Err(NotFound(StorageRef)))
      && (ActiveStorage(t, storageId) && !ActiveBlockOf(t, blockId, storageId) ==>
            o.result == Err(NotFound(BlockRef)))
      && (o.result.Ok? <==>
            ActiveStorage(t, storageId) && ActiveBlockOf(t, blockId, storageId) && DeletableBox(t, boxId, blockId))
      && (o.result.Err? ==> o.tables == t)
    ensures var o := DeleteBoxStep(t, storageId, blockId, boxId, authUserId, now);
      o.result.Ok? ==>
        && o.tables.boxes.Keys == t.boxes.Keys
        && o.tables.boxes[boxId].deletedAt == Some(now)
        && o.tables.boxes[boxId] == t.boxes[boxId].(deletedAt := Some(now), updatedAt := Some(now))
        && (forall id :: id in t.boxes && id != boxId ==> o.tables.boxes[id] == t.boxes[id])
        && o.tables.logs == t.logs + [ActivityLog(DeleteBox,
                                        DeletedBox(t.products[t.boxes[boxId].productId].name, t.blocks[blockId].name),
                                        storageId, authUserId, now)]
        && o.tables == t.(boxes := o.tables.boxes, logs := o.tables.logs)
  {
  }

  /** Deleting a box keeps the database consistent. */
  lemma DeleteBoxConsistent(t: Tables, storageId: Id, blockId: Id, boxId: Id, authUserId: Id, now: Time)
    requires Consistent(t)
    ensures Consistent(DeleteBoxStep(t, storageId, blockId, boxId, authUserId, now).tables)
  {
    var o := DeleteBoxStep(t, storageId, blockId, boxId, authUserId, now);
    if o.result.Ok? {
      var b := t.boxes[boxId];
      var t1 := t.(boxes := t.boxes[boxId := SoftDeletedBox(b, now)]);
      UpdateBoxConsistent(t, boxId, SoftDeletedBox(b, now));
      AppendLogConsistent(t1, ActivityLog(DeleteBox, DeletedBox(t.products[b.productId].name, t.blocks[blockId].name),
                                          storageId, authUserId, now));
    }
  }

  /** `DELETE /storages/{id}/blocks/{blockId}/boxes/{boxId}`. */
  method DeleteStorageBox(db: Database, storageId: Id, blockId: Id, boxId: Id, authUserId: Id, now: Time)
    returns (r: Result<()>)
    requires db.Valid()
    modifies db
    ensures db.Valid()
    ensures Outcome(db.State(), r) == DeleteBoxStep(old(db.State()), storageId, blockId, boxId, authUserId, now)
  {
    ghost var t := db.State();
    if !ActiveStorage(db.State(), storageId) {
      return Err(NotFound(StorageRef));
    }
    if !ActiveBlockOf(db.State(), blockId, storageId) {
      return Err(NotFound(BlockRef));
    }
    if !DeletableBox(db.State(), boxId, blockId) {
      return Err(NotFound(BoxRef));
    }
    var box := db.boxes[boxId];
    var productName := db.products[box.productId].name;
    var blockName := db.blocks[blockId].name;
    db.boxes := db.boxes[boxId := SoftDeletedBox(box, now)];
    db.Log(ActivityLog(DeleteBox, DeletedBox(productName, blockName), storageId, authUserId, now));
    r := Ok(());
    DeleteBoxConsistent(t, storageId, blockId, boxId, authUserId, now);
  }

  // ---------------------------------------------------------------- checkout

  /** The pre-transaction checks of a checkout of `requested` boxes: refused
      when nothing remains or the box is closed, or when more are requested
      than remain; otherwise `Ok(isAllCheckout)`. The remainder is computed
      on integers, as the source subtracts numbers. */
  function CheckoutDecision(b: Box, requested: nat): Result<bool> {
    var remaining := b.totalBoxes as int - b.checkedOutBoxes as int;
    if remaining == 0 || b.checkedOutAt.Some? then Err(InvalidState(AllCheckedOut))
    else if requested > remaining then Err(InvalidState(MoreThanAvailable))
    else Ok(requested == remaining)
  }

  /** The update of the checkout transaction. */
  function CheckedOutBox(b: Box, requested: nat, isAllCheckout: bool, now: Time): Box {
    b.(checkedOutBoxes := b.checkedOutBoxes + requested,
       updatedAt := Some(now),
       checkedOutAt := if isAllCheckout then Some(now) else None)
  }

  /** The wording of the CHECKOUT_BOX entry, chosen on the counts read before
      the update. */
  function CheckoutMessage(b: Box, requested: nat, isAllCheckout: bool, productName: string, blockName: string): LogMessage {
    if b.checkedOutBoxes == 0 && isAllCheckout then CheckedOutAll(b.totalBoxes, productName, blockName)
    else if isAllCheckout then CheckedOutLastRemaining(requested, b.totalBoxes, productName, blockName)
    else CheckedOutSome(requested, productName, blockName)
  }

  /** The box the checkout handler looks up: in that block and not deleted. */
  predicate CheckoutBoxFound(t: Tables, boxId: Id, blockId: Id) {
    boxId in t.boxes && t.boxes[boxId].blockId == blockId && t.boxes[boxId].deletedAt.None?
  }

  /** The transaction re-reads the box joined to its product; with the product
      deleted the join is empty, the handler fails inside the transaction and
      it rolls back. */
  function CheckoutStep(t: Tables, storageId: Id, blockId: Id, boxId: Id, requested: nat,
                        authUserId: Id, now: Time): Outcome<()>
    requires ValidCheckoutStorageBoxBody(requested)
  {
    if !ActiveStorage(t, storageId) then Outcome(t, Err(NotFound(StorageRef)))
    else if !ActiveBlockOf(t, blockId, storageId) then Outcome(t, Err(NotFound(BlockRef)))
    else if !CheckoutBoxFound(t, boxId, blockId) then Outcome(t, Err(NotFound(BoxRef)))
    else
      var b := t.boxes[boxId];
      match CheckoutDecision(b, requested)
      case Err(f) => Outcome(t, Err(f))
      case Ok(isAllCheckout) =>
        if !ActiveProduct(t, b.productId) then Outcome(t, Err(Internal))
        else
          var message := CheckoutMessage(b, requested, isAllCheckout, t.products[b.productId].name,
                                         t.blocks[blockId].name);
          var t1 := t.(boxes := t.boxes[boxId := CheckedOutBox(b, requested, isAllCheckout, now)]);
          Outcome(AppendLog(t1, ActivityLog(CheckoutBox, message, storageId, authUserId, now)), Ok(()))
  }

  /** For a box that keeps the counter invariant: a box with nothing left, or
      already closed, refuses every request; otherwise exactly the requests of
      1 up to the remaining boxes are accepted, and `isAllCheckout` holds
      exactly when the request takes all that remain. */
  lemma CheckoutDecisionSpec(b: Box, requested: nat)
    requires BoxInvariant(b)
    requires ValidCheckoutStorageBoxBody(requested)
    ensures b.checkedOutAt.Some? ==> CheckoutDecision(b, requested) == Err(InvalidState(AllCheckedOut))
    ensures b.checkedOutBoxes == b.totalBoxes ==> CheckoutDecision(b, requested) == Err(InvalidState(AllCheckedOut))
    ensures b.checkedOutBoxes < b.totalBoxes && requested > b.totalBoxes - b.checkedOutBoxes ==>
      CheckoutDecision(b, requested) == Err(InvalidState(MoreThanAvailable))
    ensures CheckoutDecision(b, requested).Ok? <==> requested <= b.totalBoxes - b.checkedOutBoxes
    ensures CheckoutDecision(b, requested).Ok? ==>
      CheckoutDecision(b, requested).value == (b.checkedOutBoxes + requested == b.totalBoxes)
  {
  }

  /** An accepted checkout raises the counter by exactly the request, keeps it
      within the total, and closes the box exactly when it takes all that
      remain: the counter invariant is preserved. */
  lemma CheckoutKeepsInvariant(b: Box, requested: nat, now: Time)
    requires BoxInvariant(b)
    requires ValidCheckoutStorageBoxBody(requested)
    requires CheckoutDecision(b, requested).Ok?
    ensures var c := CheckedOutBox(b, requested, CheckoutDecision(b, requested).value, now);
      && BoxInvariant(c)
      && c.checkedOutBoxes == b.checkedOutBoxes + requested
      && c.totalBoxes == b.totalBoxes
      && (c.checkedOutAt == Some(now) <==> requested == b.totalBoxes - b.checkedOutBoxes)
      && (c.checkedOutAt.None? <==> requested < b.totalBoxes - b.checkedOutBoxes)
  {
  }

  /** The message cases: all at once from an untouched box, the last remaining
      after earlier checkouts, or part of what remains. */
  lemma CheckoutMessageCases(b: Box, requested: nat, productName: string, blockName: string)
    requires BoxInvariant(b)
    requires ValidCheckoutStorageBoxBody(requested)
    requires CheckoutDecision(b, requested).Ok?
    ensures var m := CheckoutMessage(b, requested, CheckoutDecision(b, requested).value, productName, blockName);
      && (m.CheckedOutAll? <==> b.checkedOutBoxes == 0 && requested == b.totalBoxes)
      && (m.CheckedOutLastRemaining? <==> b.checkedOutBoxes > 0 && b.checkedOutBoxes + requested == b.totalBoxes)
      && (m.CheckedOutSome? <==> b.checkedOutBoxes + requested < b.totalBoxes)
      && (m.CheckedOutAll? ==> m.total == b.totalBoxes)
      && (m.CheckedOutLastRemaining? ==> m.count == requested && m.total == b.totalBoxes)
      && (m.CheckedOutSome? ==> m.count == requested)
  {
  }

  /** A box of 5: taking 3 leaves it open with 3 out, taking the other 2
      closes it with the "last remaining" wording, and any further request is
      refused. */
  lemma CheckoutScenario(b: Box, now1: Time, now2: Time)
    requires b.totalBoxes == 5 && b.checkedOutBoxes == 0 && b.checkedOutAt.None?
    ensures CheckoutDecision(b, 3) == Ok(false)
    ensures var b1 := CheckedOutBox(b, 3, false, now1);
      && b1.checkedOutBoxes == 3 && b1.checkedOutAt.None?
      && CheckoutMessage(b, 3, false, "p", "A1") == CheckedOutSome(3, "p", "A1")
      && CheckoutDecision(b1, 2) == Ok(true)
      && CheckoutMessage(b1, 2, true, "p", "A1") == CheckedOutLastRemaining(2, 5, "p", "A1")
    ensures var b2 := CheckedOutBox(CheckedOutBox(b, 3, false, now1), 2, true, now2);
      && b2.checkedOutBoxes == 5 && b2.checkedOutAt == Some(now2)
      && forall k: nat :: k >= 1 ==> CheckoutDecision(b2, k) == Err(InvalidState(AllCheckedOut))
  {
  }

  /** A checkout checks the storage, the block, the box, then the quantity; a
      rejected request writes nothing. An accepted one changes that box alone
      (as `CheckedOutBox`) and logs one CHECKOUT_BOX entry. */
  lemma CheckoutEffect(t: Tables, storageId: Id, blockId: Id, boxId: Id, requested: nat, authUserId: Id, now: Time)
    requires ValidCheckoutStorageBoxBody(requested)
    ensures var o := CheckoutStep(t, storageId, blockId, boxId, requested, authUserId, now);
      && (!ActiveStorage(t, storageId) ==> o.result == Err(NotFound(StorageRef)))
      && (ActiveStorage(t, storageId) && !ActiveBlockOf(t, blockId, storageId) ==>
            o.result == Err(NotFound(BlockRef)))
      && ((ActiveStorage(t, storageId) && ActiveBlockOf(t, blockId, storageId)
           && !CheckoutBoxFound(t, boxId, blockId)) ==> o.result == Err(NotFound(BoxRef)))
      && ((ActiveStorage(t, storageId) && ActiveBlockOf(t, blockId, storageId) && CheckoutBoxFound(t, boxId, blockId)
           && CheckoutDecision(t.boxes[boxId], requested).Err?) ==>
            o.result == Err(CheckoutDecision(t.boxes[boxId], requested).failure))
      && (o.result.Err? ==> o.tables == t)
    ensures var o := CheckoutStep(t, storageId, blockId, boxId, requested, authUserId, now);
      o.result.Ok? ==>
        && CheckoutBoxFound(t, boxId, blockId)
        && CheckoutDecision(t.boxes[boxId], requested).Ok?
        && ActiveProduct(t, t.boxes[boxId].productId)
        && var b := t.boxes[boxId];
           var all := CheckoutDecision(b, requested).value;
           && o.tables.boxes == t.boxes[boxId := CheckedOutBox(b, requested, all, now)]
           && o.tables.logs == t.logs + [ActivityLog(CheckoutBox,
                CheckoutMessage(b, requested, all, t.products[b.productId].name, t.blocks[blockId].name),
                storageId, authUserId, now)]
           && o.tables == t.(boxes := o.tables.boxes, logs := o.tables.logs)
  {
  }

  /** A checkout keeps the database consistent, the counter invariant of every
      box included. */
  lemma CheckoutConsistent(t: Tables, storageId: Id, blockId: Id, boxId: Id, requested: nat, authUserId: Id, now: Time)
    requires Consistent(t)
    requires ValidCheckoutStorageBoxBody(requested)
    ensures Consistent(CheckoutStep(t, storageId, blockId, boxId, requested, authUserId, now).tables)
  {
    var o := CheckoutStep(t, storageId, blockId, boxId, requested, authUserId, now);
    if o.result.Ok? {
      var b := t.boxes[boxId];
      var all := CheckoutDecision(b, requested).value;
      CheckoutKeepsInvariant(b, requested, now);
      var t1 := t.(boxes := t.boxes[boxId := CheckedOutBox(b, requested, all, now)]);
      UpdateBoxConsistent(t, boxId, CheckedOutBox(b, requested, all, now));
      AppendLogConsistent(t1, ActivityLog(CheckoutBox,
        CheckoutMessage(b, requested, all, t.products[b.productId].name, t.blocks[blockId].name),
        storageId, authUserId, now));
    }
  }

  /** `POST /storages/{id}/blocks/{blockId}/boxes/{boxId}/checkout`. */
  method Checkout(db: Database, storageId: Id, blockId: Id, boxId: Id, requested: nat, authUserId: Id, now: Time)
    returns (r: Result<()>)
    requires db.Valid()
    requires ValidCheckoutStorageBoxBody(requested)
    modifies db
    ensures db.Valid()
    ensures Outcome(db.State(), r) == CheckoutStep(old(db.State()), storageId, blockId, boxId, requested, authUserId, now)
  {
    ghost var t := db.State();
    if !ActiveStorage(db.State(), storageId) {
      return Err(NotFound(StorageRef));
    }
    if !ActiveBlockOf(db.State(), blockId, storageId) {
      return Err(NotFound(BlockRef));
    }
    if !CheckoutBoxFound(db.State(), boxId, blockId) {
      return Err(NotFound(BoxRef));
    }
    var box := db.boxes[boxId];
    var decision := CheckoutDecision(box, requested);
    if decision.Err? {
      return Err(decision.failure);
    }
    var isAllCheckout := decision.value;
    if !ActiveProduct(db.State(), box.productId) {
      return Err(Internal);
    }
    var message := CheckoutMessage(box, requested, isAllCheckout, db.products[box.productId].name, db.blocks[blockId].name);
    db.boxes := db.boxes[boxId := CheckedOutBox(box, requested, isAllCheckout, now)];
    db.Log(ActivityLog(CheckoutBox, message, storageId, authUserId, now));
    r := Ok(());
    CheckoutConsistent(t, storageId, blockId, boxId, requested, authUserId, now);
  }

  // ---------------------------------------------------------------- activity log query

  /** The `cursor` query parameter as the handler reads it: absent, a number
      of milliseconds, or a number `new Date` cannot turn into a date. */
  datatype Cursor = NoCursor | CursorAt(time: Time) | UnparsableCursor

  /** The page size of the activity-log query. */
  const LogPageSize: nat := 20

  /** An entry the query selects: of that storage, by an existing user (the
      inner join), and strictly before the bound. */
  predicate LogSelected(l: ActivityLog, users: set<Id>, storageId: Id, before: Time) {
    l.storageId == storageId && l.userId in users && l.timestamp < before
  }

  function LogFilter(users: set<Id>, storageId: Id, before: Time): ActivityLog -> bool {
    (l: ActivityLog) => LogSelected(l, users, storageId, before)
  }

  function LogTime(l: ActivityLog): int {
    l.timestamp
  }

  function SelectedLogs(t: Tables, storageId: Id, before: Time): seq<ActivityLog> {
    Seqs.Filter(t.logs, LogFilter(t.users, storageId, before))
  }

  /** The bound of the query, `query.cursor ? new Date(query.cursor) : new
      Date()`: the cursor 0 is falsy, so it reads as now, as an absent one. */
  function LogBound(cursor: Cursor, now: Time): Time {
    if cursor.CursorAt? && cursor.time != 0 then cursor.time else now
  }

  /** `GET /storages/{id}/logs`: the most recent selected entries first, at
      most a page of them. The store orders by timestamp; entries are appended
      as time goes on, so the model orders by position in the log. */
  function StorageLogs(t: Tables, storageId: Id, cursor: Cursor, now: Time): (r: Result<seq<ActivityLog>>)
    ensures cursor.UnparsableCursor? <==> r == Err(InvalidCursor)
    ensures !cursor.UnparsableCursor? && !ActiveStorage(t, storageId) ==> r == Err(NotFound(StorageRef))
    ensures r.Ok? ==> ActiveStorage(t, storageId)
    ensures r.Ok? ==> |r.value| <= LogPageSize
    ensures r.Ok? ==> forall i :: 0 <= i < |r.value| ==>
      r.value[i] in t.logs && LogSelected(r.value[i], t.users, storageId, LogBound(cursor, now))
  {
    if cursor.UnparsableCursor? then Err(InvalidCursor)
    else if !ActiveStorage(t, storageId) then Err(NotFound(StorageRef))
    else Ok(Seqs.Take(Seqs.Reverse(SelectedLogs(t, storageId, LogBound(cursor, now))), LogPageSize))
  }

  /** The page is the newest selected entries, newest first: all of them when
      at most a page is selected, otherwise the last 20 appended. */
  lemma StorageLogsNewest(t: Tables, storageId: Id, cursor: Cursor, now: Time)
    requires StorageLogs(t, storageId, cursor, now).Ok?
    ensures var sel := SelectedLogs(t, storageId, LogBound(cursor, now));
      var r := StorageLogs(t, storageId, cursor, now).value;
      && |r| == (if |sel| < LogPageSize then |sel| else LogPageSize)
      && forall i :: 0 <= i < |r| ==> r[i] == sel[|sel| - 1 - i]
  {
    var sel := SelectedLogs(t, storageId, LogBound(cursor, now));
    var r := StorageLogs(t, storageId, cursor, now).value;
    forall i | 0 <= i < |r| ensures r[i] == sel[|sel| - 1 - i] {
      assert r[i] == Seqs.Reverse(sel)[i];
    }
  }

  /** The cursor of the next page: the timestamp of the last entry returned. */
  function NextLogCursor(logs: seq<ActivityLog>): (c: Option<Time>)
    ensures c.Some? <==> logs != []
    ensures c.Some? ==> c.value == logs[|logs| - 1].timestamp
  {
    if logs == [] then None else Some(logs[|logs| - 1].timestamp)
  }

  /** Fewer selected entries than a page are all returned. */
  lemma StorageLogsComplete(t: Tables, storageId: Id, cursor: Cursor, now: Time)
    requires StorageLogs(t, storageId, cursor, now).Ok?
    ensures var before := LogBound(cursor, now);
      var r := StorageLogs(t, storageId, cursor, now).value;
      |SelectedLogs(t, storageId, before)| <= LogPageSize ==>
        forall i :: 0 <= i < |t.logs| && LogSelected(t.logs[i], t.users, storageId, before) ==> t.logs[i] in r
  {
    var before := LogBound(cursor, now);
    var sel := SelectedLogs(t, storageId, before);
    var rev := Seqs.Reverse(sel);
    if |sel| <= LogPageSize {
      forall i | 0 <= i < |t.logs| && LogSelected(t.logs[i], t.users, storageId, before)
        ensures t.logs[i] in rev
      {
        var k :| 0 <= k < |sel| && sel[k] == t.logs[i];
        assert rev[|sel| - 1 - k] == sel[k];
      }
    }
  }

  /** When the clock never runs backwards over the log, the page is ordered
      newest first by timestamp, as `orderBy(desc(timestamp))` requires. */
  lemma StorageLogsNewestFirst(t: Tables, storageId: Id, cursor: Cursor, now: Time)
    requires forall i, j :: 0 <= i < j < |t.logs| ==> t.logs[i].timestamp <= t.logs[j].timestamp
    requires StorageLogs(t, storageId, cursor, now).Ok?
    ensures var r := StorageLogs(t, storageId, cursor, now).value;
      forall i, j :: 0 <= i < j < |r| ==> r[i].timestamp >= r[j].timestamp
  {
    var before := LogBound(cursor, now);
    var sel := SelectedLogs(t, storageId, before);
    assert Seqs.Ascending(t.logs, LogTime);
    Seqs.FilterKeepsOrder(t.logs, LogFilter(t.users, storageId, before), LogTime);
    Seqs.ReverseDescending(sel, LogTime);
    Seqs.TakeDescending(Seqs.Reverse(sel), LogPageSize, LogTime);
    var r := StorageLogs(t, storageId, cursor, now).value;
    assert r == Seqs.Take(Seqs.Reverse(sel), LogPageSize);
    forall i, j | 0 <= i < j < |r| ensures r[i].timestamp >= r[j].timestamp {
      assert LogTime(r[i]) >= LogTime(r[j]);
    }
  }

  /** What the cursor continues with: under a clock that never runs
      backwards, the cursor is the oldest timestamp on the page, and the next
      query selects exactly the entries the first one selected that are
      strictly older than it. An entry of that same second that did not fit
      on the page is therefore on neither page. */
  lemma NextPageSelection(t: Tables, storageId: Id, cursor: Cursor, now: Time)
    requires forall i, j :: 0 <= i < j < |t.logs| ==> t.logs[i].timestamp <= t.logs[j].timestamp
    requires StorageLogs(t, storageId, cursor, now).Ok?
    requires StorageLogs(t, storageId, cursor, now).value != []
    ensures var page := StorageLogs(t, storageId, cursor, now).value;
      var c := NextLogCursor(page).value;
      && (forall i :: 0 <= i < |page| ==> c <= page[i].timestamp)
      && (c != 0 ==> forall l :: LogSelected(l, t.users, storageId, LogBound(CursorAt(c), now)) <==>
            LogSelected(l, t.users, storageId, LogBound(cursor, now)) && l.timestamp < c)
  {
    var page := StorageLogs(t, storageId, cursor, now).value;
    StorageLogsNewestFirst(t, storageId, cursor, now);
    assert LogSelected(page[|page| - 1], t.users, storageId, LogBound(cursor, now));
  }

  /** Twenty-one entries of one storage, by an existing user, all logged
      within the second 5 (the timestamp column has one-second resolution). */
  ghost predicate TiedLog(t: Tables, storageId: Id, userId: Id) {
    && ActiveStorage(t, storageId)
    && userId in t.users
    && |t.logs| == 21
    && forall i :: 0 <= i < |t.logs| ==>
         t.logs[i] == ActivityLog(AddBox, AddedBoxes(i, "p", 1.0, "A1"), storageId, userId, 5)
  }

  /** The cursor as written skips an entry: of 21 entries of one second, the
      first page holds 20, its cursor is that second, and the page after it
      is empty, so the oldest entry is never listed. */
  lemma CursorSkipsTiedEntry(t: Tables, storageId: Id, userId: Id, now: Time)
    requires TiedLog(t, storageId, userId)
    requires now > 5
    ensures var page := StorageLogs(t, storageId, NoCursor, now);
      && page.Ok?
      && |page.value| == 20
      && NextLogCursor(page.value) == Some(5)
      && StorageLogs(t, storageId, CursorAt(5), now) == Ok([])
      && t.logs[0] in SelectedLogs(t, storageId, now)
      && t.logs[0] !in page.value
  {
    Seqs.FilterAll(t.logs, LogFilter(t.users, storageId, now));
    StorageLogsNewest(t, storageId, NoCursor, now);
    var page := StorageLogs(t, storageId, NoCursor, now).value;
    assert page[19] == t.logs[1];
  }

  /** Such a log exists. */
  lemma TiedLogExists()
    ensures exists t: Tables :: TiedLog(t, 0, 0)
  {
    var storage := Storage("s", "1x1", "1", 0, 0, 0, None, None, None);
    var logs := seq(21, i requires 0 <= i < 21 => ActivityLog(AddBox, AddedBoxes(i, "p", 1.0, "A1"), 0, 0, 5));
    var t := Tables({0}, {}, map[], map[], map[], map[0 := storage], map[], map[], map[], logs, 1);
    assert TiedLog(t, 0, 0);
  }

  /** The continuation of a corrected cursor: the bound of the first query
      and the log position of the oldest entry returned so far. */
  datatype LogKeyset = LogKeyset(before: Time, position: nat)

  /** Positions, oldest first, of the entries below the keyset's position
      that the query selects. */
  function KeysetSelection(t: Tables, storageId: Id, k: LogKeyset): seq<nat>
    requires k.position <= |t.logs|
  {
    Seqs.Positions(t.logs, LogFilter(t.users, storageId, k.before), k.position)
  }

  /** The corrected page: the positions of the newest selected entries below
      the keyset's position, newest first. */
  function KeysetPage(t: Tables, storageId: Id, k: LogKeyset): seq<nat>
    requires k.position <= |t.logs|
  {
    Seqs.Take(Seqs.Reverse(KeysetSelection(t, storageId, k)), LogPageSize)
  }

  /** The keyset of the next page: the position of the oldest entry returned. */
  function NextKeyset(k: LogKeyset, page: seq<nat>): Option<LogKeyset> {
    if page == [] then None else Some(LogKeyset(k.before, page[|page| - 1]))
  }

  /** Paging with the corrected cursor neither skips nor repeats an entry:
      the entries selected below the old position are exactly those selected
      below the new one followed by the page, oldest first, and the new
      position is lower. */
  lemma KeysetPagesSplit(t: Tables, storageId: Id, k: LogKeyset)
    requires k.position <= |t.logs|
    requires KeysetPage(t, storageId, k) != []
    ensures var page := KeysetPage(t, storageId, k);
      var next := NextKeyset(k, page).value;
      && next.before == k.before && next.position < k.position
      && KeysetSelection(t, storageId, k) == KeysetSelection(t, storageId, next) + Seqs.Reverse(page)
  {
    var page := KeysetPage(t, storageId, k);
    Seqs.NewestSplit(t.logs, LogFilter(t.users, storageId, k.before), k.position, LogPageSize);
    assert page[|page| - 1] in KeysetSelection(t, storageId, k);
  }

  /** The corrected first page lists the same entries as the source's. */
  lemma KeysetFirstPage(t: Tables, storageId: Id, cursor: Cursor, now: Time)
    requires StorageLogs(t, storageId, cursor, now).Ok?
    ensures var page := KeysetPage(t, storageId, LogKeyset(LogBound(cursor, now), |t.logs|));
      var r := StorageLogs(t, storageId, cursor, now).value;
      && |page| == |r|
      && forall i :: 0 <= i < |r| ==> page[i] < |t.logs| && t.logs[page[i]] == r[i]
  {
    Seqs.NewestPositions(t.logs, LogFilter(t.users, storageId, LogBound(cursor, now)), LogPageSize);
  }

  // ---------------------------------------------------------------- block boxes listing

  /** `nameLike`: the searched name followed by `%`, or `%` alone. */
  function NamePattern(name: Option<string>): string {
    if name.Some? && name.value != "" then name.value + "%" else "%"
  }

  /** A row of the block-box listing: a box of that block, not checked out
      in full and not deleted, whose block, user and product rows exist (the
      inner joins) and whose product name matches the pattern. */
  predicate ListedBox(t: Tables, id: Id, blockId: Id, pattern: string) {
    && id in t.boxes
    && var b := t.boxes[id];
       && b.blockId == blockId
       && b.checkedOutAt.None?
       && b.deletedAt.None?
       && b.blockId in t.blocks
       && b.userId in t.users
       && b.productId in t.products
       && Like(t.products[b.productId].name, pattern)
  }

  /** `GET /storages/{id}/blocks/{blockId}/boxes`: the ids of the boxes listed
      (ordering and paging are not modelled). */
  function BlockBoxes(t: Tables, storageId: Id, blockId: Id, name: Option<string>): (r: Result<set<Id>>)
    ensures !ActiveStorage(t, storageId) ==> r == Err(NotFound(StorageRef))
    ensures ActiveStorage(t, storageId) && !ActiveBlockOf(t, blockId, storageId) ==> r == Err(NotFound(BlockRef))
    ensures r.Ok? ==> ActiveStorage(t, storageId) && ActiveBlockOf(t, blockId, storageId)
    ensures r.Ok? ==> forall id :: id in r.value ==>
      && id in t.boxes && t.boxes[id].blockId == blockId
      && t.boxes[id].checkedOutAt.None? && t.boxes[id].deletedAt.None?
      && t.boxes[id].userId in t.users && t.boxes[id].productId in t.products
  {
    if !ActiveStorage(t, storageId) then Err(NotFound(StorageRef))
    else if !ActiveBlockOf(t, blockId, storageId) then Err(NotFound(BlockRef))
    else Ok(set id | id in t.boxes && ListedBox(t, id, blockId, NamePattern(name)))
  }

  /** Without a search name, the listing holds exactly the open, live boxes
      of the block. */
  lemma BlockBoxesUnfiltered(t: Tables, storageId: Id, blockId: Id)
    requires Consistent(t)
    requires BlockBoxes(t, storageId, blockId, None).Ok?
    ensures forall id :: id in BlockBoxes(t, storageId, blockId, None).value <==>
      id in t.boxes && t.boxes[id].blockId == blockId && t.boxes[id].checkedOutAt.None? && t.boxes[id].deletedAt.None?
  {
    forall id | id in t.boxes {
      LikeAnything(t.products[t.boxes[id].productId].name);
    }
  }

  /** A search only narrows the listing: it fails exactly when the unfiltered
      listing fails, and lists no box the unfiltered listing leaves out. */
  lemma BlockBoxesSearchNarrows(t: Tables, storageId: Id, blockId: Id, name: string)
    ensures BlockBoxes(t, storageId, blockId, Some(name)).Ok? <==> BlockBoxes(t, storageId, blockId, None).Ok?
    ensures BlockBoxes(t, storageId, blockId, Some(name)).Ok? ==>
      BlockBoxes(t, storageId, blockId, Some(name)).value <= BlockBoxes(t, storageId, blockId, None).value
  {
    forall id | id in t.boxes && t.boxes[id].productId in t.products {
      LikeAnything(t.products[t.boxes[id].productId].name);
    }
  }

  /** With a search name free of wildcards, a box is listed exactly when its
      product name starts with that name, ignoring ASCII case. */
  lemma BlockBoxesByPrefix(t: Tables, storageId: Id, blockId: Id, name: string)
    requires Consistent(t)
    requires name != "" && NoWildcards(name)
    requires BlockBoxes(t, storageId, blockId, Some(name)).Ok?
    ensures forall id :: id in BlockBoxes(t, storageId, blockId, Some(name)).value <==>
      && id in t.boxes && t.boxes[id].blockId == blockId
      && t.boxes[id].checkedOutAt.None? && t.boxes[id].deletedAt.None?
      && var productName := t.products[t.boxes[id].productId].name;
         |name| <= |productName| && LowerString(productName[..|name|]) == LowerString(name)
  {
    forall id | id in t.boxes {
      LikePrefix(t.products[t.boxes[id].productId].name, name);
    }
  }
}
