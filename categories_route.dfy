/** The category handlers (packages/api/src/routes/categories.route.ts): create a
    category with its sub-categories, update it while reconciling the submitted
    sub-categories with the stored ones, and soft-delete it with its
    sub-categories.

    As for the storage handlers, each handler is a pure step function to an
    `Outcome` and a method on a `Database` proved equal to it; the lemmas state
    what the step functions do. */
module CategoriesRoute {
  import opened Common
  import opened Db
  import opened Text
  import Seqs

  // ---------------------------------------------------------------- duplicate names

  /** `new Set(names.map(n => n.toLowerCase())).size === names.length`. */
  predicate UniqueNames(names: seq<string>) {
    |Seqs.Elements(Seqs.Map(names, LowerString))| == |names|
  }

  /** The submitted names are accepted exactly when no two of them are equal
      ignoring ASCII case. */
  lemma UniqueNamesIff(names: seq<string>)
    ensures UniqueNames(names) <==>
      forall i, j :: 0 <= i < j < |names| ==> LowerString(names[i]) != LowerString(names[j])
  {
    Seqs.ElementsCardinality(Seqs.Map(names, LowerString));
  }

  // ---------------------------------------------------------------- create category

  /** A submitted sub-category of an update: `id` is absent for a new one. The
      model's `None` stands for a missing id and for the empty string alike,
      both of which `!c.id` treats as new. */
  datatype SubCategoryInput = SubCategoryInput(id: Option<Id>, name: string)

  /** `c.name` of a submitted sub-category. */
  function SubName(s: SubCategoryInput): string {
    s.name
  }

  /** The row `insert(categoriesTable)` writes; `updatedAt` takes the column
      default, the time of the insert. */
  function NewCategory(name: string, authUserId: Id, now: Time): Category {
    Category(name, authUserId, None, Some(now), None)
  }

  /** The row `insert(subCategoriesTable)` writes. */
  function NewSubCategory(name: string, categoryId: Id, now: Time): SubCategory {
    SubCategory(name, categoryId, Some(now), None)
  }

  /** `eq(categoriesTable.name, name)` with no `deletedAt` filter: soft-deleted
      categories count. */
  predicate CategoryNamed(t: Tables, name: string) {
    exists id :: id in t.categories && t.categories[id].name == name
  }

  /** The inserts of the sub-categories, one row per name, in order. */
  function InsertSubCategories(t: Tables, names: seq<string>, categoryId: Id, now: Time): Tables
    decreases |names|
  {
    if names == [] then t
    else InsertSubCategories(InsertSubCategory(t, NewSubCategory(names[0], categoryId, now)), names[1..], categoryId, now)
  }

  function CreateCategoryStep(t: Tables, name: string, subCategoryNames: seq<string>, authUserId: Id, now: Time): Outcome<Id> {
    if !UniqueNames(subCategoryNames) then Outcome(t, Err(DuplicateSubCategoryNames))
    else if CategoryNamed(t, name) then Outcome(t, Err(Conflict(CategoryRef)))
    else
      var categoryId := t.nextId;
      var t1 := InsertCategory(t, NewCategory(name, authUserId, now));
      Outcome(InsertSubCategories(t1, subCategoryNames, categoryId, now), Ok(categoryId))
  }

  /** Inserting the names adds exactly one sub-category per name, under
      consecutive fresh ids and in order, and changes nothing else. */
  lemma {:induction false} InsertSubCategoriesEffect(t: Tables, names: seq<string>, categoryId: Id, now: Time)
    requires KeysBelow(t.subCategories, t.nextId)
    ensures var r := InsertSubCategories(t, names, categoryId, now);
      && r == t.(subCategories := r.subCategories, nextId := t.nextId + |names|)
      && (forall id :: id in r.subCategories <==> id in t.subCategories || t.nextId <= id < t.nextId + |names|)
      && (forall id :: id in t.subCategories ==> r.subCategories[id] == t.subCategories[id])
      && (forall k :: 0 <= k < |names| ==> r.subCategories[t.nextId + k] == NewSubCategory(names[k], categoryId, now))
    decreases |names|
  {
    if names != [] {
      var t1 := InsertSubCategory(t, NewSubCategory(names[0], categoryId, now));
      InsertSubCategoriesEffect(t1, names[1..], categoryId, now);
      var r := InsertSubCategories(t, names, categoryId, now);
      forall k | 0 <= k < |names| ensures r.subCategories[t.nextId + k] == NewSubCategory(names[k], categoryId, now) {
        if k > 0 {
          assert names[1..][k - 1] == names[k];
          assert t1.nextId + (k - 1) == t.nextId + k;
        }
      }
    }
  }

  /** Sub-categories of an existing category keep the database consistent. */
  lemma {:induction false} InsertSubCategoriesConsistent(t: Tables, names: seq<string>, categoryId: Id, now: Time)
    requires Consistent(t)
    requires categoryId in t.categories
    ensures Consistent(InsertSubCategories(t, names, categoryId, now))
    decreases |names|
  {
    if names != [] {
      var t1 := InsertSubCategory(t, NewSubCategory(names[0], categoryId, now));
      InsertSubCategoryConsistent(t, NewSubCategory(names[0], categoryId, now));
      InsertSubCategoriesConsistent(t1, names[1..], categoryId, now);
    }
  }

  /** Creating a category rejects duplicate sub-category names first, then any
      category of that exact name, soft-deleted or not; a rejected request
      writes nothing. */
  lemma CreateCategoryChecks(t: Tables, name: string, subCategoryNames: seq<string>, authUserId: Id, now: Time)
    ensures var o := CreateCategoryStep(t, name, subCategoryNames, authUserId, now);
      && (!UniqueNames(subCategoryNames) ==> o.result == Err(DuplicateSubCategoryNames))
      && (UniqueNames(subCategoryNames) && CategoryNamed(t, name) ==> o.result == Err(Conflict(CategoryRef)))
      && (forall id :: id in t.categories && t.categories[id].deletedAt.Some? && t.categories[id].name == name ==>
            o.result.Err?)
      && (o.result.Ok? <==> UniqueNames(subCategoryNames) && !CategoryNamed(t, name))
      && (o.result.Err? ==> o.tables == t)
  {
  }

  /** The writes of an accepted request, for any category row and names: the
      category under the fresh id, one sub-category of it per name under the
      following ids and no other sub-category of it; nothing else changes. */
  lemma CategoryWithSubCategoriesWrites(t: Tables, c: Category, names: seq<string>, now: Time)
    requires FreshIds(t) && SubCategoryRefs(t.subCategories, t.categories.Keys)
    ensures var cid := t.nextId;
      var r := InsertSubCategories(InsertCategory(t, c), names, cid, now);
      && cid !in t.categories
      && r.categories == t.categories[cid := c]
      && (forall id :: id in r.subCategories && r.subCategories[id].categoryId == cid <==> cid < id <= cid + |names|)
      && (forall k :: 0 <= k < |names| ==> r.subCategories[cid + 1 + k] == NewSubCategory(names[k], cid, now))
      && (forall id :: id in t.subCategories ==> id in r.subCategories && r.subCategories[id] == t.subCategories[id])
      && r == t.(categories := r.categories, subCategories := r.subCategories, nextId := cid + 1 + |names|)
  {
    var cid := t.nextId;
    var t1 := InsertCategory(t, c);
    assert KeysBelow(t1.subCategories, t1.nextId) by {
      KeysBelowRaise(t.subCategories, t.nextId, t1.nextId);
    }
    InsertSubCategoriesEffect(t1, names, cid, now);
    var r := InsertSubCategories(t1, names, cid, now);
    forall id | cid < id <= cid + |names| ensures id in r.subCategories && r.subCategories[id].categoryId == cid {
      assert r.subCategories[cid + 1 + (id - cid - 1)] == NewSubCategory(names[id - cid - 1], cid, now);
    }
  }

  /** An accepted request inserts the category under a fresh id and exactly
      one live sub-category of it per submitted name, in order; the existing
      rows and the other tables are unchanged. */
  lemma CreateCategoryWrites(t: Tables, name: string, subCategoryNames: seq<string>, authUserId: Id, now: Time)
    requires FreshIds(t) && SubCategoryRefs(t.subCategories, t.categories.Keys)
    ensures var o := CreateCategoryStep(t, name, subCategoryNames, authUserId, now);
      var cid := t.nextId;
      o.result.Ok? ==>
        && o.result.value == cid
        && cid !in t.categories
        && o.tables.categories == t.categories[cid := NewCategory(name, authUserId, now)]
        && (forall id :: id in o.tables.subCategories && o.tables.subCategories[id].categoryId == cid <==>
              cid < id <= cid + |subCategoryNames|)
        && (forall k :: 0 <= k < |subCategoryNames| ==>
              o.tables.subCategories[cid + 1 + k] == NewSubCategory(subCategoryNames[k], cid, now))
        && (forall id :: id in t.subCategories ==> id in o.tables.subCategories && o.tables.subCategories[id] == t.subCategories[id])
        && o.tables == t.(categories := o.tables.categories, subCategories := o.tables.subCategories,
                          nextId := t.nextId + 1 + |subCategoryNames|)
  {
    CategoryWithSubCategoriesWrites(t, NewCategory(name, authUserId, now), subCategoryNames, now);
  }

  /** Creating a category keeps the database consistent. */
  lemma CreateCategoryConsistent(t: Tables, name: string, subCategoryNames: seq<string>, authUserId: Id, now: Time)
    requires Consistent(t)
    ensures Consistent(CreateCategoryStep(t, name, subCategoryNames, authUserId, now).tables)
  {
    if UniqueNames(subCategoryNames) && !CategoryNamed(t, name) {
      var t1 := InsertCategory(t, NewCategory(name, authUserId, now));
      InsertCategoryConsistent(t, NewCategory(name, authUserId, now));
      InsertSubCategoriesConsistent(t1, subCategoryNames, t.nextId, now);
    }
  }

  /** Once a category is created, creating another of the same name is a
      conflict. */
  lemma CreateCategoryTwiceConflicts(t: Tables, name: string, names: seq<string>, names2: seq<string>,
                                     authUserId: Id, now: Time, now2: Time)
    requires Consistent(t)
    requires UniqueNames(names2)
    requires CreateCategoryStep(t, name, names, authUserId, now).result.Ok?
    ensures var t1 := CreateCategoryStep(t, name, names, authUserId, now).tables;
      CreateCategoryStep(t1, name, names2, authUserId, now2).result == Err(Conflict(CategoryRef))
  {
    CreateCategoryWrites(t, name, names, authUserId, now);
    var t1 := CreateCategoryStep(t, name, names, authUserId, now).tables;
    assert t1.categories[t.nextId].name == name;
  }

  /** The `Promise.all` that inserts one sub-category per name. */
  method AddSubCategories(db: Database, names: seq<string>, categoryId: Id, now: Time)
    modifies db
    ensures db.State() == InsertSubCategories(old(db.State()), names, categoryId, now)
  {
    ghost var final := InsertSubCategories(db.State(), names, categoryId, now);
    var i := 0;
    while i < |names|
      invariant 0 <= i <= |names|
      invariant InsertSubCategories(db.State(), names[i..], categoryId, now) == final
    {
      assert names[i..][1..] == names[i + 1..];
      var subCategoryId := db.Insert(SubCategoryRow(NewSubCategory(names[i], categoryId, now)));
      i := i + 1;
    }
  }

  /** `POST /categories`. */
  method CreateCategory(db: Database, name: string, subCategoryNames: seq<string>, authUserId: Id, now: Time)
    returns (r: Result<Id>)
    requires db.Valid()
    modifies db
    ensures db.Valid()
    ensures Outcome(db.State(), r) == CreateCategoryStep(old(db.State()), name, subCategoryNames, authUserId, now)
  {
    var t := db.State();
    if !UniqueNames(subCategoryNames) {
      return Err(DuplicateSubCategoryNames);
    }
    if CategoryNamed(t, name) {
      return Err(Conflict(CategoryRef));
    }
    var categoryId := db.Insert(CategoryRow(NewCategory(name, authUserId, now)));
    AddSubCategories(db, subCategoryNames, categoryId, now);
    r := Ok(categoryId);
    CreateCategoryConsistent(t, name, subCategoryNames, authUserId, now);
  }

  // ---------------------------------------------------------------- update category

  /** `eq(name, body.name) and not(eq(id, param.id))`. */
  predicate OtherCategoryNamed(t: Tables, name: string, categoryId: Id) {
    exists id :: id in t.categories && id != categoryId && t.categories[id].name == name
  }

  /** The ids the transaction's first select finds: the live sub-categories of
      the category. */
  function ActiveSubCategoryIds(subCategories: map<Id, SubCategory>, categoryId: Id): set<Id> {
    set id | id in subCategories && subCategories[id].deletedAt.None? && subCategories[id].categoryId == categoryId
  }

  /** `updatedSubcategoryIds`, as a set: `includes` only asks membership. */
  function SubmittedIds(subs: seq<SubCategoryInput>): set<Id> {
    set i | 0 <= i < |subs| && subs[i].id.Some? :: subs[i].id.value
  }

  /** `newSubcategories`, by name. */
  function AddedNames(subs: seq<SubCategoryInput>): seq<string> {
    if subs == [] then []
    else (if subs[0].id.None? then [subs[0].name] else []) + AddedNames(subs[1..])
  }

  /** `updatedSubcategories`, as (id, new name) pairs. */
  function Renames(subs: seq<SubCategoryInput>): seq<(Id, string)> {
    if subs == [] then []
    else (if subs[0].id.Some? then [(subs[0].id.value, subs[0].name)] else []) + Renames(subs[1..])
  }

  /** The three lists the update reconciles: names to insert, renames to
      apply, and live sub-categories whose id was not submitted. */
  datatype SubCategoryDiff = SubCategoryDiff(added: seq<string>, renamed: seq<(Id, string)>, removed: set<Id>)

  function Diff(existing: set<Id>, subs: seq<SubCategoryInput>): SubCategoryDiff {
    SubCategoryDiff(AddedNames(subs), Renames(subs), existing - SubmittedIds(subs))
  }

  /** Every submitted item is either added (no id) or renamed (with id), and
      nothing else is; every live sub-category is either kept (its id was
      submitted) or removed, never both. */
  lemma {:induction false} DiffPartition(existing: set<Id>, subs: seq<SubCategoryInput>)
    ensures var d := Diff(existing, subs);
      && |d.added| + |d.renamed| == |subs|
      && (forall i :: 0 <= i < |subs| && subs[i].id.None? ==> subs[i].name in d.added)
      && (forall i :: 0 <= i < |subs| && subs[i].id.Some? ==> (subs[i].id.value, subs[i].name) in d.renamed)
      && (forall p :: p in d.renamed ==> p.0 in SubmittedIds(subs))
      && d.removed <= existing
      && d.removed * SubmittedIds(subs) == {}
      && (forall id :: id in existing ==> (id in d.removed <==> id !in SubmittedIds(subs)))
    decreases |subs|
  {
    if subs != [] {
      var rest := subs[1..];
      DiffPartition(existing, rest);
      assert SubmittedIds(rest) <= SubmittedIds(subs) by {
        forall id | id in SubmittedIds(rest) ensures id in SubmittedIds(subs) {
          var i :| 0 <= i < |rest| && rest[i].id.Some? && rest[i].id.value == id;
          assert subs[i + 1] == rest[i];
        }
      }
      forall i | 0 <= i < |subs| && subs[i].id.None? ensures subs[i].name in AddedNames(subs) {
        if i > 0 { assert subs[i] == rest[i - 1]; }
      }
      forall i | 0 <= i < |subs| && subs[i].id.Some? ensures (subs[i].id.value, subs[i].name) in Renames(subs) {
        if i > 0 { assert subs[i] == rest[i - 1]; }
      }
      if subs[0].id.Some? {
        assert subs[0].id.value in SubmittedIds(subs);
      }
    }
  }

  /** The renamed row: new name and `updatedAt`. */
  function RenamedSubCategory(s: SubCategory, name: string, now: Time): SubCategory {
    s.(name := name, updatedAt := Some(now))
  }

  function SoftDeletedSubCategory(s: SubCategory, now: Time): SubCategory {
    s.(deletedAt := Some(now), updatedAt := Some(now))
  }

  /** One rename, `where(eq(id, s.id) and eq(categoryId, param.id))`: an id
      that is missing or belongs to another category matches no row. */
  function RenameSubCategory(subCategories: map<Id, SubCategory>, id: Id, name: string, categoryId: Id, now: Time)
    : map<Id, SubCategory>
  {
    if id in subCategories && subCategories[id].categoryId == categoryId
    then subCategories[id := RenamedSubCategory(subCategories[id], name, now)]
    else subCategories
  }

  /** The renames, applied in submission order. */
  function RenameSubCategories(subCategories: map<Id, SubCategory>, renamed: seq<(Id, string)>, categoryId: Id, now: Time)
    : map<Id, SubCategory>
    decreases |renamed|
  {
    if renamed == [] then subCategories
    else RenameSubCategories(RenameSubCategory(subCategories, renamed[0].0, renamed[0].1, categoryId, now),
                             renamed[1..], categoryId, now)
  }

  /** The name the last rename of `id` gives it, if any. */
  function LastRename(renamed: seq<(Id, string)>, id: Id): Option<string>
    decreases |renamed|
  {
    if renamed == [] then None
    else match LastRename(renamed[1..], id)
      case Some(n) => Some(n)
      case None => if renamed[0].0 == id then Some(renamed[0].1) else None
  }

  /** The soft-deletes, scoped to the category like the renames. */
  function StampSubCategories(subCategories: map<Id, SubCategory>, ids: set<Id>, categoryId: Id, now: Time)
    : map<Id, SubCategory>
  {
    map id | id in subCategories ::
      if id in ids && subCategories[id].categoryId == categoryId then SoftDeletedSubCategory(subCategories[id], now)
      else subCategories[id]
  }

  /** The category row after the update: name, `updatedById` and `updatedAt`. */
  function UpdatedCategory(c: Category, name: string, authUserId: Id, now: Time): Category {
    c.(name := name, updatedById := Some(authUserId), updatedAt := Some(now))
  }

  /** The sub-category writes of the transaction: inserts, then renames, then
      soft-deletes. */
  function Reconcile(t: Tables, categoryId: Id, d: SubCategoryDiff, now: Time): Tables {
    var t1 := InsertSubCategories(t, d.added, categoryId, now);
    t1.(subCategories := StampSubCategories(RenameSubCategories(t1.subCategories, d.renamed, categoryId, now),
                                            d.removed, categoryId, now))
  }

  /** The existence check has no `deletedAt` filter, so a soft-deleted
      category can be updated; it stays soft-deleted. */
  function UpdateCategoryStep(t: Tables, categoryId: Id, name: string, subs: seq<SubCategoryInput>,
                              authUserId: Id, now: Time): Outcome<()>
  {
    if !UniqueNames(Seqs.Map(subs, SubName)) then Outcome(t, Err(DuplicateSubCategoryNames))
    else if categoryId !in t.categories then Outcome(t, Err(NotFound(CategoryRef)))
    else if OtherCategoryNamed(t, name, categoryId) then Outcome(t, Err(Conflict(CategoryRef)))
    else
      var d := Diff(ActiveSubCategoryIds(t.subCategories, categoryId), subs);
      var t1 := t.(categories := t.categories[categoryId := UpdatedCategory(t.categories[categoryId], name, authUserId, now)]);
      Outcome(Reconcile(t1, categoryId, d, now), Ok(()))
  }

  /** The renames keep every id, category and `deletedAt`; they leave the rows
      of other categories alone, and give each row of the category the name of
      its last rename. */
  lemma {:induction false} RenameSubCategoriesEffect(subCategories: map<Id, SubCategory>, renamed: seq<(Id, string)>,
                                                     categoryId: Id, now: Time)
    ensures var r := RenameSubCategories(subCategories, renamed, categoryId, now);
      && r.Keys == subCategories.Keys
      && (forall id :: id in r ==> r[id].categoryId == subCategories[id].categoryId && r[id].deletedAt == subCategories[id].deletedAt)
      && (forall id :: id in r && subCategories[id].categoryId != categoryId ==> r[id] == subCategories[id])
      && (forall id :: id in r && subCategories[id].categoryId == categoryId ==>
            r[id] == match LastRename(renamed, id)
                     case Some(n) => RenamedSubCategory(subCategories[id], n, now)
                     case None => subCategories[id])
    decreases |renamed|
  {
    if renamed != [] {
      var s1 := RenameSubCategory(subCategories, renamed[0].0, renamed[0].1, categoryId, now);
      RenameSubCategoriesEffect(s1, renamed[1..], categoryId, now);
    }
  }

  /** Every submitted id was issued by the store before the request: ids are
      never reused, so none of them can name a row the request inserts. */
  predicate IssuedIds(t: Tables, subs: seq<SubCategoryInput>) {
    forall i :: 0 <= i < |subs| && subs[i].id.Some? ==> subs[i].id.value < t.nextId
  }

  lemma {:induction false} RenamesIssued(t: Tables, subs: seq<SubCategoryInput>, id: Id)
    requires IssuedIds(t, subs)
    requires id >= t.nextId
    ensures LastRename(Renames(subs), id).None?
    decreases |subs|
  {
    if subs != [] {
      var rest := subs[1..];
      assert IssuedIds(t, rest) by {
        forall i | 0 <= i < |rest| && rest[i].id.Some? ensures rest[i].id.value < t.nextId {
          assert rest[i] == subs[i + 1];
        }
      }
      RenamesIssued(t, rest, id);
      if subs[0].id.Some? {
        assert subs[0].id.value < t.nextId;
        assert Renames(subs) == [(subs[0].id.value, subs[0].name)] + Renames(rest);
        assert Renames(subs)[1..] == Renames(rest);
      } else {
        assert Renames(subs) == [] + Renames(rest);
        assert Renames(subs) == Renames(rest);
      }
    }
  }

  /** The sub-category writes of an update, row by row: the added names become
      live rows of the category under fresh ids; each existing row of the
      category takes its last rename and is soft-deleted when removed; rows of
      other categories keep their values; nothing else in the tables changes. */
  lemma ReconcileEffect(t: Tables, categoryId: Id, d: SubCategoryDiff, now: Time)
    requires KeysBelow(t.subCategories, t.nextId)
    requires forall id :: id >= t.nextId ==> LastRename(d.renamed, id).None?
    requires d.removed <= t.subCategories.Keys
    ensures var r := Reconcile(t, categoryId, d, now);
      && r == t.(subCategories := r.subCategories, nextId := t.nextId + |d.added|)
      && (forall id :: id in r.subCategories <==> id in t.subCategories || t.nextId <= id < t.nextId + |d.added|)
      && (forall k :: 0 <= k < |d.added| ==> r.subCategories[t.nextId + k] == NewSubCategory(d.added[k], categoryId, now))
      && (forall id :: id in t.subCategories && t.subCategories[id].categoryId != categoryId ==>
            r.subCategories[id] == t.subCategories[id])
      && (forall id :: id in t.subCategories && t.subCategories[id].categoryId == categoryId ==>
            && r.subCategories[id].categoryId == categoryId
            && r.subCategories[id].name == (match LastRename(d.renamed, id)
                                             case Some(n) => n
                                             case None => t.subCategories[id].name)
            && r.subCategories[id].deletedAt == (if id in d.removed then Some(now) else t.subCategories[id].deletedAt))
  {
    var t1 := InsertSubCategories(t, d.added, categoryId, now);
    InsertSubCategoriesEffect(t, d.added, categoryId, now);
    RenameSubCategoriesEffect(t1.subCategories, d.renamed, categoryId, now);
  }

  /** Which rows are live sub-categories of the category after the
      reconciling writes, when the removed ids are the live ones not kept. */
  lemma ReconcileLive(t: Tables, categoryId: Id, d: SubCategoryDiff, kept: set<Id>, now: Time)
    requires KeysBelow(t.subCategories, t.nextId)
    requires forall id :: id >= t.nextId ==> LastRename(d.renamed, id).None?
    requires d.removed == ActiveSubCategoryIds(t.subCategories, categoryId) - kept
    ensures var r := Reconcile(t, categoryId, d, now);
      forall id: Id :: ActiveSubCategoryOf(r, id, categoryId) <==>
        (id in ActiveSubCategoryIds(t.subCategories, categoryId) && id in kept) || t.nextId <= id < t.nextId + |d.added|
  {
    ReconcileEffect(t, categoryId, d, now);
    var r := Reconcile(t, categoryId, d, now);
    forall id: Id | t.nextId <= id < t.nextId + |d.added| ensures ActiveSubCategoryOf(r, id, categoryId) {
      assert r.subCategories[t.nextId + (id - t.nextId)] == NewSubCategory(d.added[id - t.nextId], categoryId, now);
    }
  }

  /** What the update leaves of the sub-categories, given the rows `before`
      and the id counter `nextId` when it starts and the rows `after` it: the
      live sub-categories of the category are exactly the previously live
      ones whose id was submitted and one new row per submitted item without
      id, under consecutive fresh ids; a kept one carries the name its id was
      last submitted with, an unsubmitted one carries the request's date as
      `deletedAt`; rows of other categories are untouched. */
  ghost predicate SubmissionReconciled(before: map<Id, SubCategory>, nextId: Id, after: map<Id, SubCategory>,
                                       categoryId: Id, subs: seq<SubCategoryInput>, now: Time)
  {
    var existing := ActiveSubCategoryIds(before, categoryId);
    var added := AddedNames(subs);
    && (forall id: Id :: id in after && after[id].deletedAt.None? && after[id].categoryId == categoryId <==>
          (id in existing && id in SubmittedIds(subs)) || nextId <= id < nextId + |added|)
    && (forall k :: 0 <= k < |added| ==>
          nextId + k in after && after[nextId + k] == NewSubCategory(added[k], categoryId, now))
    && (forall id :: id in existing && id in SubmittedIds(subs) ==>
          && LastRename(Renames(subs), id).Some?
          && id in after && after[id].name == LastRename(Renames(subs), id).value)
    && (forall id :: id in existing && id !in SubmittedIds(subs) ==>
          id in after && after[id].deletedAt == Some(now))
    && (forall id :: id in before && before[id].categoryId != categoryId ==>
          id in after && after[id] == before[id])
  }

  /** The reconciling writes for a submission do what `SubmissionReconciled`
      says, and touch no other table. */
  lemma ReconcileSubmission(t: Tables, categoryId: Id, subs: seq<SubCategoryInput>, now: Time)
    requires KeysBelow(t.subCategories, t.nextId)
    requires IssuedIds(t, subs)
    ensures var r := Reconcile(t, categoryId, Diff(ActiveSubCategoryIds(t.subCategories, categoryId), subs), now);
      && r == t.(subCategories := r.subCategories, nextId := t.nextId + |AddedNames(subs)|)
      && SubmissionReconciled(t.subCategories, t.nextId, r.subCategories, categoryId, subs, now)
  {
    var existing := ActiveSubCategoryIds(t.subCategories, categoryId);
    var d := Diff(existing, subs);
    forall id | id >= t.nextId ensures LastRename(d.renamed, id).None? {
      RenamesIssued(t, subs, id);
    }
    ReconcileEffect(t, categoryId, d, now);
    ReconcileLive(t, categoryId, d, SubmittedIds(subs), now);
    forall id | id in existing && id in SubmittedIds(subs) ensures LastRename(Renames(subs), id).Some? {
      SubmittedRenamed(subs, id);
    }
  }

  /** An accepted update rewrites the category row (name, `updatedById`,
      `updatedAt`) and reconciles its sub-categories as `SubmissionReconciled`
      says; every other table is untouched. */
  lemma UpdateCategoryWrites(t: Tables, categoryId: Id, name: string, subs: seq<SubCategoryInput>,
                             authUserId: Id, now: Time)
    requires KeysBelow(t.subCategories, t.nextId)
    requires IssuedIds(t, subs)
    ensures var o := UpdateCategoryStep(t, categoryId, name, subs, authUserId, now);
      var r := o.tables;
      o.result.Ok? ==>
        && categoryId in t.categories
        && r == t.(categories := r.categories, subCategories := r.subCategories, nextId := t.nextId + |AddedNames(subs)|)
        && r.categories == t.categories[categoryId := UpdatedCategory(t.categories[categoryId], name, authUserId, now)]
        && SubmissionReconciled(t.subCategories, t.nextId, r.subCategories, categoryId, subs, now)
  {
    if UniqueNames(Seqs.Map(subs, SubName)) && categoryId in t.categories && !OtherCategoryNamed(t, name, categoryId) {
      var t1 := t.(categories := t.categories[categoryId := UpdatedCategory(t.categories[categoryId], name, authUserId, now)]);
      ReconcileSubmission(t1, categoryId, subs, now);
    }
  }

  /** A submitted id has a last rename. */
  lemma {:induction false} SubmittedRenamed(subs: seq<SubCategoryInput>, id: Id)
    requires id in SubmittedIds(subs)
    ensures LastRename(Renames(subs), id).Some?
    decreases |subs|
  {
    var rest := subs[1..];
    var i :| 0 <= i < |subs| && subs[i].id.Some? && subs[i].id.value == id;
    if subs[0].id.Some? {
      assert Renames(subs) == [(subs[0].id.value, subs[0].name)] + Renames(rest);
      assert Renames(subs)[1..] == Renames(rest);
      if i > 0 {
        assert rest[i - 1] == subs[i];
        SubmittedRenamed(rest, id);
      }
    } else {
      assert Renames(subs) == [] + Renames(rest);
      assert Renames(subs) == Renames(rest);
      assert rest[i - 1] == subs[i];
      SubmittedRenamed(rest, id);
    }
  }

  /** The update rejects duplicate sub-category names first, then a category
      id that is not stored at all (a soft-deleted one passes), then another
      category of the same name; a rejected request writes nothing. */
  lemma UpdateCategoryChecks(t: Tables, categoryId: Id, name: string, subs: seq<SubCategoryInput>,
                             authUserId: Id, now: Time)
    ensures var o := UpdateCategoryStep(t, categoryId, name, subs, authUserId, now);
      && (!UniqueNames(Seqs.Map(subs, SubName)) ==> o.result == Err(DuplicateSubCategoryNames))
      && (UniqueNames(Seqs.Map(subs, SubName)) && categoryId !in t.categories ==> o.result == Err(NotFound(CategoryRef)))
      && (UniqueNames(Seqs.Map(subs, SubName)) && categoryId in t.categories && OtherCategoryNamed(t, name, categoryId) ==>
            o.result == Err(Conflict(CategoryRef)))
      && (o.result.Ok? <==>
            UniqueNames(Seqs.Map(subs, SubName)) && categoryId in t.categories && !OtherCategoryNamed(t, name, categoryId))
      && (o.result.Err? ==> o.tables == t)
  {
  }

  /** Keeping the category's own name is not a conflict. */
  lemma UpdateCategoryKeepsName(t: Tables, categoryId: Id, subs: seq<SubCategoryInput>, authUserId: Id, now: Time)
    requires categoryId in t.categories
    requires UniqueNames(Seqs.Map(subs, SubName))
    requires forall id :: id in t.categories && id != categoryId ==> t.categories[id].name != t.categories[categoryId].name
    ensures UpdateCategoryStep(t, categoryId, t.categories[categoryId].name, subs, authUserId, now).result.Ok?
  {
  }

  /** The reconciling writes keep the database consistent. */
  lemma ReconcileConsistent(t: Tables, categoryId: Id, d: SubCategoryDiff, now: Time)
    requires Consistent(t)
    requires categoryId in t.categories
    ensures Consistent(Reconcile(t, categoryId, d, now))
  {
    var t1 := InsertSubCategories(t, d.added, categoryId, now);
    InsertSubCategoriesConsistent(t, d.added, categoryId, now);
    var renamed := RenameSubCategories(t1.subCategories, d.renamed, categoryId, now);
    RenameSubCategoriesEffect(t1.subCategories, d.renamed, categoryId, now);
    UpdateSubCategoriesConsistent(t1, renamed);
    var t2 := t1.(subCategories := renamed);
    var stamped := StampSubCategories(renamed, d.removed, categoryId, now);
    assert stamped.Keys == renamed.Keys;
    UpdateSubCategoriesConsistent(t2, stamped);
  }

  /** Updating a category keeps the database consistent. */
  lemma UpdateCategoryConsistent(t: Tables, categoryId: Id, name: string, subs: seq<SubCategoryInput>,
                                 authUserId: Id, now: Time)
    requires Consistent(t)
    ensures Consistent(UpdateCategoryStep(t, categoryId, name, subs, authUserId, now).tables)
  {
    if UniqueNames(Seqs.Map(subs, SubName)) && categoryId in t.categories && !OtherCategoryNamed(t, name, categoryId) {
      var c := UpdatedCategory(t.categories[categoryId], name, authUserId, now);
      Db.UpdateCategoryConsistent(t, categoryId, c);
      var t1 := t.(categories := t.categories[categoryId := c]);
      ReconcileConsistent(t1, categoryId, Diff(ActiveSubCategoryIds(t.subCategories, categoryId), subs), now);
    }
  }

  /** The `Promise.all` of renames, one update per submitted id. */
  method ApplyRenames(db: Database, renamed: seq<(Id, string)>, categoryId: Id, now: Time)
    modifies db
    ensures db.State() == old(db.State()).(subCategories := RenameSubCategories(old(db.subCategories), renamed, categoryId, now))
  {
    ghost var t0 := db.State();
    ghost var final := RenameSubCategories(db.subCategories, renamed, categoryId, now);
    var i := 0;
    while i < |renamed|
      invariant 0 <= i <= |renamed|
      invariant db.State() == t0.(subCategories := db.subCategories)
      invariant RenameSubCategories(db.subCategories, renamed[i..], categoryId, now) == final
    {
      assert renamed[i..][1..] == renamed[i + 1..];
      var (id, name) := renamed[i];
      if id in db.subCategories && db.subCategories[id].categoryId == categoryId {
        db.subCategories := db.subCategories[id := RenamedSubCategory(db.subCategories[id], name, now)];
      }
      i := i + 1;
    }
  }

  /** `PUT /categories/{id}`. */
  method UpdateCategory(db: Database, categoryId: Id, name: string, subs: seq<SubCategoryInput>, authUserId: Id, now: Time)
    returns (r: Result<()>)
    requires db.Valid()
    modifies db
    ensures db.Valid()
    ensures Outcome(db.State(), r) == UpdateCategoryStep(old(db.State()), categoryId, name, subs, authUserId, now)
  {
    var t := db.State();
    if !UniqueNames(Seqs.Map(subs, SubName)) {
      return Err(DuplicateSubCategoryNames);
    }
    if categoryId !in db.categories {
      return Err(NotFound(CategoryRef));
    }
    if OtherCategoryNamed(t, name, categoryId) {
      return Err(Conflict(CategoryRef));
    }
    var d := Diff(ActiveSubCategoryIds(db.subCategories, categoryId), subs);
    db.categories := db.categories[categoryId := UpdatedCategory(db.categories[categoryId], name, authUserId, now)];
    AddSubCategories(db, d.added, categoryId, now);
    ApplyRenames(db, d.renamed, categoryId, now);
    db.subCategories := StampSubCategories(db.subCategories, d.removed, categoryId, now);
    r := Ok(());
    UpdateCategoryConsistent(t, categoryId, name, subs, authUserId, now);
  }

  // ---------------------------------------------------------------- delete category

  function SoftDeletedCategory(c: Category, authUserId: Id, now: Time): Category {
    c.(deletedAt := Some(now), updatedAt := Some(now), updatedById := Some(authUserId))
  }

  /** Soft-deletes the category and, with the same date, each of its live
      sub-categories (`isNull(deletedAt) and eq(categoryId, param.id)`). */
  function DeleteCategoryStep(t: Tables, categoryId: Id, authUserId: Id, now: Time): Outcome<()> {
    if !ActiveCategory(t, categoryId) then Outcome(t, Err(NotFound(CategoryRef)))
    else
      var live := ActiveSubCategoryIds(t.subCategories, categoryId);
      Outcome(t.(categories := t.categories[categoryId := SoftDeletedCategory(t.categories[categoryId], authUserId, now)],
                 subCategories := StampSubCategories(t.subCategories, live, categoryId, now)),
              Ok(()))
  }

  /** A missing or soft-deleted category is refused with no write. Otherwise
      the category and each of its live sub-categories get the request's date,
      no live sub-category of it remains, already deleted ones and those of
      other categories keep their rows, and products are not touched. */
  lemma DeleteCategoryEffect(t: Tables, categoryId: Id, authUserId: Id, now: Time)
    ensures var o := DeleteCategoryStep(t, categoryId, authUserId, now);
      && (o.result.Ok? <==> ActiveCategory(t, categoryId))
      && (o.result.Err? ==> o.result == Err(NotFound(CategoryRef)) && o.tables == t)
      && (o.result.Ok? ==>
            && o.tables.categories == t.categories[categoryId := SoftDeletedCategory(t.categories[categoryId], authUserId, now)]
            && o.tables.categories[categoryId].deletedAt == Some(now)
            && o.tables.subCategories.Keys == t.subCategories.Keys
            && (forall id :: ActiveSubCategoryOf(t, id, categoryId) ==>
                  o.tables.subCategories[id] == SoftDeletedSubCategory(t.subCategories[id], now))
            && (forall id :: id in t.subCategories && !ActiveSubCategoryOf(t, id, categoryId) ==>
                  o.tables.subCategories[id] == t.subCategories[id])
            && (forall id :: !ActiveSubCategoryOf(o.tables, id, categoryId))
            && o.tables == t.(categories := o.tables.categories, subCategories := o.tables.subCategories))
  {
  }

  /** A second delete of the same category is refused. */
  lemma DeleteCategoryTwice(t: Tables, categoryId: Id, authUserId: Id, now: Time, now2: Time)
    requires DeleteCategoryStep(t, categoryId, authUserId, now).result.Ok?
    ensures var t1 := DeleteCategoryStep(t, categoryId, authUserId, now).tables;
      DeleteCategoryStep(t1, categoryId, authUserId, now2).result == Err(NotFound(CategoryRef))
  {
    DeleteCategoryEffect(t, categoryId, authUserId, now);
  }

  /** Deleting a category keeps the database consistent. */
  lemma DeleteCategoryConsistent(t: Tables, categoryId: Id, authUserId: Id, now: Time)
    requires Consistent(t)
    ensures Consistent(DeleteCategoryStep(t, categoryId, authUserId, now).tables)
  {
    if ActiveCategory(t, categoryId) {
      var c := SoftDeletedCategory(t.categories[categoryId], authUserId, now);
      Db.UpdateCategoryConsistent(t, categoryId, c);
      var t1 := t.(categories := t.categories[categoryId := c]);
      var stamped := StampSubCategories(t.subCategories, ActiveSubCategoryIds(t.subCategories, categoryId), categoryId, now);
      assert stamped.Keys == t.subCategories.Keys;
      UpdateSubCategoriesConsistent(t1, stamped);
    }
  }

  /** `DELETE /categories/{id}`. */
  method DeleteCategory(db: Database, categoryId: Id, authUserId: Id, now: Time) returns (r: Result<()>)
    requires db.Valid()
    modifies db
    ensures db.Valid()
    ensures Outcome(db.State(), r) == DeleteCategoryStep(old(db.State()), categoryId, authUserId, now)
  {
    ghost var t := db.State();
    if !(categoryId in db.categories && db.categories[categoryId].deletedAt.None?) {
      return Err(NotFound(CategoryRef));
    }
    db.categories := db.categories[categoryId := SoftDeletedCategory(db.categories[categoryId], authUserId, now)];
    db.subCategories := StampSubCategories(db.subCategories, ActiveSubCategoryIds(db.subCategories, categoryId), categoryId, now);
    r := Ok(());
    DeleteCategoryConsistent(t, categoryId, authUserId, now);
  }
}
