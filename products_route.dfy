/** The product handlers (packages/api/src/routes/products.route.ts): create,
    update and soft-delete a product after ordered existence and name checks.
    Each handler is a pure step function to an `Outcome` and a method on a
    `Database` proved equal to it. */
module ProductsRoute {
  import opened Common
  import opened Db

  /** The body of a create or update request. */
  datatype ProductBody = ProductBody(name: string, categoryId: Id, subCategoryId: Id)

  /** `isNull(deletedAt) and eq(name, body.name)`: only live products hold a
      name, and the comparison is exact. */
  predicate ProductNameTaken(t: Tables, name: string) {
    exists id :: id in t.products && t.products[id].deletedAt.None? && t.products[id].name == name
  }

  /** The three lookups create and update share, reported in this order: a
      live category, a live sub-category of that category, and no live product
      of that name. */
  function ProductChecks(t: Tables, body: ProductBody): Result<()> {
    if !ActiveCategory(t, body.categoryId) then Err(NotFound(CategoryRef))
    else if !ActiveSubCategoryOf(t, body.subCategoryId, body.categoryId) then Err(NotFound(SubCategoryRef))
    else if ProductNameTaken(t, body.name) then Err(Conflict(ProductRef))
    else Ok(())
  }

  /** Each failed check is the one reported, in order; all pass exactly when
      the category and sub-category are live and related and the name is free. */
  lemma ProductChecksOrder(t: Tables, body: ProductBody)
    ensures var r := ProductChecks(t, body);
      && (!ActiveCategory(t, body.categoryId) ==> r == Err(NotFound(CategoryRef)))
      && (ActiveCategory(t, body.categoryId) && !ActiveSubCategoryOf(t, body.subCategoryId, body.categoryId) ==>
            r == Err(NotFound(SubCategoryRef)))
      && ((ActiveCategory(t, body.categoryId) && ActiveSubCategoryOf(t, body.subCategoryId, body.categoryId) &&
           ProductNameTaken(t, body.name)) ==> r == Err(Conflict(ProductRef)))
      && (r.Ok? <==> ActiveCategory(t, body.categoryId) && ActiveSubCategoryOf(t, body.subCategoryId, body.categoryId) &&
                     !ProductNameTaken(t, body.name))
  {
  }

  /** A name used only by soft-deleted products is free again. */
  lemma DeletedNameReusable(t: Tables, body: ProductBody)
    requires ActiveCategory(t, body.categoryId) && ActiveSubCategoryOf(t, body.subCategoryId, body.categoryId)
    requires forall id :: id in t.products && t.products[id].name == body.name ==> t.products[id].deletedAt.Some?
    ensures ProductChecks(t, body).Ok?
  {
  }

  // ---------------------------------------------------------------- create product

  /** The row `insert(productsTable)` writes; `updatedAt` takes the column
      default, the time of the insert. */
  function NewProduct(body: ProductBody, authUserId: Id, now: Time): Product {
    Product(body.name, body.categoryId, body.subCategoryId, authUserId, None, Some(now), None)
  }

  function CreateProductStep(t: Tables, body: ProductBody, authUserId: Id, now: Time): Outcome<Id> {
    match ProductChecks(t, body)
    case Err(f) => Outcome(t, Err(f))
    case Ok(_) => Outcome(InsertProduct(t, NewProduct(body, authUserId, now)), Ok(t.nextId))
  }

  /** A rejected create writes nothing; an accepted one adds exactly one live
      product with the submitted name, category and sub-category under a fresh
      id, and changes nothing else. */
  lemma CreateProductEffect(t: Tables, body: ProductBody, authUserId: Id, now: Time)
    requires KeysBelow(t.products, t.nextId)
    ensures var o := CreateProductStep(t, body, authUserId, now);
      && (o.result.Err? ==> o.result.failure == ProductChecks(t, body).failure && o.tables == t)
      && (o.result.Ok? <==> ProductChecks(t, body).Ok?)
      && (o.result.Ok? ==>
            && o.result.value !in t.products
            && o.tables.products == t.products[o.result.value := NewProduct(body, authUserId, now)]
            && o.tables.products[o.result.value].name == body.name
            && o.tables.products[o.result.value].categoryId == body.categoryId
            && o.tables.products[o.result.value].subCategoryId == body.subCategoryId
            && o.tables.products[o.result.value].deletedAt.None?
            && o.tables == t.(products := o.tables.products, nextId := t.nextId + 1))
  {
  }

  /** Creating a product keeps the database consistent. */
  lemma CreateProductConsistent(t: Tables, body: ProductBody, authUserId: Id, now: Time)
    requires Consistent(t)
    ensures Consistent(CreateProductStep(t, body, authUserId, now).tables)
  {
    if ProductChecks(t, body).Ok? {
      InsertProductConsistent(t, NewProduct(body, authUserId, now));
    }
  }

  /** Once a product is created, a second create with the same name is a
      conflict, even in a different category. */
  lemma CreateProductTwiceConflicts(t: Tables, body: ProductBody, body2: ProductBody, authUserId: Id, now: Time, now2: Time)
    requires Consistent(t)
    requires CreateProductStep(t, body, authUserId, now).result.Ok?
    requires body2.name == body.name
    ensures var t1 := CreateProductStep(t, body, authUserId, now).tables;
      CreateProductStep(t1, body2, authUserId, now2).result.Err?
  {
    CreateProductEffect(t, body, authUserId, now);
    var t1 := CreateProductStep(t, body, authUserId, now).tables;
    assert t1.products[t.nextId].name == body2.name;
    if ActiveCategory(t1, body2.categoryId) && ActiveSubCategoryOf(t1, body2.subCategoryId, body2.categoryId) {
      assert ProductNameTaken(t1, body2.name);
    }
  }

  /** `POST /products`. */
  method CreateProduct(db: Database, body: ProductBody, authUserId: Id, now: Time) returns (r: Result<Id>)
    requires db.Valid()
    modifies db
    ensures db.Valid()
    ensures Outcome(db.State(), r) == CreateProductStep(old(db.State()), body, authUserId, now)
  {
    var t := db.State();
    var checked := ProductChecks(t, body);
    if checked.Err? {
      return Err(checked.failure);
    }
    var productId := db.Insert(ProductRow(NewProduct(body, authUserId, now)));
    r := Ok(productId);
    CreateProductConsistent(t, body, authUserId, now);
  }

  // ---------------------------------------------------------------- update product

  /** The row after `update(productsTable).set(...)`. */
  function UpdatedProduct(p: Product, body: ProductBody, authUserId: Id, now: Time): Product {
    p.(name := body.name, categoryId := body.categoryId, subCategoryId := body.subCategoryId,
       updatedById := Some(authUserId), updatedAt := Some(now))
  }

  /** The update is `where(eq(id, param.id))` with no `deletedAt` filter and no
      prior existence check: a soft-deleted product is rewritten (and stays
      deleted), and a missing id matches no row and still succeeds, returning
      no product. The name check does not exclude the product itself. */
  function UpdateProductStep(t: Tables, productId: Id, body: ProductBody, authUserId: Id, now: Time): Outcome<Option<Product>> {
    match ProductChecks(t, body)
    case Err(f) => Outcome(t, Err(f))
    case Ok(_) =>
      if productId in t.products then
        var p := UpdatedProduct(t.products[productId], body, authUserId, now);
        Outcome(t.(products := t.products[productId := p]), Ok(Some(p)))
      else Outcome(t, Ok(None))
  }

  /** A rejected update writes nothing. An accepted one rewrites only the row
      of that id, with the submitted name, category and sub-category, the
      acting user and the date, keeping its `deletedAt`; for an unknown id
      nothing changes. */
  lemma UpdateProductEffect(t: Tables, productId: Id, body: ProductBody, authUserId: Id, now: Time)
    ensures var o := UpdateProductStep(t, productId, body, authUserId, now);
      && (o.result.Ok? <==> ProductChecks(t, body).Ok?)
      && (o.result.Err? ==> o.result.failure == ProductChecks(t, body).failure && o.tables == t)
      && (o.result.Ok? && productId !in t.products ==> o.result.value.None? && o.tables == t)
      && (o.result.Ok? && productId in t.products ==>
            && o.result.value.Some?
            && o.tables.products.Keys == t.products.Keys
            && (forall id :: id in t.products && id != productId ==> o.tables.products[id] == t.products[id])
            && o.tables.products[productId] == o.result.value.value
            && o.tables.products[productId].name == body.name
            && o.tables.products[productId].categoryId == body.categoryId
            && o.tables.products[productId].subCategoryId == body.subCategoryId
            && o.tables.products[productId].updatedById == Some(authUserId)
            && o.tables.products[productId].updatedAt == Some(now)
            && o.tables.products[productId].createdById == t.products[productId].createdById
            && o.tables.products[productId].deletedAt == t.products[productId].deletedAt
            && o.tables == t.(products := o.tables.products))
  {
  }

  /** Resubmitting a live product's current name is refused: the name query
      finds the product itself. */
  lemma UpdateProductKeepingNameRefused(t: Tables, productId: Id, body: ProductBody, authUserId: Id, now: Time)
    requires ActiveProduct(t, productId)
    requires body.name == t.products[productId].name
    ensures UpdateProductStep(t, productId, body, authUserId, now).result.Err?
    ensures ActiveCategory(t, body.categoryId) && ActiveSubCategoryOf(t, body.subCategoryId, body.categoryId) ==>
      UpdateProductStep(t, productId, body, authUserId, now).result == Err(Conflict(ProductRef))
  {
    assert ProductNameTaken(t, body.name);
  }

  /** Updating a product keeps the database consistent. */
  lemma UpdateProductConsistent(t: Tables, productId: Id, body: ProductBody, authUserId: Id, now: Time)
    requires Consistent(t)
    ensures Consistent(UpdateProductStep(t, productId, body, authUserId, now).tables)
  {
    if ProductChecks(t, body).Ok? && productId in t.products {
      Db.UpdateProductConsistent(t, productId, UpdatedProduct(t.products[productId], body, authUserId, now));
    }
  }

  /** `PUT /products/{id}`. */
  method UpdateProduct(db: Database, productId: Id, body: ProductBody, authUserId: Id, now: Time)
    returns (r: Result<Option<Product>>)
    requires db.Valid()
    modifies db
    ensures db.Valid()
    ensures Outcome(db.State(), r) == UpdateProductStep(old(db.State()), productId, body, authUserId, now)
  {
    var t := db.State();
    var checked := ProductChecks(t, body);
    if checked.Err? {
      return Err(checked.failure);
    }
    if productId in db.products {
      var p := UpdatedProduct(db.products[productId], body, authUserId, now);
      db.products := db.products[productId := p];
      r := Ok(Some(p));
    } else {
      r := Ok(None);
    }
    UpdateProductConsistent(t, productId, body, authUserId, now);
  }

  // ---------------------------------------------------------------- delete product

  function SoftDeletedProduct(p: Product, authUserId: Id, now: Time): Product {
    p.(updatedById := Some(authUserId), updatedAt := Some(now), deletedAt := Some(now))
  }

  function DeleteProductStep(t: Tables, productId: Id, authUserId: Id, now: Time): Outcome<()> {
    if !ActiveProduct(t, productId) then Outcome(t, Err(NotFound(ProductRef)))
    else Outcome(t.(products := t.products[productId := SoftDeletedProduct(t.products[productId], authUserId, now)]), Ok(()))
  }

  /** A missing or soft-deleted product is refused with no write; otherwise
      only that row changes, taking the date as `deletedAt`, and a second
      delete is refused. */
  lemma DeleteProductEffect(t: Tables, productId: Id, authUserId: Id, now: Time, now2: Time)
    ensures var o := DeleteProductStep(t, productId, authUserId, now);
      && (o.result.Ok? <==> ActiveProduct(t, productId))
      && (o.result.Err? ==> o.result == Err(NotFound(ProductRef)) && o.tables == t)
      && (o.result.Ok? ==>
            && o.tables.products == t.products[productId := SoftDeletedProduct(t.products[productId], authUserId, now)]
            && o.tables.products[productId].deletedAt == Some(now)
            && o.tables == t.(products := o.tables.products)
            && DeleteProductStep(o.tables, productId, authUserId, now2).result == Err(NotFound(ProductRef)))
  {
  }

  /** Deleting a product keeps the database consistent. */
  lemma DeleteProductConsistent(t: Tables, productId: Id, authUserId: Id, now: Time)
    requires Consistent(t)
    ensures Consistent(DeleteProductStep(t, productId, authUserId, now).tables)
  {
    if ActiveProduct(t, productId) {
      Db.UpdateProductConsistent(t, productId, SoftDeletedProduct(t.products[productId], authUserId, now));
    }
  }

  /** `DELETE /products/{id}`. */
  method DeleteProduct(db: Database, productId: Id, authUserId: Id, now: Time) returns (r: Result<()>)
    requires db.Valid()
    modifies db
    ensures db.Valid()
    ensures Outcome(db.State(), r) == DeleteProductStep(old(db.State()), productId, authUserId, now)
  {
    ghost var t := db.State();
    if !(productId in db.products && db.products[productId].deletedAt.None?) {
      return Err(NotFound(ProductRef));
    }
    db.products := db.products[productId := SoftDeletedProduct(db.products[productId], authUserId, now)];
    r := Ok(());
    DeleteProductConsistent(t, productId, authUserId, now);
  }
}
