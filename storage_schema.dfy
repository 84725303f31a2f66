/** The request validators of the storage routes (packages/api/src/common/storages.schema.ts):
    the seven storage dimensions and their grid sizes, and the bounds on the
    bodies of the create-storage, create-box and checkout requests. The
    handlers receive only bodies these accept. */
module StorageSchema {
  import opened Common
  import Text

  /** The tokens `storageDimensionSchema` accepts. */
  const DimensionTokens: seq<string> := ["1x1", "2x2", "3x3", "4x4", "5x5", "6x6", "7x7"]

  predicate IsStorageDimension(s: string) {
    s in DimensionTokens
  }

  /** The token "NxN" for a one-digit N. */
  function DimensionToken(n: nat): string
    requires n < 10
  {
    [Text.DigitChar(n), 'x', Text.DigitChar(n)]
  }

  /** A dimension is accepted exactly when it is "NxN" for some N in 1..7. */
  lemma DimensionTokenShape(s: string)
    ensures IsStorageDimension(s) <==> exists n :: 1 <= n <= 7 && s == DimensionToken(n)
  {
    if IsStorageDimension(s) {
      var k :| 0 <= k < |DimensionTokens| && DimensionTokens[k] == s;
      assert s == DimensionToken(k + 1);
    }
    if n :| 1 <= n <= 7 && s == DimensionToken(n) {
      assert DimensionTokens[n - 1] == DimensionToken(n);
    }
  }

  datatype GridSize = GridSize(row: nat, column: nat)

  /** `storageDimensionMap[d]`: the grid "NxN" has N rows and N columns. */
  function StorageDimensionMap(d: string): (g: GridSize)
    requires IsStorageDimension(d)
    ensures 1 <= g.row <= 7 && g.column == g.row
    ensures d == DimensionToken(g.row)
  {
    if d == "1x1" then GridSize(1, 1)
    else if d == "2x2" then GridSize(2, 2)
    else if d == "3x3" then GridSize(3, 3)
    else if d == "4x4" then GridSize(4, 4)
    else if d == "5x5" then GridSize(5, 5)
    else if d == "6x6" then GridSize(6, 6)
    else GridSize(7, 7)
  }

  /** The body of a create-storage request (`createStorageSchema`). */
  datatype CreateStorageBody = CreateStorageBody(
    name: string,
    productId: Id,
    dimension: string,
    capacity: string,
    superVisorId: Id)

  predicate ValidCreateStorageBody(b: CreateStorageBody) {
    && 1 <= |b.name| <= 50
    && IsStorageDimension(b.dimension)
    && 1 <= |b.capacity| <= 50
  }

  /** The body of an add-box request (`createStorageBoxSchema`). */
  datatype CreateStorageBoxBody = CreateStorageBoxBody(
    userId: Id,
    productId: Id,
    totalBoxes: int,
    grade: string,
    subGrade: Option<string>,
    weight: real,
    price: real,
    countries: seq<Id>)

  predicate ValidCreateStorageBoxBody(b: CreateStorageBoxBody) {
    && b.totalBoxes >= 1
    && |b.grade| <= 50
    && (b.subGrade.Some? ==> |b.subGrade.value| <= 50)
    && b.weight >= 0.0
    && b.price >= 0.0
    && |b.countries| >= 1
  }

  /** The body of a checkout request (`checkoutStorageBoxSchema`): the number of
      boxes to take. */
  predicate ValidCheckoutStorageBoxBody(boxes: int) {
    boxes >= 1
  }
}
