/**
 * The `/inventory` endpoints: guard-then-write rules for inventory rows,
 * deletion of a product's stock, the stock-availability check and the
 * search dispatch on `"null"` path segments.
 */
module InventoryController {
  import opened Wrappers
  import opened JavaLang
  import opened Storage
  import opened Entities
  import opened Repositories
  import opened ServiceClass
  import opened Http
  import opened ProductQueries

  /** The body of `PUT /inventory`: a product and, optionally, its stock in one store. */
  datatype CombinedRequest = CombinedRequest(product: Row<Product>, inventory: Option<Inventory>)

  function NotPresent(id: int): (message: string) {
    "Id " + Decimal(id) + " not present in database"
  }

  function Updated(id: int): (message: string) {
    "Successfully updated product with id: " + Decimal(id)
  }

  const NoInventoryRow: string := "No data available for this product"

  /**
   * `updateInventory` as written: the logging statement at its top reads
   * the request's stock level, so a request without an inventory part
   * throws before anything is looked up or saved.
   */
  method UpdateInventory(db: Database, req: CombinedRequest) returns (r: Outcome<Reply>)
    requires db.Valid()
    modifies db`products, db`inventory
    ensures db.Valid()
    ensures req.inventory.None? ==>
      r == Raised(NullPointer) && db.products == old(db.products) && db.inventory == old(db.inventory)
    ensures req.inventory.Some? ==> UpdateInventoryEffect(req, old(db.Snapshot()), r, db.products, db.inventory)
  {
    if req.inventory.None? {
      return Raised(NullPointer);
    }
    r := UpdateInventoryGuarded(db, req);
  }

  /**
   * `updateInventory` with the null check that the method evidently
   * relies on: a request without an inventory part updates the product
   * and reports success.
   */
  method UpdateInventoryGuarded(db: Database, req: CombinedRequest) returns (r: Outcome<Reply>)
    requires db.Valid()
    modifies db`products, db`inventory
    ensures db.Valid()
    ensures UpdateInventoryEffect(req, old(db.Snapshot()), r, db.products, db.inventory)
  {
    ghost var before := db.Snapshot();
    var id := req.product.id;
    if !ValidateProductId(db, id) {
      r := Returned(Reply(NOT_FOUND, NotPresent(id)));
    } else {
      var saved := db.SaveProduct(req.product);
      if saved.Raised? {
        r := Raised(saved.exception);
      } else if req.inventory.None? {
        r := Returned(Reply(OK, Updated(id)));
      } else {
        var inventory := req.inventory.value;
        var result := GetInventoryId(db, inventory);
        if result.Some? {
          var _ := db.SaveInventory(Row(result.value.id, inventory));
          r := Returned(Reply(OK, Updated(id)));
        } else {
          r := Returned(Reply(NO_CONTENT, NoInventoryRow));
        }
      }
    }
    assert UpdateInventoryEffect(req, before, r, db.products, db.inventory);
    UpdateInventoryKeepsValid(req, before, r, db.products, db.inventory);
    assert db.Snapshot() == before.(products := db.products, inventory := db.inventory);
  }

  /** Whatever path `updateInventory` takes, the stored data keeps its invariants. */
  lemma UpdateInventoryKeepsValid(req: CombinedRequest, t: Tables, r: Outcome<Reply>,
                                  products: Table<Product>, inventory: Table<Inventory>)
    requires t.Valid() && UpdateInventoryEffect(req, t, r, products, inventory)
    ensures t.(products := products, inventory := inventory).Valid()
  {
    if t.products.Get(req.product.id).Some? && !SkuTaken(t.products, req.product) {
      UpsertKeepsSkusUnique(t.products, req.product);
      if req.inventory.Some? {
        var inv := req.inventory.value;
        if FindInventory(t.inventory, inv.productId, inv.storeId).Some? {
          OverwriteFoundKeepsPairsUnique(t.inventory, inv);
        }
      }
    }
  }

  /**
   * What `updateInventory` does once the request carries an inventory
   * part (or, in the guarded version, does not need one): an unknown
   * product id gives 404 and no write; otherwise the product is saved
   * first, which the SKU constraint may refuse; then the row stored for
   * the request's pair is overwritten under its own key, or, when the pair
   * has no row, 204 is returned with the product update kept and no row
   * inserted.
   */
  ghost predicate UpdateInventoryEffect(req: CombinedRequest, t: Tables, r: Outcome<Reply>,
                                        products: Table<Product>, inventory: Table<Inventory>)
  {
    var id := req.product.id;
    if t.products.Get(id).None? then
      r == Returned(Reply(NOT_FOUND, NotPresent(id))) && products == t.products && inventory == t.inventory
    else if SkuTaken(t.products, req.product) then
      r == Raised(DataIntegrityViolation) && products == t.products && inventory == t.inventory
    else
      && products == t.products.Replace(req.product)
      && match req.inventory
         case None => r == Returned(Reply(OK, Updated(id))) && inventory == t.inventory
         case Some(inv) =>
           match FindInventory(t.inventory, inv.productId, inv.storeId)
           case None => r == Returned(Reply(NO_CONTENT, NoInventoryRow)) && inventory == t.inventory
           case Some(row) =>
             && r == Returned(Reply(OK, Updated(id)))
             && inventory == t.inventory.Replace(Row(row.id, inv))
  }

  /** An overwrite through `updateInventory` changes the found row only and adds none. */
  lemma UpdateInventoryOverwritesOneRow(req: CombinedRequest, t: Tables, r: Outcome<Reply>,
                                        products: Table<Product>, inventory: Table<Inventory>)
    requires t.Valid() && UpdateInventoryEffect(req, t, r, products, inventory)
    requires req.inventory.Some?
    requires t.products.Get(req.product.id).Some? && !SkuTaken(t.products, req.product)
    requires FindInventory(t.inventory, req.inventory.value.productId, req.inventory.value.storeId).Some?
    ensures |inventory.rows| == |t.inventory.rows| && inventory.next == t.inventory.next
    ensures forall j :: 0 <= j < |t.inventory.rows| ==>
      if Holds(t.inventory.rows[j].val, req.inventory.value.productId, req.inventory.value.storeId)
      then inventory.rows[j] == Row(t.inventory.rows[j].id, req.inventory.value)
      else inventory.rows[j] == t.inventory.rows[j]
  {
    var inv := req.inventory.value;
    var row := FindInventory(t.inventory, inv.productId, inv.storeId).value;
    assert inventory == t.inventory.Replace(Row(row.id, inv));
    OverwriteFoundRows(t.inventory, inv);
  }

  /**
   * `saveInventory`: a row is saved only when its pair has none yet;
   * otherwise 409 and nothing changes, so the table keeps one row per
   * (product, store) pair.
   */
  method SaveInventory(db: Database, inventory: Row<Inventory>) returns (r: Reply)
    requires db.Valid()
    modifies db`inventory
    ensures db.Valid()
    ensures old(ValidateInventory(db, inventory.val)) ==>
      && r == Reply(CREATED, "Product added to inventory successfully")
      && db.inventory == old(db.inventory.Upsert(inventory).0)
    ensures !old(ValidateInventory(db, inventory.val)) ==>
      r == Reply(CONFLICT, "Data already present in inventory") && db.inventory == old(db.inventory)
  {
    if ValidateInventory(db, inventory.val) {
      UpsertFreshPairKeepsPairsUnique(db.inventory, inventory);
      var _ := db.SaveInventory(inventory);
    } else {
      return Reply(CONFLICT, "Data already present in inventory");
    }
    return Reply(CREATED, "Product added to inventory successfully");
  }

  /**
   * `removeProduct`: for a known product, every inventory row of that
   * product is deleted and every other row kept; an unknown id gives 404
   * and deletes nothing. The product row itself stays.
   */
  method RemoveProduct(db: Database, id: int) returns (r: Reply)
    requires db.Valid()
    modifies db`inventory
    ensures db.Valid()
    ensures !old(ValidateProductId(db, id)) ==> r == Reply(NOT_FOUND, NotPresent(id)) && db.inventory == old(db.inventory)
    ensures old(ValidateProductId(db, id)) ==>
      && r == Reply(OK, "Deleted product successfully with id: " + Decimal(id))
      && (forall i :: 0 <= i < |db.inventory.rows| ==>
            db.inventory.rows[i] in old(db.inventory.rows) && db.inventory.rows[i].val.productId != id)
      && (forall i :: 0 <= i < |old(db.inventory.rows)| && old(db.inventory.rows)[i].val.productId != id ==>
            old(db.inventory.rows)[i] in db.inventory.rows)
  {
    if !ValidateProductId(db, id) {
      return Reply(NOT_FOUND, NotPresent(id));
    }
    RemoveWhereKeepsPairsUnique(db.inventory, (v: Inventory) => v.productId == id);
    db.DeleteInventoryByProductId(id);
    return Reply(OK, "Deleted product successfully with id: " + Decimal(id));
  }

  /**
   * `validateQuantity`: whether the pair's row holds at least `quantity`;
   * a pair without a row dereferences null.
   */
  function ValidateQuantity(db: Database, quantity: Int32, storeId: int, productId: int): (r: Outcome<bool>)
    reads db
    ensures r.Raised? <==> forall j :: 0 <= j < |db.inventory.rows| ==> !Holds(db.inventory.rows[j].val, productId, storeId)
    ensures r.Raised? ==> r == Raised(NullPointer)
    ensures db.Valid() ==> forall j :: 0 <= j < |db.inventory.rows| && Holds(db.inventory.rows[j].val, productId, storeId) ==>
      r == Returned(db.inventory.rows[j].val.stockLevel >= quantity)
  {
    FindInventoryUnique(db.inventory);
    match FindInventory(db.inventory, productId, storeId)
    case None => Raised(NullPointer)
    case Some(row) => Returned(row.val.stockLevel >= quantity)
  }

  /**
   * `getProductName`: a `"null"` category selects the name search in the
   * store, else a `"null"` name selects the category search in the store,
   * else both filters are used. The category test comes first, so when
   * both segments are `"null"` the name search runs with the literal
   * `"null"`; in every other case the query filters on exactly what the
   * segments give.
   */
  function GetProductName(category: string, name: string, storeId: int): (q: ProductQuery)
    ensures Honours(q, name, category, Some(storeId)) <==> !(category == Sentinel && name == Sentinel)
    ensures category == Sentinel && name == Sentinel ==> q == NameLikeInStore(storeId, Sentinel)
  {
    if category == Sentinel then NameLikeInStore(storeId, name)
    else if name == Sentinel then CategoryInStore(storeId, category)
    else NameAndCategoryInStore(storeId, name, category)
  }
}
