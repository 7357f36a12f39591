/**
 * The validation layer: side-effect-free checks over the product and
 * inventory tables that the controllers run before they write.
 */
module ServiceClass {
  import opened Wrappers
  import opened JavaLang
  import opened Storage
  import opened Entities
  import opened Repositories

  /** `getInventoryId`: the stored row for the request's (product, store) pair, or null. */
  function GetInventoryId(db: Database, inv: Inventory): (r: Option<Row<Inventory>>)
    reads db
    ensures r.Some? ==> r.value in db.inventory.rows && Holds(r.value.val, inv.productId, inv.storeId)
    ensures r.None? <==>
      forall j :: 0 <= j < |db.inventory.rows| ==> !Holds(db.inventory.rows[j].val, inv.productId, inv.storeId)
    ensures db.Valid() ==>
      forall j :: 0 <= j < |db.inventory.rows| && Holds(db.inventory.rows[j].val, inv.productId, inv.storeId) ==>
        r == Some(db.inventory.rows[j])
  {
    FindInventoryUnique(db.inventory);
    FindInventory(db.inventory, inv.productId, inv.storeId)
  }

  /**
   * `validateInventory`: true when the pair has no row yet. Only the row
   * lookup is made; whether the product and the store exist is not checked.
   */
  function ValidateInventory(db: Database, inv: Inventory): (ok: bool)
    reads db
    ensures ok <==> GetInventoryId(db, inv).None?
    ensures ok <==>
      forall j :: 0 <= j < |db.inventory.rows| ==> !Holds(db.inventory.rows[j].val, inv.productId, inv.storeId)
  {
    FindInventory(db.inventory, inv.productId, inv.storeId).None?
  }

  /**
   * `validateProduct`: true when no product has exactly this name (the SKU
   * is not looked at). Names are not unique in the table, and when two
   * products share the name the finder's exception escapes.
   */
  function ValidateProduct(db: Database, p: Product): (r: Outcome<bool>)
    reads db
    ensures r.Raised? <==> NameShared(db.products.rows, p.name)
    ensures r.Raised? ==> r.exception == IncorrectResultSize
    ensures r == Returned(true) <==> forall j :: 0 <= j < |db.products.rows| ==> db.products.rows[j].val.name != p.name
  {
    match FindProductByName(db.products, p.name)
    case Returned(found) => Returned(found.None?)
    case Raised(e) => Raised(e)
  }

  /** `ValidateProductId`: true when a product is stored under this key. */
  function ValidateProductId(db: Database, id: int): (ok: bool)
    reads db
    ensures ok <==> exists j :: 0 <= j < |db.products.rows| && db.products.rows[j].id == id
  {
    db.products.Get(id).Some?
  }
}
