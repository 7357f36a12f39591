/**
 * The `/store` endpoints: saving a store, the existence check, and the
 * order endpoint wrapped around `saveOrder`.
 */
module StoreController {
  import opened Wrappers
  import opened JavaLang
  import opened Storage
  import opened Entities
  import opened Repositories
  import opened Http
  import opened OrderService

  /** `addStore`: the store is always saved (an insert when its key is not stored). */
  method AddStore(db: Database, store: Row<Store>) returns (r: Reply)
    requires db.Valid()
    modifies db`stores
    ensures db.Valid()
    ensures r == Reply(OK, "Store added successfully")
    ensures db.stores == old(db.stores.Upsert(store).0)
  {
    var _ := db.SaveStore(store);
    r := Reply(OK, "Store added successfully");
  }

  /** `validateStore`: whether a store is stored under this key. */
  function ValidateStore(db: Database, storeId: int): (ok: bool)
    reads db
    ensures ok <==> exists j :: 0 <= j < |db.stores.rows| && db.stores.rows[j].id == storeId
  {
    db.stores.Get(storeId).Some?
  }

  /**
   * `placeOrderMap`: a completed order gives 201. Only `Error` is caught
   * there, which `saveOrder` never throws, so its runtime exceptions (no
   * such store, a line without an inventory row) leave the endpoint
   * unchanged, with every write made before them kept.
   */
  method PlaceOrderMap(db: Database, req: PlaceOrderRequest, now: int) returns (r: Outcome<Reply>)
    requires db.Valid()
    modifies db`customers, db`orders, db`inventory, db`orderItems
    ensures db.Valid()
    ensures db.Snapshot() == PlaceOrder(old(db.Snapshot()), req, now).after
    ensures PlaceOrder(old(db.Snapshot()), req, now).outcome.Returned? ==>
      r == Returned(Reply(CREATED, "Order placed successfully"))
    ensures PlaceOrder(old(db.Snapshot()), req, now).outcome.Raised? ==>
      r == Raised(PlaceOrder(old(db.Snapshot()), req, now).outcome.exception)
  {
    var outcome := SaveOrder(db, req, now);
    match outcome
    case Returned(_) =>
      r := Returned(Reply(CREATED, "Order placed successfully"));
    case Raised(e) =>
      r := Raised(e);
  }

  /**
   * The endpoint answers 201 exactly when the store exists and every
   * line's product has an inventory row there; otherwise the exception is
   * "Store not found" or a null dereference.
   */
  lemma PlaceOrderMapStatus(t: Tables, req: PlaceOrderRequest, now: int)
    requires t.Valid()
    ensures var outcome := PlaceOrder(t, req, now).outcome;
      && (t.stores.Get(req.storeId).None? ==> outcome == Raised(StoreNotFound))
      && (outcome.Returned? <==>
            t.stores.Get(req.storeId).Some? &&
            forall k :: 0 <= k < |req.purchaseProduct| ==>
              FindInventory(t.inventory, req.purchaseProduct[k].id, req.storeId).Some?)
  {
    PlaceOrderOutcome(t, req, now);
  }
}
