/**
 * Order placement (`OrderService.saveOrder`), exactly as the service does
 * it: resolve or create the customer by email, look up the store, write
 * the order header, then for each purchased line deduct its quantity from
 * the (product, store) inventory row and write an order item. Nothing
 * checks that the stock suffices and nothing is rolled back: each save
 * commits on its own, so a failure part-way leaves the earlier writes in
 * place.
 */
module OrderService {
  import opened Wrappers
  import opened JavaLang
  import opened Storage
  import opened Entities
  import opened Repositories

  /** One purchased line of the request (`PurchaseProductDTO`). */
  datatype PurchaseProduct = PurchaseProduct(id: int, quantity: Int32, price: Money)

  /** The order request (`PlaceOrderRequestDTO`). */
  datatype PlaceOrderRequest = PlaceOrderRequest(
    customerName: string,
    customerEmail: string,
    customerPhone: string,
    storeId: int,
    totalPrice: Money,
    purchaseProduct: seq<PurchaseProduct>)

  /** What a call did: how it ended, and the database afterwards. */
  datatype Placement = Placement(outcome: Outcome<()>, after: Tables)

  /** The exception thrown when the store does not exist. */
  const StoreNotFound: Exception := RuntimeError("Store not found")

  // ---------------------------------------------------------------------
  // The specification, on values

  /** The customer the order is for: the one with the request's email, else a new one saved from the request. */
  function ResolveCustomer(customers: Table<Customer>, req: PlaceOrderRequest): (r: (Table<Customer>, Row<Customer>))
  {
    match FindCustomerByEmail(customers, req.customerEmail)
    case Some(existing) => (customers, existing)
    case None => customers.Insert(Customer(req.customerName, req.customerEmail, req.customerPhone))
  }

  /** The product reference of an order item: null when no product has the line's id. */
  function ProductRef(products: Table<Product>, id: int): (ref: Option<int>) {
    if products.Get(id).Some? then Some(id) else None
  }

  /** The item saved for a line: its quantity, and the line price times the quantity. */
  function ItemFor(products: Table<Product>, orderId: int, line: PurchaseProduct): (item: OrderItem) {
    OrderItem(orderId, ProductRef(products, line.id), line.quantity, line.price * line.quantity)
  }

  /** An inventory row after `setStockLevel(getStockLevel() - quantity)`. */
  function Deducted(row: Row<Inventory>, quantity: Int32): (r: Row<Inventory>) {
    row.(val := row.val.(stockLevel := Sub32(row.val.stockLevel, quantity)))
  }

  /** The inventory after the loop deducts `line` from its row (`save` of the found row). */
  function DeductLine(t: Table<Inventory>, storeId: int, line: PurchaseProduct): (r: Table<Inventory>)
    requires FindInventory(t, line.id, storeId).Some?
  {
    t.Upsert(Deducted(FindInventory(t, line.id, storeId).value, line.quantity)).0
  }

  /** The tables the loop over the lines writes, and whether it got through every line. */
  datatype Lines = Lines(inventory: Table<Inventory>, items: Table<OrderItem>, complete: bool)

  /**
   * The loop over the purchased lines. A line whose (product, store) pair
   * has no inventory row dereferences null and stops the loop there.
   */
  function ApplyLines(products: Table<Product>, orderId: int, storeId: int,
                      inventory: Table<Inventory>, items: Table<OrderItem>,
                      lines: seq<PurchaseProduct>): (r: Lines)
    decreases |lines|
  {
    if lines == [] then Lines(inventory, items, true)
    else if FindInventory(inventory, lines[0].id, storeId).None? then Lines(inventory, items, false)
    else
      ApplyLines(products, orderId, storeId,
                 DeductLine(inventory, storeId, lines[0]),
                 items.Insert(ItemFor(products, orderId, lines[0])).0,
                 lines[1..])
  }

  /** `saveOrder` as a function of the database before the call. */
  function PlaceOrder(t: Tables, req: PlaceOrderRequest, now: int): (r: Placement)
    ensures r.after.products == t.products && r.after.stores == t.stores && r.after.reviews == t.reviews
    // an existing customer with that email is reused and not saved again
    ensures FindCustomerByEmail(t.customers, req.customerEmail).Some? ==> r.after.customers == t.customers
    // otherwise exactly one customer is saved, from the request's fields
    ensures FindCustomerByEmail(t.customers, req.customerEmail).None? ==>
      r.after.customers == Table(t.customers.rows + [Row(t.customers.next,
                                 Customer(req.customerName, req.customerEmail, req.customerPhone))],
                                 t.customers.next + 1)
    // a missing store throws after the customer step and before any other write
    ensures t.stores.Get(req.storeId).None? ==>
      && r.outcome == Raised(StoreNotFound)
      && r.after.orders == t.orders && r.after.inventory == t.inventory && r.after.items == t.items
    // the header carries the resolved customer, the store and the request's total price verbatim
    ensures t.stores.Get(req.storeId).Some? ==>
      r.after.orders == Table(t.orders.rows + [Row(t.orders.next,
                              OrderDetails(ResolveCustomer(t.customers, req).1.id, req.storeId, req.totalPrice, now))],
                              t.orders.next + 1)
    ensures r.outcome.Raised? ==> r.outcome == Raised(StoreNotFound) || r.outcome == Raised(NullPointer)
  {
    var (customers, customer) := ResolveCustomer(t.customers, req);
    match t.stores.Get(req.storeId)
    case None => Placement(Raised(StoreNotFound), t.(customers := customers))
    case Some(store) =>
      var (orders, header) := t.orders.Insert(OrderDetails(customer.id, store.id, req.totalPrice, now));
      var lines := ApplyLines(t.products, header.id, req.storeId, t.inventory, t.items, req.purchaseProduct);
      Placement(if lines.complete then Returned(()) else Raised(NullPointer),
                t.(customers := customers, orders := orders, inventory := lines.inventory, items := lines.items))
  }

  // ---------------------------------------------------------------------
  // Reference definitions for the loop's effect

  /** Number of lines processed before the first line whose pair has no inventory row. */
  function FirstMissing(inventory: Table<Inventory>, storeId: int, lines: seq<PurchaseProduct>): (n: nat)
    ensures n <= |lines|
    decreases |lines|
  {
    if lines == [] || FindInventory(inventory, lines[0].id, storeId).None? then 0
    else 1 + FirstMissing(inventory, storeId, lines[1..])
  }

  /** Every line before `FirstMissing` has a row, and the line at it has none. */
  lemma {:induction false} FirstMissingIsFirst(inventory: Table<Inventory>, storeId: int, lines: seq<PurchaseProduct>)
    ensures var n := FirstMissing(inventory, storeId, lines);
      && (forall k :: 0 <= k < n ==> FindInventory(inventory, lines[k].id, storeId).Some?)
      && (n < |lines| ==> FindInventory(inventory, lines[n].id, storeId).None?)
    decreases |lines|
  {
    if lines != [] && FindInventory(inventory, lines[0].id, storeId).Some? {
      FirstMissingIsFirst(inventory, storeId, lines[1..]);
      var n := FirstMissing(inventory, storeId, lines);
      forall k | 0 <= k < n ensures FindInventory(inventory, lines[k].id, storeId).Some? {
        if k > 0 {
          assert lines[k] == lines[1..][k - 1];
        }
      }
    }
  }

  /** Total quantity the lines order of one product. */
  function Demand(lines: seq<PurchaseProduct>, productId: int): (total: int)
    decreases |lines|
  {
    if lines == [] then 0
    else (if lines[0].id == productId then lines[0].quantity else 0) + Demand(lines[1..], productId)
  }

  /** A row of the ordering store after the lines' total demand for its product is deducted (32-bit). */
  function Restocked(row: Row<Inventory>, storeId: int, lines: seq<PurchaseProduct>): (r: Row<Inventory>) {
    if row.val.storeId == storeId
    then row.(val := row.val.(stockLevel := Wrap32(row.val.stockLevel - Demand(lines, row.val.productId))))
    else row
  }

  lemma {:induction false} DemandAppend(a: seq<PurchaseProduct>, b: seq<PurchaseProduct>, productId: int)
    ensures Demand(a + b, productId) == Demand(a, productId) + Demand(b, productId)
    decreases |a|
  {
    if a == [] {
      assert a + b == b;
    } else {
      assert (a + b)[1..] == a[1..] + b;
      DemandAppend(a[1..], b, productId);
    }
  }

  lemma {:induction false} DemandAbsent(lines: seq<PurchaseProduct>, productId: int)
    requires forall k :: 0 <= k < |lines| ==> lines[k].id != productId
    ensures Demand(lines, productId) == 0
    decreases |lines|
  {
    if lines != [] {
      DemandAbsent(lines[1..], productId);
    }
  }

  lemma RestockedCompose(row: Row<Inventory>, storeId: int, a: seq<PurchaseProduct>, b: seq<PurchaseProduct>)
    ensures Restocked(Restocked(row, storeId, a), storeId, b) == Restocked(row, storeId, a + b)
  {
    if row.val.storeId == storeId {
      DemandAppend(a, b, row.val.productId);
      Wrap32SubAssoc(row.val.stockLevel, Demand(a, row.val.productId), Demand(b, row.val.productId));
    }
  }

  /** `after` is `before` with every row restocked for `lines`, row by row, in the same places. */
  ghost predicate RestockedBy(before: seq<Row<Inventory>>, after: seq<Row<Inventory>>, storeId: int,
                              lines: seq<PurchaseProduct>)
  {
    |after| == |before| && forall j :: 0 <= j < |before| ==> after[j] == Restocked(before[j], storeId, lines)
  }

  lemma RestockedByNothing(rows: seq<Row<Inventory>>, storeId: int)
    ensures RestockedBy(rows, rows, storeId, [])
  {
    forall j | 0 <= j < |rows| ensures rows[j] == Restocked(rows[j], storeId, []) {
      assert Demand([], rows[j].val.productId) == 0;
    }
  }

  lemma RestockedByCompose(a: seq<Row<Inventory>>, b: seq<Row<Inventory>>, c: seq<Row<Inventory>>, storeId: int,
                           l1: seq<PurchaseProduct>, l2: seq<PurchaseProduct>)
    requires RestockedBy(a, b, storeId, l1) && RestockedBy(b, c, storeId, l2)
    ensures RestockedBy(a, c, storeId, l1 + l2)
  {
    forall j | 0 <= j < |a| ensures c[j] == Restocked(a[j], storeId, l1 + l2) {
      RestockedCompose(a[j], storeId, l1, l2);
    }
  }

  /** A first line deducted, then the next n - 1: the first n lines deducted. */
  lemma StockCombine(before: seq<Row<Inventory>>, mid: seq<Row<Inventory>>, after: seq<Row<Inventory>>,
                     storeId: int, lines: seq<PurchaseProduct>, n: int)
    requires 1 <= n <= |lines|
    requires RestockedBy(before, mid, storeId, [lines[0]])
    requires RestockedBy(mid, after, storeId, lines[1..][..n - 1])
    ensures RestockedBy(before, after, storeId, lines[..n])
  {
    PrefixSplit(lines, n);
    RestockedByCompose(before, mid, after, storeId, [lines[0]], lines[1..][..n - 1]);
  }

  lemma PrefixSplit(lines: seq<PurchaseProduct>, n: int)
    requires 1 <= n <= |lines|
    ensures lines[..n] == [lines[0]] + lines[1..][..n - 1]
    ensures lines[..n][0] == lines[0] && lines[..n][1..] == lines[1..][..n - 1]
  {
  }

  lemma DemandSingle(line: PurchaseProduct, productId: int)
    ensures Demand([line], productId) == if line.id == productId then line.quantity else 0
  {
    assert [line][1..] == [];
  }

  /** One deduction keeps keys, pairs and one row per pair. */
  lemma DeductShape(t: Table<Inventory>, storeId: int, line: PurchaseProduct)
    requires t.Valid() && PairsUnique(t.rows)
    requires FindInventory(t, line.id, storeId).Some?
    ensures var t' := DeductLine(t, storeId, line);
      && t'.Valid() && PairsUnique(t'.rows)
      && |t'.rows| == |t.rows| && t'.next == t.next
      && (forall j :: 0 <= j < |t.rows| ==> Holds(t'.rows[j].val, t.rows[j].val.productId, t.rows[j].val.storeId))
  {
    var row := FindInventory(t, line.id, storeId).value;
    var d := Deducted(row, line.quantity);
    assert t.Get(row.id).Some?;
    assert DeductLine(t, storeId, line) == t.Replace(d);
    ReplaceKeepsPairsUnique(t, d);
  }

  /** One deduction changes only the found row, by the line's quantity. */
  lemma DeductStock(t: Table<Inventory>, storeId: int, line: PurchaseProduct)
    requires t.Valid() && PairsUnique(t.rows)
    requires FindInventory(t, line.id, storeId).Some?
    ensures var t' := DeductLine(t, storeId, line);
      t'.next == t.next && RestockedBy(t.rows, t'.rows, storeId, [line])
  {
    var row := FindInventory(t, line.id, storeId).value;
    var d := Deducted(row, line.quantity);
    assert row.id == d.id && FindInventory(t, d.val.productId, d.val.storeId) == Some(row);
    assert t.Get(row.id).Some?;
    var t' := DeductLine(t, storeId, line);
    assert t' == t.Replace(Row(row.id, d.val));
    OverwriteFoundRows(t, d.val);
    forall j | 0 <= j < |t.rows| ensures t'.rows[j] == Restocked(t.rows[j], storeId, [line]) {
      DemandSingle(line, t.rows[j].val.productId);
      if Holds(t.rows[j].val, line.id, storeId) {
        FindInventoryAt(t, j);
      }
    }
  }

  /** Deductions never add or remove a pair, so the line at which the loop stops does not move. */
  lemma {:induction false} FirstMissingStable(t: Table<Inventory>, t': Table<Inventory>, storeId: int,
                                               lines: seq<PurchaseProduct>)
    requires |t'.rows| == |t.rows|
    requires forall j :: 0 <= j < |t.rows| ==> Holds(t'.rows[j].val, t.rows[j].val.productId, t.rows[j].val.storeId)
    ensures FirstMissing(t', storeId, lines) == FirstMissing(t, storeId, lines)
    decreases |lines|
  {
    if lines != [] {
      var p := lines[0].id;
      var none := FindInventory(t, p, storeId).None?;
      var none' := FindInventory(t', p, storeId).None?;
      assert none == none' by {
        if !none {
          var r := FindInventory(t, p, storeId).value;
          var j :| 0 <= j < |t.rows| && t.rows[j] == r;
          assert Holds(t'.rows[j].val, p, storeId);
        }
        if !none' {
          var r := FindInventory(t', p, storeId).value;
          var j :| 0 <= j < |t'.rows| && t'.rows[j] == r;
          assert Holds(t.rows[j].val, p, storeId);
        }
      }
      FirstMissingStable(t, t', storeId, lines[1..]);
    }
  }

  /** One turn of the loop at line i: deduct, save the item, carry on with the lines after it. */
  lemma ApplyLinesStep(products: Table<Product>, orderId: int, storeId: int,
                       inventory: Table<Inventory>, items: Table<OrderItem>,
                       lines: seq<PurchaseProduct>, i: int)
    requires 0 <= i < |lines| && FindInventory(inventory, lines[i].id, storeId).Some?
    ensures ApplyLines(products, orderId, storeId, inventory, items, lines[i..]) ==
            ApplyLines(products, orderId, storeId, DeductLine(inventory, storeId, lines[i]),
                       items.Insert(ItemFor(products, orderId, lines[i])).0, lines[i + 1..])
  {
    assert lines[i..][0] == lines[i] && lines[i..][1..] == lines[i + 1..];
  }

  /** After a successful first line the rest of the loop stops one line earlier, on a table that keeps the invariants. */
  lemma DeductAdvances(inventory: Table<Inventory>, storeId: int, lines: seq<PurchaseProduct>)
    requires inventory.Valid() && PairsUnique(inventory.rows)
    requires lines != [] && FindInventory(inventory, lines[0].id, storeId).Some?
    ensures var inv' := DeductLine(inventory, storeId, lines[0]);
      && inv'.Valid() && PairsUnique(inv'.rows)
      && FirstMissing(inv', storeId, lines[1..]) + 1 == FirstMissing(inventory, storeId, lines)
  {
    var inv' := DeductLine(inventory, storeId, lines[0]);
    DeductShape(inventory, storeId, lines[0]);
    FirstMissingStable(inventory, inv', storeId, lines[1..]);
  }

  // ---------------------------------------------------------------------
  // What the loop does

  /** The loop completes exactly when every line's pair has an inventory row. */
  lemma {:induction false} ApplyLinesComplete(products: Table<Product>, orderId: int, storeId: int,
                                               inventory: Table<Inventory>, items: Table<OrderItem>,
                                               lines: seq<PurchaseProduct>)
    requires inventory.Valid() && PairsUnique(inventory.rows)
    ensures ApplyLines(products, orderId, storeId, inventory, items, lines).complete <==>
            FirstMissing(inventory, storeId, lines) == |lines|
    decreases |lines|
  {
    if lines != [] && FindInventory(inventory, lines[0].id, storeId).Some? {
      var inv' := DeductLine(inventory, storeId, lines[0]);
      DeductAdvances(inventory, storeId, lines);
      ApplyLinesComplete(products, orderId, storeId, inv', items.Insert(ItemFor(products, orderId, lines[0])).0, lines[1..]);
    }
  }

  /** The loop keeps the inventory's keys, its key counter and one row per pair. */
  lemma {:induction false} ApplyLinesKeepsInventory(products: Table<Product>, orderId: int, storeId: int,
                                                     inventory: Table<Inventory>, items: Table<OrderItem>,
                                                     lines: seq<PurchaseProduct>)
    requires inventory.Valid() && PairsUnique(inventory.rows)
    ensures var r := ApplyLines(products, orderId, storeId, inventory, items, lines);
      r.inventory.Valid() && PairsUnique(r.inventory.rows) && r.inventory.next == inventory.next
    decreases |lines|
  {
    if lines != [] && FindInventory(inventory, lines[0].id, storeId).Some? {
      var inv' := DeductLine(inventory, storeId, lines[0]);
      DeductShape(inventory, storeId, lines[0]);
      ApplyLinesKeepsInventory(products, orderId, storeId, inv', items.Insert(ItemFor(products, orderId, lines[0])).0,
                               lines[1..]);
    }
  }

  /** The loop's first line: deducting it, then the rest, restocks the rows for the processed lines. */
  lemma StockStep(products: Table<Product>, orderId: int, storeId: int,
                  inventory: Table<Inventory>, items: Table<OrderItem>, lines: seq<PurchaseProduct>)
    requires inventory.Valid() && PairsUnique(inventory.rows)
    requires lines != [] && FindInventory(inventory, lines[0].id, storeId).Some?
    requires var inv' := DeductLine(inventory, storeId, lines[0]);
             var items' := items.Insert(ItemFor(products, orderId, lines[0])).0;
      RestockedBy(inv'.rows, ApplyLines(products, orderId, storeId, inv', items', lines[1..]).inventory.rows,
                  storeId, lines[1..][..FirstMissing(inv', storeId, lines[1..])])
    ensures RestockedBy(inventory.rows, ApplyLines(products, orderId, storeId, inventory, items, lines).inventory.rows,
                        storeId, lines[..FirstMissing(inventory, storeId, lines)])
  {
    var n := FirstMissing(inventory, storeId, lines);
    var inv' := DeductLine(inventory, storeId, lines[0]);
    var items' := items.Insert(ItemFor(products, orderId, lines[0])).0;
    var r := ApplyLines(products, orderId, storeId, inv', items', lines[1..]);
    assert ApplyLines(products, orderId, storeId, inventory, items, lines) == r;
    assert FirstMissing(inv', storeId, lines[1..]) == n - 1 by {
      DeductAdvances(inventory, storeId, lines);
    }
    assert RestockedBy(inventory.rows, inv'.rows, storeId, [lines[0]]) by {
      DeductStock(inventory, storeId, lines[0]);
    }
    StockCombine(inventory.rows, inv'.rows, r.inventory.rows, storeId, lines, n);
  }

  /**
   * Stock: every row of the ordering store loses the total quantity that
   * the processed lines order of its product (with 32-bit wrap-around and
   * no lower bound); rows of other stores are untouched; no row is added,
   * removed or moved.
   */
  lemma {:induction false} ApplyLinesStock(products: Table<Product>, orderId: int, storeId: int,
                                            inventory: Table<Inventory>, items: Table<OrderItem>,
                                            lines: seq<PurchaseProduct>)
    requires inventory.Valid() && PairsUnique(inventory.rows)
    ensures RestockedBy(inventory.rows, ApplyLines(products, orderId, storeId, inventory, items, lines).inventory.rows,
                        storeId, lines[..FirstMissing(inventory, storeId, lines)])
    decreases |lines|
  {
    if lines == [] || FindInventory(inventory, lines[0].id, storeId).None? {
      assert lines[..FirstMissing(inventory, storeId, lines)] == [];
      RestockedByNothing(inventory.rows, storeId);
    } else {
      var inv' := DeductLine(inventory, storeId, lines[0]);
      assert inv'.Valid() && PairsUnique(inv'.rows) by {
        DeductShape(inventory, storeId, lines[0]);
      }
      ApplyLinesStock(products, orderId, storeId, inv', items.Insert(ItemFor(products, orderId, lines[0])).0, lines[1..]);
      StockStep(products, orderId, storeId, inventory, items, lines);
    }
  }

  /** The items of a run of lines saved one after another from key `next` on. */
  function NewItems(products: Table<Product>, orderId: int, next: int, lines: seq<PurchaseProduct>): (r: seq<Row<OrderItem>>)
    ensures |r| == |lines|
    decreases |lines|
  {
    if lines == [] then []
    else [Row(next, ItemFor(products, orderId, lines[0]))] + NewItems(products, orderId, next + 1, lines[1..])
  }

  /** The k-th new item is line k's, under key `next + k`. */
  lemma {:induction false} NewItemsAt(products: Table<Product>, orderId: int, next: int,
                                       lines: seq<PurchaseProduct>, k: int)
    requires 0 <= k < |lines|
    ensures |NewItems(products, orderId, next, lines)| == |lines|
    ensures NewItems(products, orderId, next, lines)[k] == Row(next + k, ItemFor(products, orderId, lines[k]))
    decreases |lines|
  {
    if k > 0 {
      NewItemsAt(products, orderId, next + 1, lines[1..], k - 1);
    } else if |lines| > 1 {
      NewItemsAt(products, orderId, next + 1, lines[1..], 0);
    }
  }

  /**
   * Items: the processed lines' items appended in line order under fresh
   * keys; earlier items untouched.
   */
  lemma {:induction false} ApplyLinesItems(products: Table<Product>, orderId: int, storeId: int,
                                            inventory: Table<Inventory>, items: Table<OrderItem>,
                                            lines: seq<PurchaseProduct>)
    requires inventory.Valid() && PairsUnique(inventory.rows)
    ensures var r := ApplyLines(products, orderId, storeId, inventory, items, lines);
            var n := FirstMissing(inventory, storeId, lines);
      && r.items.rows == items.rows + NewItems(products, orderId, items.next, lines[..n])
      && r.items.next == items.next + n
    decreases |lines|
  {
    var r := ApplyLines(products, orderId, storeId, inventory, items, lines);
    var n := FirstMissing(inventory, storeId, lines);
    if lines == [] || FindInventory(inventory, lines[0].id, storeId).None? {
      assert lines[..n] == [];
      assert r.items.rows == items.rows + [];
      assert r.items.rows == items.rows + NewItems(products, orderId, items.next, lines[..n]);
      assert r.items.next == items.next + n;
    } else {
      var inv' := DeductLine(inventory, storeId, lines[0]);
      var items' := items.Insert(ItemFor(products, orderId, lines[0])).0;
      DeductAdvances(inventory, storeId, lines);
      ApplyLinesItems(products, orderId, storeId, inv', items', lines[1..]);
      assert r == ApplyLines(products, orderId, storeId, inv', items', lines[1..]);
      ItemsCombine(products, orderId, lines, n, FirstMissing(inv', storeId, lines[1..]),
                   items.rows, items.next, items'.rows, items'.next, r.items.rows);
    }
  }

  lemma ItemsCombine(products: Table<Product>, orderId: int, lines: seq<PurchaseProduct>, n: int, m: int,
                     rows: seq<Row<OrderItem>>, next: int, rows': seq<Row<OrderItem>>, next': int,
                     result: seq<Row<OrderItem>>)
    requires 1 <= n <= |lines| && m == n - 1
    requires rows' == rows + [Row(next, ItemFor(products, orderId, lines[0]))] && next' == next + 1
    requires result == rows' + NewItems(products, orderId, next', lines[1..][..m])
    ensures result == rows + NewItems(products, orderId, next, lines[..n])
  {
    NewItemsCons(products, orderId, next, lines, n);
  }

  lemma NewItemsCons(products: Table<Product>, orderId: int, next: int, lines: seq<PurchaseProduct>, n: int)
    requires 1 <= n <= |lines|
    ensures NewItems(products, orderId, next, lines[..n]) ==
            [Row(next, ItemFor(products, orderId, lines[0]))] + NewItems(products, orderId, next + 1, lines[1..][..n - 1])
  {
    PrefixSplit(lines, n);
  }

  /**
   * `after` is `before` followed by one item per line, in line order,
   * under the next free keys, each pointing at the order, with the line's
   * quantity and the line's price times that quantity.
   */
  ghost predicate AppendsItems(before: Table<OrderItem>, after: Table<OrderItem>, products: Table<Product>,
                               orderId: int, lines: seq<PurchaseProduct>)
  {
    && |after.rows| == |before.rows| + |lines|
    && after.rows[..|before.rows|] == before.rows
    && after.next == before.next + |lines|
    && forall k :: 0 <= k < |lines| ==>
         after.rows[|before.rows| + k] ==
         Row(before.next + k, OrderItem(orderId, ProductRef(products, lines[k].id),
                                        lines[k].quantity, lines[k].price * lines[k].quantity))
  }

  /** Items pointwise: one per processed line, referencing the header, with the line's quantity and price times quantity. */
  lemma ApplyLinesEachItem(products: Table<Product>, orderId: int, storeId: int,
                           inventory: Table<Inventory>, items: Table<OrderItem>,
                           lines: seq<PurchaseProduct>)
    requires inventory.Valid() && PairsUnique(inventory.rows)
    ensures var r := ApplyLines(products, orderId, storeId, inventory, items, lines);
            var n := FirstMissing(inventory, storeId, lines);
      AppendsItems(items, r.items, products, orderId, lines[..n])
  {
    var n := FirstMissing(inventory, storeId, lines);
    var r := ApplyLines(products, orderId, storeId, inventory, items, lines);
    ApplyLinesItems(products, orderId, storeId, inventory, items, lines);
    assert r.items.rows[..|items.rows|] == items.rows;
    forall k | 0 <= k < n
      ensures r.items.rows[|items.rows| + k] ==
              Row(items.next + k, OrderItem(orderId, ProductRef(products, lines[..n][k].id),
                                            lines[..n][k].quantity, lines[..n][k].price * lines[..n][k].quantity))
    {
      NewItemsAt(products, orderId, items.next, lines[..n], k);
    }
  }

  /** A loop that stops at line n has done exactly what a request of the first n lines does. */
  lemma {:induction false} ApplyLinesPrefix(products: Table<Product>, orderId: int, storeId: int,
                                             inventory: Table<Inventory>, items: Table<OrderItem>,
                                             lines: seq<PurchaseProduct>)
    requires inventory.Valid() && PairsUnique(inventory.rows)
    ensures var n := FirstMissing(inventory, storeId, lines);
            var r := ApplyLines(products, orderId, storeId, inventory, items, lines);
      ApplyLines(products, orderId, storeId, inventory, items, lines[..n]) == r.(complete := true)
    decreases |lines|
  {
    var n := FirstMissing(inventory, storeId, lines);
    if lines == [] || FindInventory(inventory, lines[0].id, storeId).None? {
      assert lines[..n] == [];
    } else {
      var inv' := DeductLine(inventory, storeId, lines[0]);
      var items' := items.Insert(ItemFor(products, orderId, lines[0])).0;
      DeductAdvances(inventory, storeId, lines);
      ApplyLinesPrefix(products, orderId, storeId, inv', items', lines[1..]);
      PrefixSplit(lines, n);
      var m := lines[..n];
      assert m != [] && m[0] == lines[0] && m[1..] == lines[1..][..n - 1];
      assert ApplyLines(products, orderId, storeId, inventory, items, m) ==
             ApplyLines(products, orderId, storeId, inv', items', m[1..]);
      assert ApplyLines(products, orderId, storeId, inventory, items, lines) ==
             ApplyLines(products, orderId, storeId, inv', items', lines[1..]);
    }
  }

  /** Order items only ever get appended, so the items table keeps its keys fresh. */
  lemma {:induction false} ApplyLinesKeepsItemsValid(products: Table<Product>, orderId: int, storeId: int,
                                                      inventory: Table<Inventory>, items: Table<OrderItem>,
                                                      lines: seq<PurchaseProduct>)
    requires items.Valid()
    ensures ApplyLines(products, orderId, storeId, inventory, items, lines).items.Valid()
    decreases |lines|
  {
    if lines != [] && FindInventory(inventory, lines[0].id, storeId).Some? {
      ApplyLinesKeepsItemsValid(products, orderId, storeId, DeductLine(inventory, storeId, lines[0]),
                                items.Insert(ItemFor(products, orderId, lines[0])).0, lines[1..]);
    }
  }

  // ---------------------------------------------------------------------
  // What an order does to the database

  /** With one customer per email, the finder returns the customer stored with that email. */
  lemma FindCustomerAt(t: Table<Customer>, j: int)
    requires EmailsUnique(t.rows) && 0 <= j < |t.rows|
    ensures FindCustomerByEmail(t, t.rows[j].val.email) == Some(t.rows[j])
  {
    var r := FindCustomerByEmail(t, t.rows[j].val.email);
    assert r.Some?;
    var i :| 0 <= i < |t.rows| && t.rows[i] == r.value;
    assert i == j by {
      if i < j {} else if j < i {}
    }
  }

  /** With the store found, the inventory, the items and the ending are the loop's. */
  lemma PlaceOrderLines(t: Tables, req: PlaceOrderRequest, now: int)
    requires t.stores.Get(req.storeId).Some?
    ensures var r := PlaceOrder(t, req, now);
            var lines := ApplyLines(t.products, t.orders.next, req.storeId, t.inventory, t.items, req.purchaseProduct);
      && r.after.inventory == lines.inventory && r.after.items == lines.items
      && r.outcome == (if lines.complete then Returned(()) else Raised(NullPointer))
  {
  }

  /** `PlaceOrder` with the store found, in terms of the values each step produced. */
  lemma PlaceOrderAfterStore(t: Tables, req: PlaceOrderRequest, now: int,
                             customers: Table<Customer>, customer: Row<Customer>,
                             orders: Table<OrderDetails>, header: Row<OrderDetails>, lines: Lines)
    requires t.stores.Get(req.storeId).Some?
    requires (customers, customer) == ResolveCustomer(t.customers, req)
    requires (orders, header) == t.orders.Insert(OrderDetails(customer.id, req.storeId, req.totalPrice, now))
    requires lines == ApplyLines(t.products, header.id, req.storeId, t.inventory, t.items, req.purchaseProduct)
    ensures PlaceOrder(t, req, now) ==
      Placement(if lines.complete then Returned(()) else Raised(NullPointer),
                t.(customers := customers, orders := orders, inventory := lines.inventory, items := lines.items))
  {
  }

  /** An order keeps every invariant of the stored data, whether it succeeds or throws. */
  lemma PlaceOrderValid(t: Tables, req: PlaceOrderRequest, now: int)
    requires t.Valid()
    ensures PlaceOrder(t, req, now).after.Valid()
  {
    var r := PlaceOrder(t, req, now);
    if FindCustomerByEmail(t.customers, req.customerEmail).None? {
      InsertKeepsEmailsUnique(t.customers, Customer(req.customerName, req.customerEmail, req.customerPhone));
    }
    if t.stores.Get(req.storeId).Some? {
      var orderId := t.orders.next;
      ApplyLinesKeepsInventory(t.products, orderId, req.storeId, t.inventory, t.items, req.purchaseProduct);
      ApplyLinesKeepsItemsValid(t.products, orderId, req.storeId, t.inventory, t.items, req.purchaseProduct);
    }
  }

  /**
   * Stock after an order to an existing store: each inventory row of that
   * store has lost, with 32-bit wrap-around, the total quantity that the
   * processed lines order of its product; no row is added, removed or
   * moved, and rows of other stores keep their stock. `n` is the number of
   * processed lines: all of them, or those before the first line whose
   * product has no inventory row in the store.
   */
  lemma PlaceOrderStock(t: Tables, req: PlaceOrderRequest, now: int)
    requires t.inventory.Valid() && PairsUnique(t.inventory.rows) && t.stores.Get(req.storeId).Some?
    ensures var n := FirstMissing(t.inventory, req.storeId, req.purchaseProduct);
      RestockedBy(t.inventory.rows, PlaceOrder(t, req, now).after.inventory.rows, req.storeId, req.purchaseProduct[..n])
  {
    PlaceOrderLines(t, req, now);
    ApplyLinesStock(t.products, t.orders.next, req.storeId, t.inventory, t.items, req.purchaseProduct);
  }

  /**
   * Nothing checks the stock: when the arithmetic stays within `int`, the
   * row's stock is exactly the old stock minus the quantities ordered,
   * negative or not.
   */
  lemma PlaceOrderDeductsExactly(t: Tables, req: PlaceOrderRequest, now: int, j: int)
    requires t.inventory.Valid() && PairsUnique(t.inventory.rows) && t.stores.Get(req.storeId).Some?
    requires 0 <= j < |t.inventory.rows| && t.inventory.rows[j].val.storeId == req.storeId
    requires var n := FirstMissing(t.inventory, req.storeId, req.purchaseProduct);
             var left := t.inventory.rows[j].val.stockLevel - Demand(req.purchaseProduct[..n], t.inventory.rows[j].val.productId);
             MIN_INT <= left <= MAX_INT
    ensures var after := PlaceOrder(t, req, now).after;
            var n := FirstMissing(t.inventory, req.storeId, req.purchaseProduct);
      && |after.inventory.rows| == |t.inventory.rows|
      && after.inventory.rows[j].val.stockLevel ==
         t.inventory.rows[j].val.stockLevel - Demand(req.purchaseProduct[..n], t.inventory.rows[j].val.productId)
  {
    PlaceOrderStock(t, req, now);
  }

  /** A product that no line names keeps its stock everywhere. */
  lemma PrefixAbsent(lines: seq<PurchaseProduct>, n: int, productId: int)
    requires 0 <= n <= |lines| && forall k :: 0 <= k < |lines| ==> lines[k].id != productId
    ensures Demand(lines[..n], productId) == 0
  {
    var done := lines[..n];
    forall k | 0 <= k < |done| ensures done[k].id != productId {
      assert done[k] == lines[k];
    }
    DemandAbsent(done, productId);
  }

  lemma RestockedByAbsent(before: seq<Row<Inventory>>, after: seq<Row<Inventory>>, storeId: int,
                          lines: seq<PurchaseProduct>, j: int)
    requires RestockedBy(before, after, storeId, lines) && 0 <= j < |before|
    requires Demand(lines, before[j].val.productId) == 0
    ensures |after| == |before| && after[j] == before[j]
  {
    assert after[j] == Restocked(before[j], storeId, lines);
  }

  lemma PlaceOrderLeavesOtherProducts(t: Tables, req: PlaceOrderRequest, now: int, j: int)
    requires t.inventory.Valid() && PairsUnique(t.inventory.rows) && 0 <= j < |t.inventory.rows|
    requires forall k :: 0 <= k < |req.purchaseProduct| ==> req.purchaseProduct[k].id != t.inventory.rows[j].val.productId
    ensures var after := PlaceOrder(t, req, now).after;
      |after.inventory.rows| == |t.inventory.rows| && after.inventory.rows[j] == t.inventory.rows[j]
  {
    if t.stores.Get(req.storeId).Some? {
      var n := FirstMissing(t.inventory, req.storeId, req.purchaseProduct);
      PrefixAbsent(req.purchaseProduct, n, t.inventory.rows[j].val.productId);
      PlaceOrderStock(t, req, now);
      RestockedByAbsent(t.inventory.rows, PlaceOrder(t, req, now).after.inventory.rows, req.storeId,
                        req.purchaseProduct[..n], j);
    }
  }

  /**
   * Items after an order to an existing store: the earlier items are kept,
   * and one item per processed line follows, in line order, under fresh
   * keys, pointing at the new header, with the line's quantity and its
   * price times that quantity.
   */
  lemma PlaceOrderItems(t: Tables, req: PlaceOrderRequest, now: int)
    requires t.inventory.Valid() && PairsUnique(t.inventory.rows) && t.stores.Get(req.storeId).Some?
    ensures var n := FirstMissing(t.inventory, req.storeId, req.purchaseProduct);
      AppendsItems(t.items, PlaceOrder(t, req, now).after.items, t.products, t.orders.next, req.purchaseProduct[..n])
  {
    PlaceOrderLines(t, req, now);
    ApplyLinesEachItem(t.products, t.orders.next, req.storeId, t.inventory, t.items, req.purchaseProduct);
  }

  /**
   * How an order ends: normally exactly when the store exists and every
   * line's product has an inventory row in it; with a null dereference
   * exactly when the store exists and some line's product has none.
   */
  lemma PlaceOrderOutcome(t: Tables, req: PlaceOrderRequest, now: int)
    requires t.inventory.Valid() && PairsUnique(t.inventory.rows)
    ensures var outcome := PlaceOrder(t, req, now).outcome;
            var lines := req.purchaseProduct;
      && (outcome == Returned(()) <==>
            t.stores.Get(req.storeId).Some? &&
            forall k :: 0 <= k < |lines| ==> FindInventory(t.inventory, lines[k].id, req.storeId).Some?)
      && (outcome == Raised(NullPointer) <==>
            t.stores.Get(req.storeId).Some? &&
            exists k :: 0 <= k < |lines| && FindInventory(t.inventory, lines[k].id, req.storeId).None?)
  {
    if t.stores.Get(req.storeId).Some? {
      var lines := req.purchaseProduct;
      PlaceOrderLines(t, req, now);
      FirstMissingIsFirst(t.inventory, req.storeId, lines);
      ApplyLinesComplete(t.products, t.orders.next, req.storeId, t.inventory, t.items, lines);
      var n := FirstMissing(t.inventory, req.storeId, lines);
      if n < |lines| {
        assert FindInventory(t.inventory, lines[n].id, req.storeId).None?;
      }
    }
  }

  /**
   * No rollback: an order that stops at line n leaves the database exactly
   * as a successful order of its first n lines would have.
   */
  lemma PlaceOrderFailureKeepsEarlierLines(t: Tables, req: PlaceOrderRequest, now: int)
    requires t.inventory.Valid() && PairsUnique(t.inventory.rows) && t.stores.Get(req.storeId).Some?
    ensures var n := FirstMissing(t.inventory, req.storeId, req.purchaseProduct);
      PlaceOrder(t, req.(purchaseProduct := req.purchaseProduct[..n]), now) ==
      Placement(Returned(()), PlaceOrder(t, req, now).after)
  {
    var n := FirstMissing(t.inventory, req.storeId, req.purchaseProduct);
    var orderId := t.orders.next;
    ApplyLinesPrefix(t.products, orderId, req.storeId, t.inventory, t.items, req.purchaseProduct);
  }

  /**
   * A second order with the same email saves no second customer and is
   * placed for the customer the first order was placed for.
   */
  lemma RepeatedEmailReusesCustomer(t: Tables, req1: PlaceOrderRequest, now1: int, req2: PlaceOrderRequest, now2: int)
    requires t.Valid() && req2.customerEmail == req1.customerEmail
    ensures var after1 := PlaceOrder(t, req1, now1).after;
      && PlaceOrder(after1, req2, now2).after.customers == after1.customers
      && ResolveCustomer(after1.customers, req2).1 == ResolveCustomer(t.customers, req1).1
  {
    var after1 := PlaceOrder(t, req1, now1).after;
    PlaceOrderValid(t, req1, now1);
    var c := ResolveCustomer(t.customers, req1).1;
    assert c in after1.customers.rows;
    var j :| 0 <= j < |after1.customers.rows| && after1.customers.rows[j] == c;
    FindCustomerAt(after1.customers, j);
  }

  // ---------------------------------------------------------------------
  // The service method

  /**
   * The loop of `saveOrder` over the purchased lines: per line, find the
   * inventory row, save it with the quantity deducted, and save the order
   * item. `complete` is false when a line's row is missing, which throws.
   */
  method SaveLines(db: Database, orderId: int, storeId: int, lines: seq<PurchaseProduct>) returns (complete: bool)
    modifies db`inventory, db`orderItems
    ensures Lines(db.inventory, db.orderItems, complete) ==
            ApplyLines(db.products, orderId, storeId, old(db.inventory), old(db.orderItems), lines)
  {
    ghost var inventory0, items0 := db.inventory, db.orderItems;
    var i := 0;
    while i < |lines|
      invariant 0 <= i <= |lines|
      invariant ApplyLines(db.products, orderId, storeId, db.inventory, db.orderItems, lines[i..]) ==
                ApplyLines(db.products, orderId, storeId, inventory0, items0, lines)
    {
      var found := FindInventory(db.inventory, lines[i].id, storeId);
      if found.None? {
        assert lines[i..][0] == lines[i];
        return false;
      }
      ApplyLinesStep(db.products, orderId, storeId, db.inventory, db.orderItems, lines, i);
      var _ := db.SaveInventory(Deducted(found.value, lines[i].quantity));
      var item := OrderItem(orderId, ProductRef(db.products, lines[i].id),
                            lines[i].quantity, lines[i].price * lines[i].quantity);
      var _ := db.SaveOrderItem(item);
      i := i + 1;
    }
    return true;
  }

  /**
   * `saveOrder`: the repository calls one after another on the live
   * database. It ends as `PlaceOrder` says and leaves the database as
   * `PlaceOrder` computes, including the writes made before a throw.
   */
  method SaveOrder(db: Database, req: PlaceOrderRequest, now: int) returns (outcome: Outcome<()>)
    requires db.Valid()
    modifies db`customers, db`orders, db`inventory, db`orderItems
    ensures db.Valid()
    ensures Placement(outcome, db.Snapshot()) == PlaceOrder(old(db.Snapshot()), req, now)
  {
    ghost var t := db.Snapshot();
    PlaceOrderValid(t, req, now);
    var customer: Row<Customer>;
    var existing := FindCustomerByEmail(db.customers, req.customerEmail);
    if existing.None? {
      customer := db.SaveCustomer(Customer(req.customerName, req.customerEmail, req.customerPhone));
    } else {
      customer := existing.value;
    }
    assert (db.customers, customer) == ResolveCustomer(t.customers, req);
    var store := db.stores.Get(req.storeId);
    if store.None? {
      assert db.Snapshot() == t.(customers := db.customers);
      return Raised(StoreNotFound);
    }
    var header := db.SaveOrderDetails(OrderDetails(customer.id, store.value.id, req.totalPrice, now));
    ghost var customers, orders := db.customers, db.orders;
    assert (orders, header) == t.orders.Insert(OrderDetails(customer.id, store.value.id, req.totalPrice, now));
    ghost var expected := ApplyLines(t.products, header.id, req.storeId, t.inventory, t.items, req.purchaseProduct);
    PlaceOrderAfterStore(t, req, now, customers, customer, orders, header, expected);
    assert db.products == t.products && db.inventory == t.inventory && db.orderItems == t.items;
    var complete := SaveLines(db, header.id, req.storeId, req.purchaseProduct);
    outcome := if complete then Returned(()) else Raised(NullPointer);
    assert Lines(db.inventory, db.orderItems, complete) == expected;
    assert db.Snapshot() == t.(customers := customers, orders := orders,
                               inventory := expected.inventory, items := expected.items);
  }
}
