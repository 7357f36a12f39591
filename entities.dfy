/**
 * The entities of the retail back office as plain values. Where the Java
 * entities hold object references to each other (an inventory row points
 * at its Product and its Store, an order at its Customer), these hold the
 * referenced row's key instead.
 */
module Entities {
  import opened Wrappers
  import opened JavaLang
  import opened Storage

  /** Prices are whole cents; the service stores them as `Double`. */
  type Money = int

  datatype Product = Product(name: string, category: string, price: Money, sku: string)

  datatype Store = Store(name: string, address: string)

  /** Stock of one product in one store. */
  datatype Inventory = Inventory(productId: int, storeId: int, stockLevel: Int32)

  datatype Customer = Customer(name: string, email: string, phone: string)

  /** An order header; `date` is the timestamp taken when it was created. */
  datatype OrderDetails = OrderDetails(customerId: int, storeId: int, totalPrice: Money, date: int)

  /** One line of an order; `productId` is null when the product could not be found. */
  datatype OrderItem = OrderItem(orderId: int, productId: Option<int>, quantity: Int32, price: Money)

  /** A review document (stored apart from the relational tables). */
  datatype Review = Review(storeId: int, productId: int, customerId: int, comment: string, rating: int)

  // ---------------------------------------------------------------------
  // Finders of the repositories

  /** `inventoryRepository.findByProductIdAndStoreId`. */
  function FindInventory(t: Table<Inventory>, productId: int, storeId: int): (r: Option<Row<Inventory>>)
    ensures r.Some? ==> r.value in t.rows && r.value.val.productId == productId && r.value.val.storeId == storeId
    ensures r.None? <==> forall j :: 0 <= j < |t.rows| ==> !Holds(t.rows[j].val, productId, storeId)
  {
    FirstWhere(t.rows, (x: Row<Inventory>) => Holds(x.val, productId, storeId))
  }

  /** The row is the stock of that product in that store. */
  predicate Holds(inv: Inventory, productId: int, storeId: int) {
    inv.productId == productId && inv.storeId == storeId
  }

  /** `customerRepository.findByEmail`. */
  function FindCustomerByEmail(t: Table<Customer>, email: string): (r: Option<Row<Customer>>)
    ensures r.Some? ==> r.value in t.rows && r.value.val.email == email
    ensures r.None? <==> forall j :: 0 <= j < |t.rows| ==> t.rows[j].val.email != email
  {
    FirstWhere(t.rows, (x: Row<Customer>) => x.val.email == email)
  }

  /**
   * `productRepository.findByName`, a single-result finder: the product
   * with that name, null when there is none, and an exception when two or
   * more products hold the name.
   */
  function FindProductByName(t: Table<Product>, name: string): (r: Outcome<Option<Row<Product>>>)
    ensures r.Raised? <==> NameShared(t.rows, name)
    ensures r.Raised? ==> r.exception == IncorrectResultSize
    ensures r == Returned(None) <==> forall j :: 0 <= j < |t.rows| ==> t.rows[j].val.name != name
    ensures r.Returned? && r.value.Some? ==> r.value.value in t.rows && r.value.value.val.name == name
  {
    var p := (x: Row<Product>) => x.val.name == name;
    var i := IndexWhere(t.rows, p);
    if i == |t.rows| then Returned(None)
    else
      var k := IndexWhere(t.rows[i + 1..], p);
      if k < |t.rows[i + 1..]| then
        assert t.rows[i + 1..][k] == t.rows[i + 1 + k];
        Raised(IncorrectResultSize)
      else
        assert !NameShared(t.rows, name) by {
          forall a, b | 0 <= a < b < |t.rows| && t.rows[a].val.name == name
            ensures t.rows[b].val.name != name
          {
            assert t.rows[i + 1..][b - i - 1] == t.rows[b];
          }
        }
        Returned(Some(t.rows[i]))
  }

  /** Two or more stored products hold the name. */
  ghost predicate NameShared(rows: seq<Row<Product>>, name: string) {
    exists a, b :: 0 <= a < b < |rows| && rows[a].val.name == name && rows[b].val.name == name
  }

  // ---------------------------------------------------------------------
  // Invariants the data keeps

  /** At most one inventory row per (product, store) pair. */
  ghost predicate PairsUnique(rows: seq<Row<Inventory>>) {
    forall i, j :: 0 <= i < j < |rows| ==>
      !Holds(rows[j].val, rows[i].val.productId, rows[i].val.storeId)
  }

  /** At most one customer per email address. */
  ghost predicate EmailsUnique(rows: seq<Row<Customer>>) {
    forall i, j :: 0 <= i < j < |rows| ==> rows[i].val.email != rows[j].val.email
  }

  /** The unique constraint on `product.sku`. */
  ghost predicate SkusUnique(rows: seq<Row<Product>>) {
    forall i, j :: 0 <= i < j < |rows| ==> rows[i].val.sku != rows[j].val.sku
  }

  /** Saving `p` would break the SKU constraint: another stored row already has its SKU. */
  predicate SkuTaken(t: Table<Product>, p: Row<Product>) {
    exists i :: 0 <= i < |t.rows| && t.rows[i].id != p.id && t.rows[i].val.sku == p.val.sku
  }

  /** With one row per pair, the finder returns exactly the row at the pair's index. */
  lemma FindInventoryAt(t: Table<Inventory>, j: int)
    requires PairsUnique(t.rows) && 0 <= j < |t.rows|
    ensures FindInventory(t, t.rows[j].val.productId, t.rows[j].val.storeId) == Some(t.rows[j])
  {
    var r := FindInventory(t, t.rows[j].val.productId, t.rows[j].val.storeId);
    var k :| 0 <= k < |t.rows| && t.rows[k] == r.value;
    assert k == j by {
      if k < j {
      } else if j < k {
      }
    }
  }

  /** `FindInventoryAt` for every row at once. */
  lemma FindInventoryUnique(t: Table<Inventory>)
    ensures PairsUnique(t.rows) ==> forall j :: 0 <= j < |t.rows| ==>
      FindInventory(t, t.rows[j].val.productId, t.rows[j].val.storeId) == Some(t.rows[j])
  {
    forall j | 0 <= j < |t.rows| && PairsUnique(t.rows)
      ensures FindInventory(t, t.rows[j].val.productId, t.rows[j].val.storeId) == Some(t.rows[j])
    {
      FindInventoryAt(t, j);
    }
  }

  /**
   * Overwriting a row under its own key keeps one row per pair, provided no
   * row stored under another key holds the new row's pair.
   */
  lemma {:induction false} ReplaceKeepsPairsUnique(t: Table<Inventory>, row: Row<Inventory>)
    requires PairsUnique(t.rows) && IdsDistinct(t.rows)
    requires forall i :: 0 <= i < |t.rows| && t.rows[i].id != row.id ==>
      !Holds(t.rows[i].val, row.val.productId, row.val.storeId)
    ensures PairsUnique(t.Replace(row).rows)
  {
    var r := t.Replace(row).rows;
    forall i, j | 0 <= i < j < |r| ensures !Holds(r[j].val, r[i].val.productId, r[i].val.storeId) {
      if t.rows[i].id == row.id {
        assert t.rows[j].id != row.id;
      } else if t.rows[j].id == row.id {
      }
    }
  }

  /** Inserting a row for a pair that has none keeps one row per pair. */
  lemma {:induction false} InsertKeepsPairsUnique(t: Table<Inventory>, v: Inventory)
    requires PairsUnique(t.rows)
    requires forall i :: 0 <= i < |t.rows| ==> !Holds(t.rows[i].val, v.productId, v.storeId)
    ensures PairsUnique(t.Insert(v).0.rows)
  {
    var r := t.Insert(v).0.rows;
    forall i, j | 0 <= i < j < |r| ensures !Holds(r[j].val, r[i].val.productId, r[i].val.storeId) {
      if j == |t.rows| {
        assert r[i] == t.rows[i];
      }
    }
  }

  /** Saving a row for a pair that has none yet, under any key, keeps one row per pair. */
  lemma UpsertFreshPairKeepsPairsUnique(t: Table<Inventory>, row: Row<Inventory>)
    requires t.Valid() && PairsUnique(t.rows)
    requires FindInventory(t, row.val.productId, row.val.storeId).None?
    ensures PairsUnique(t.Upsert(row).0.rows)
  {
    if t.Get(row.id).Some? {
      ReplaceKeepsPairsUnique(t, row);
    } else {
      InsertKeepsPairsUnique(t, row.val);
    }
  }

  /**
   * Overwriting the row found for a pair, keeping its key, with a value
   * for the same pair keeps one row per pair.
   */
  lemma OverwriteFoundKeepsPairsUnique(t: Table<Inventory>, v: Inventory)
    requires t.Valid() && PairsUnique(t.rows)
    requires FindInventory(t, v.productId, v.storeId).Some?
    ensures PairsUnique(t.Replace(Row(FindInventory(t, v.productId, v.storeId).value.id, v)).rows)
  {
    var found := FindInventory(t, v.productId, v.storeId).value;
    forall i | 0 <= i < |t.rows| && Holds(t.rows[i].val, v.productId, v.storeId)
      ensures t.rows[i].id == found.id
    {
      FindInventoryAt(t, i);
    }
    ReplaceKeepsPairsUnique(t, Row(found.id, v));
  }

  /** Overwriting the row found for a pair under its own key changes that row only. */
  lemma OverwriteFoundRows(t: Table<Inventory>, v: Inventory)
    requires t.Valid() && PairsUnique(t.rows) && FindInventory(t, v.productId, v.storeId).Some?
    ensures var t' := t.Replace(Row(FindInventory(t, v.productId, v.storeId).value.id, v));
      && |t'.rows| == |t.rows| && t'.next == t.next
      && forall j :: 0 <= j < |t.rows| ==>
           if Holds(t.rows[j].val, v.productId, v.storeId) then t'.rows[j] == Row(t.rows[j].id, v)
           else t'.rows[j] == t.rows[j]
  {
    var row := FindInventory(t, v.productId, v.storeId).value;
    var t' := t.Replace(Row(row.id, v));
    var k :| 0 <= k < |t.rows| && t.rows[k] == row;
    forall j | 0 <= j < |t.rows|
      ensures if Holds(t.rows[j].val, v.productId, v.storeId) then t'.rows[j] == Row(t.rows[j].id, v)
              else t'.rows[j] == t.rows[j]
    {
      if Holds(t.rows[j].val, v.productId, v.storeId) {
        FindInventoryAt(t, j);
      } else {
        assert t.rows[j].id != row.id by {
          if j < k {} else if k < j {}
        }
      }
    }
  }

  /** Dropping rows, whatever the condition, keeps one row per pair. */
  lemma RemoveWhereKeepsPairsUnique(t: Table<Inventory>, p: Inventory -> bool)
    requires t.Valid() && PairsUnique(t.rows)
    ensures PairsUnique(t.RemoveWhere(p).rows)
  {
    var t' := t.RemoveWhere(p);
    var r := t'.rows;
    forall i, j | 0 <= i < j < |r| ensures !Holds(r[j].val, r[i].val.productId, r[i].val.storeId) {
      var a :| 0 <= a < |t.rows| && t.rows[a] == r[i];
      var b :| 0 <= b < |t.rows| && t.rows[b] == r[j];
      assert a != b by {
        assert IdsDistinct(r);
      }
      PairsApart(t.rows, a, b);
    }
  }

  /** Two different rows of a table with one row per pair hold different pairs. */
  lemma PairsApart(rows: seq<Row<Inventory>>, a: int, b: int)
    requires PairsUnique(rows) && 0 <= a < |rows| && 0 <= b < |rows| && a != b
    ensures !Holds(rows[b].val, rows[a].val.productId, rows[a].val.storeId)
  {
    if b < a {
      assert !Holds(rows[a].val, rows[b].val.productId, rows[b].val.storeId);
    }
  }

  /** A save that passes the SKU check keeps SKUs unique. */
  lemma {:induction false} UpsertKeepsSkusUnique(t: Table<Product>, p: Row<Product>)
    requires t.Valid() && SkusUnique(t.rows) && !SkuTaken(t, p)
    ensures SkusUnique(t.Upsert(p).0.rows)
  {
    var r := t.Upsert(p).0.rows;
    if t.Get(p.id).Some? {
      forall i, j | 0 <= i < j < |r| ensures r[i].val.sku != r[j].val.sku {
        if t.rows[i].id == p.id {
          assert t.rows[j].id != p.id;
        }
      }
    } else {
      forall i, j | 0 <= i < j < |r| ensures r[i].val.sku != r[j].val.sku {
        if j == |t.rows| {
          assert t.rows[i].id != p.id;
        }
      }
    }
  }

  /** A customer inserted under an email nobody has keeps emails unique. */
  lemma {:induction false} InsertKeepsEmailsUnique(t: Table<Customer>, c: Customer)
    requires EmailsUnique(t.rows)
    requires forall i :: 0 <= i < |t.rows| ==> t.rows[i].val.email != c.email
    ensures EmailsUnique(t.Insert(c).0.rows)
  {
    var r := t.Insert(c).0.rows;
    forall i, j | 0 <= i < j < |r| ensures r[i].val.email != r[j].val.email {
      if j == |t.rows| {
        assert r[i] == t.rows[i];
      }
    }
  }

  // ---------------------------------------------------------------------
  // The whole database

  datatype Tables = Tables(
    products: Table<Product>,
    stores: Table<Store>,
    inventory: Table<Inventory>,
    customers: Table<Customer>,
    orders: Table<OrderDetails>,
    items: Table<OrderItem>,
    reviews: seq<Review>)
  {
    /** What the schema and the service's guards keep true of the stored data. */
    ghost predicate Valid() {
      && products.Valid() && stores.Valid() && inventory.Valid()
      && customers.Valid() && orders.Valid() && items.Valid()
      && PairsUnique(inventory.rows)
      && EmailsUnique(customers.rows)
      && SkusUnique(products.rows)
    }
  }
}
