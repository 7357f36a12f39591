/**
 * The relational and document stores behind the repositories, as one
 * object whose tables the repository calls update in place.
 */
module Repositories {
  import opened Wrappers
  import opened JavaLang
  import opened Storage
  import opened Entities

  class Database {
    var products: Table<Product>
    var stores: Table<Store>
    var inventory: Table<Inventory>
    var customers: Table<Customer>
    var orders: Table<OrderDetails>
    var orderItems: Table<OrderItem>
    var reviews: seq<Review>

    /** The current contents of every table. */
    ghost function Snapshot(): (t: Tables)
      reads this
    {
      Tables(products, stores, inventory, customers, orders, orderItems, reviews)
    }

    ghost predicate Valid()
      reads this
    {
      Snapshot().Valid()
    }

    /** An empty database whose IDENTITY columns start at 1. */
    constructor (reviews: seq<Review>)
      ensures Valid()
      ensures Snapshot() == Tables(Table([], 1), Table([], 1), Table([], 1), Table([], 1),
                                   Table([], 1), Table([], 1), reviews)
    {
      products, stores, inventory := Table([], 1), Table([], 1), Table([], 1);
      customers, orders, orderItems := Table([], 1), Table([], 1), Table([], 1);
      this.reviews := reviews;
    }

    /** `productRepository.save`, which the SKU unique constraint can refuse. */
    method SaveProduct(p: Row<Product>) returns (saved: Outcome<Row<Product>>)
      modifies this`products
      ensures SkuTaken(old(products), p) ==>
        saved == Raised(DataIntegrityViolation) && products == old(products)
      ensures !SkuTaken(old(products), p) ==>
        saved == Returned(old(products).Upsert(p).1) && products == old(products).Upsert(p).0
    {
      if SkuTaken(products, p) {
        return Raised(DataIntegrityViolation);
      }
      var saved';
      products, saved' := products.Upsert(p).0, products.Upsert(p).1;
      return Returned(saved');
    }

    /** `storeRepository.save`. */
    method SaveStore(s: Row<Store>) returns (saved: Row<Store>)
      modifies this`stores
      ensures (stores, saved) == old(stores).Upsert(s)
    {
      stores, saved := stores.Upsert(s).0, stores.Upsert(s).1;
    }

    /** `inventoryRepository.save`. */
    method SaveInventory(r: Row<Inventory>) returns (saved: Row<Inventory>)
      modifies this`inventory
      ensures (inventory, saved) == old(inventory).Upsert(r)
    {
      inventory, saved := inventory.Upsert(r).0, inventory.Upsert(r).1;
    }

    /** `inventoryRepository.deleteByProductId`. */
    method DeleteInventoryByProductId(productId: int)
      modifies this`inventory
      ensures inventory == old(inventory).RemoveWhere((v: Inventory) => v.productId == productId)
    {
      inventory := inventory.RemoveWhere((v: Inventory) => v.productId == productId);
    }

    /** `customerRepository.save` of a new customer. */
    method SaveCustomer(c: Customer) returns (saved: Row<Customer>)
      modifies this`customers
      ensures (customers, saved) == old(customers).Insert(c)
    {
      customers, saved := customers.Insert(c).0, customers.Insert(c).1;
    }

    /** `orderDetailsRepository.save` of a new order header. */
    method SaveOrderDetails(o: OrderDetails) returns (saved: Row<OrderDetails>)
      modifies this`orders
      ensures (orders, saved) == old(orders).Insert(o)
    {
      orders, saved := orders.Insert(o).0, orders.Insert(o).1;
    }

    /** `orderItemRepository.save` of a new order item. */
    method SaveOrderItem(i: OrderItem) returns (saved: Row<OrderItem>)
      modifies this`orderItems
      ensures (orderItems, saved) == old(orderItems).Insert(i)
    {
      orderItems, saved := orderItems.Insert(i).0, orderItems.Insert(i).1;
    }
  }
}
