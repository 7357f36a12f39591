# Retail back-office service: a Dafny model of its core

This project models the logic under the HTTP and persistence layers of a
Spring retail back-office service. The service keeps seven tables:
products, stores, inventory rows (one per product and store), customers,
order headers, order items and reviews. The model covers:

- **Order placement** (`OrderService.saveOrder`), exactly as written:
  - resolve or create the customer by email;
  - look up the store, throwing "Store not found" if it is absent;
  - save an order header;
  - then, line by line, deduct the quantity from the line's inventory row
    and save an order item.

  There is no stock check and no rollback. Stock arithmetic is Java's
  32-bit `int`, so it wraps around. A line without an inventory row
  dereferences null and stops the loop, and every write made before it
  stays.
- **The validation layer** (`ServiceClass`): four side-effect-free lookups.
- **The controllers' decision logic**:
  - the guarded inventory writes: `updateInventory`, `saveInventory` and
    `removeProduct`;
  - the stock check `validateQuantity`;
  - the product endpoints: `addProduct`, `getProductById`,
    `updateProduct` and the `deleteProduct` guard;
  - the store endpoints: `addStore`, `validateStore` and the status
    handling of `placeOrderMap`;
  - the review listing, with its `"Unknown"` fallback for an unresolved
    customer;
  - the two search dispatches on the `"null"` path-segment sentinel.

Layout, one module per file:

| file | module | what it holds |
|---|---|---|
| `wrappers.dfy` | `Wrappers` | `Option` |
| `java_lang.dfy` | `JavaLang` | 32-bit wrap-around, `Long` to decimal text, the exceptions that escape |
| `storage.dfy` | `Storage` | `Table<T>`: rows with keys plus an IDENTITY counter; `findById`, JPA `save` (an upsert) and derived deletes |
| `entities.dfy` | `Entities` | the entities as datatypes holding foreign-key ids; the derived finders; the stored-data invariants (`Tables.Valid`) and the lemmas that keep them |
| `database.dfy` | `Repositories` | class `Database`: one field per table; the repository calls as methods with `modifies` frames |
| `service_class.dfy` | `ServiceClass` | the four validators |
| `http.dfy` | `Http` | status codes and reply values |
| `product_queries.dfy` | `ProductQueries` | the opaque search queries, and the rule for when a query honours the path segments (`Honours`) |
| `order_service.dfy` | `OrderService` | `PlaceOrder` (the specification on values); `SaveOrder` and `SaveLines` (the imperative code, proved against it); the lemmas about it |
| `inventory_controller.dfy`, `product_controller.dfy`, `store_controller.dfy`, `review_controller.dfy` | one per controller | the endpoints |

Where the service changes state step by step, the model does the same:
- The repository calls (`save`, `deleteByProductId`) are methods of the
  class `Database`, which owns one field per table.
- The service and controller methods are module-level methods that take
  the `Database` and change it through those calls.
- Each method's `ensures` ties the new state to a function of the old
  one, such as `PlaceOrder` or `UpdateInventoryEffect`.
- The properties the code promises are proved about those functions.

Where the service only computes, the model is a function.

Points where the code is lax, and the model follows it:
- order placement has no stock check, so stock can go below zero;
- order placement has no transaction, so a failure mid-order keeps the
  writes made before it;
- `deleteProduct` answers an unknown id with status 200;
- `validateInventory` only looks for an existing row; it does not check
  that the product and the store exist.

## Model

| member | source | states |
|---|---|---|
| OrderService.PlaceOrder | back-end/src/main/java/com/project/code/Service/OrderService.java:46-110 | An order never touches products, stores or reviews. An existing customer with the email is reused and nothing is saved. Otherwise exactly one customer is appended, with the request's name, email and phone, under the next key. A missing store throws "Store not found" after the customer step and before any header, inventory or item write. The header holds the resolved customer, the store, the request's total price verbatim and the timestamp, under the next key. The only exceptions are "Store not found" and a null dereference. |
| OrderService.SaveOrder | back-end/src/main/java/com/project/code/Service/OrderService.java:46-110 | The imperative `saveOrder` on the live database ends as `PlaceOrder` says and leaves the database as `PlaceOrder` computes, including the writes made before a throw. It keeps every invariant of the stored data. |
| OrderService.SaveLines | back-end/src/main/java/com/project/code/Service/OrderService.java:90-108 | The loop over the purchased lines updates the inventory and items and reports completion exactly as `ApplyLines` says. It stops at the first line without an inventory row. |
| OrderService.PlaceOrderValid | back-end/src/main/java/com/project/code/Service/OrderService.java:46-110 | An order keeps the stored-data invariants whether it succeeds or throws. Keys stay distinct, there is one inventory row per pair, emails stay unique and SKUs stay unique. |
| OrderService.RepeatedEmailReusesCustomer | back-end/src/main/java/com/project/code/Service/OrderService.java:51-62 | A second order with the same email saves no customer. It is placed for the customer that the first order reused or created. |
| OrderService.PlaceOrderOutcome | back-end/src/main/java/com/project/code/Service/OrderService.java:68-97 | An order returns normally exactly when the store exists and every line's product has an inventory row in that store. It throws a null dereference exactly when the store exists and some line's product has none. |
| OrderService.FirstMissingIsFirst | back-end/src/main/java/com/project/code/Service/OrderService.java:91-97 | The processed prefix ends at the first line without an inventory row: every earlier line has one, and that line, if there is one, has none. |
| OrderService.ApplyLinesComplete | back-end/src/main/java/com/project/code/Service/OrderService.java:91-97 | The loop gets through every line exactly when no line is missing its inventory row. |
| OrderService.PlaceOrderStock | back-end/src/main/java/com/project/code/Service/OrderService.java:94-97 | After an order to an existing store, each inventory row of that store has lost the total quantity that the processed lines order of its product. The subtraction wraps at 32 bits and has no lower bound. Rows of other stores keep their stock, and no row is added, removed or moved. |
| OrderService.PlaceOrderDeductsExactly | back-end/src/main/java/com/project/code/Service/OrderService.java:94-97 | When the arithmetic does not overflow, a row of the ordering store ends at its old stock minus the total quantity that the processed lines order of its product. |
| OrderService.PlaceOrderLeavesOtherProducts | back-end/src/main/java/com/project/code/Service/OrderService.java:90-108 | A row whose product no line names is unchanged, and the inventory has as many rows as before. |
| OrderService.PlaceOrderItems | back-end/src/main/java/com/project/code/Service/OrderService.java:91-106 | Exactly one item is appended per processed line, in line order, under consecutive fresh keys, and earlier items are untouched. Each new item references the new header, carries the line's quantity and the line price times that quantity, and references the product, or null when no product has the line's id. |
| OrderService.PlaceOrderFailureKeepsEarlierLines | back-end/src/main/java/com/project/code/Service/OrderService.java:94-97 | There is no rollback. An order that stops at line n leaves the database exactly as a successful order of its first n lines would have. |
| OrderService.ApplyLinesStock | back-end/src/main/java/com/project/code/Service/OrderService.java:94-97 | The loop leaves each inventory row restocked by the processed lines' total demand for its product, in the same place. |
| OrderService.ApplyLinesKeepsInventory | back-end/src/main/java/com/project/code/Service/OrderService.java:94-97 | The loop keeps the inventory's key invariant, its key counter and one row per pair. |
| OrderService.ApplyLinesItems | back-end/src/main/java/com/project/code/Service/OrderService.java:99-106 | The loop's item table is the old one followed by the processed lines' items, under consecutive keys. |
| OrderService.ApplyLinesEachItem | back-end/src/main/java/com/project/code/Service/OrderService.java:99-106 | The same, item by item: the k-th new item is line k's. |
| OrderService.ApplyLinesPrefix | back-end/src/main/java/com/project/code/Service/OrderService.java:91-108 | A loop that stops at line n has written exactly what a complete loop over the first n lines writes. |
| OrderService.DeductStock | back-end/src/main/java/com/project/code/Service/OrderService.java:94-97 | One deduction changes only the found row, by the line's quantity with wrap-around, and keeps the key counter. |
| OrderService.DeductShape | back-end/src/main/java/com/project/code/Service/OrderService.java:94-97 | One deduction keeps the keys, the pair held by every row, and one row per pair. |
| OrderService.FirstMissingStable | back-end/src/main/java/com/project/code/Service/OrderService.java:94-97 | Deductions never add or remove a pair, so the line at which the loop stops does not move. |
| OrderService.RestockedCompose | back-end/src/main/java/com/project/code/Service/OrderService.java:96 | Deducting two runs of lines one after the other equals deducting their concatenation, wrap-around included. |
| OrderService.DemandAppend | back-end/src/main/java/com/project/code/Service/OrderService.java:91-96 | The quantity a list of lines orders of a product is additive over concatenation. |
| JavaLang.Sub32 | back-end/src/main/java/com/project/code/Service/OrderService.java:96 | Java `int` subtraction: the exact difference when it fits in 32 bits, and congruent to it modulo 2^32 otherwise. |
| JavaLang.Wrap32SubAssoc | back-end/src/main/java/com/project/code/Service/OrderService.java:96 | Subtracting twice with wrap-around equals subtracting the sum once with wrap-around. |
| Entities.FindInventory | back-end/src/main/java/com/project/code/Service/OrderService.java:94 | `findByProductIdAndStoreId` returns a row holding that pair, or null exactly when no row holds it. |
| Entities.FindCustomerByEmail | back-end/src/main/java/com/project/code/Service/OrderService.java:51 | `findByEmail` returns a customer with that email, or null exactly when there is none. |
| Entities.InsertKeepsEmailsUnique | back-end/src/main/java/com/project/code/Service/OrderService.java:58-59 | Saving a customer only when the email is not found keeps emails unique. |
| Repositories.Database.SaveCustomer | back-end/src/main/java/com/project/code/Service/OrderService.java:59 | `customerRepository.save` of a new customer appends it under the next IDENTITY key and returns it. |
| Repositories.Database.SaveOrderDetails | back-end/src/main/java/com/project/code/Service/OrderService.java:84 | `orderDetailsRepository.save` appends the header under the next key and returns it. |
| Repositories.Database.SaveInventory | back-end/src/main/java/com/project/code/Service/OrderService.java:97 | `inventoryRepository.save`: a row whose key is stored replaces that row, and any other row is inserted under a new key. |
| Repositories.Database.SaveOrderItem | back-end/src/main/java/com/project/code/Service/OrderService.java:106 | `orderItemRepository.save` of a new item appends it under the next key. |
| ServiceClass.ValidateInventory | back-end/src/main/java/com/project/code/Service/ServiceClass.java:29-32 | True exactly when no inventory row holds the pair, and exactly when `getInventoryId` finds none. It does not check that the product and the store exist. |
| ServiceClass.ValidateProduct | back-end/src/main/java/com/project/code/Service/ServiceClass.java:39-42 | True exactly when no product has exactly this name; the SKU is not looked at. When two or more products hold the name, the finder's exception escapes instead. |
| Entities.FindProductByName | back-end/src/main/java/com/project/code/Service/ServiceClass.java:40 | `findByName` returns the one product with that name, or null exactly when there is none. It throws an incorrect-result-size exception exactly when two or more products hold the name. |
| ServiceClass.ValidateProductId | back-end/src/main/java/com/project/code/Service/ServiceClass.java:49-53 | True exactly when a product is stored under the key. |
| ServiceClass.GetInventoryId | back-end/src/main/java/com/project/code/Service/ServiceClass.java:60-62 | The stored row for the pair, or null exactly when none holds it. With one row per pair, it is that row. |
| InventoryController.UpdateInventory | back-end/src/main/java/com/project/code/Controller/InventoryController.java:43-76 | As written. A request without an inventory part throws a null dereference at the log line, before any lookup or write. Otherwise see `UpdateInventoryEffect`: an unknown product gives 404 and no write. The product is saved first, and the SKU constraint may refuse it. Then the row stored for the pair is overwritten under its own key with 200, or, with no row, 204 is returned, the product update is kept and no row is inserted. The stored-data invariants are kept. |
| InventoryController.UpdateInventoryGuarded | back-end/src/main/java/com/project/code/Controller/InventoryController.java:51-76 | The same effect with the null check the method relies on: a request without an inventory part saves the product and returns 200. |
| InventoryController.UpdateInventoryOverwritesOneRow | back-end/src/main/java/com/project/code/Controller/InventoryController.java:61-65 | The overwrite keeps the row count and key counter. It replaces exactly the row holding the request's pair, under that row's key, and leaves every other row as it was. |
| InventoryController.UpdateInventoryKeepsValid | back-end/src/main/java/com/project/code/Controller/InventoryController.java:57-65 | Every path of `updateInventory` keeps the stored-data invariants, including one row per pair and unique SKUs. |
| InventoryController.SaveInventory | back-end/src/main/java/com/project/code/Controller/InventoryController.java:78-93 | A row is saved, with 201, only when its pair has none; otherwise it answers 409 and nothing changes. One row per pair is kept. |
| InventoryController.RemoveProduct | back-end/src/main/java/com/project/code/Controller/InventoryController.java:135-150 | An unknown id gives 404 and deletes nothing. Otherwise every inventory row of that product is deleted and every other row is kept, with 200 and the id in the message. |
| InventoryController.ValidateQuantity | back-end/src/main/java/com/project/code/Controller/InventoryController.java:152-160 | Whether the pair's row holds at least the quantity. A pair without a row throws a null dereference, exactly then. |
| InventoryController.GetProductName | back-end/src/main/java/com/project/code/Controller/InventoryController.java:105-124 | The category test comes first. The chosen query filters on exactly what the segments give, in the store, except when both are `"null"`; then the name search runs with the literal `"null"`. |
| Entities.UpsertFreshPairKeepsPairsUnique | back-end/src/main/java/com/project/code/Controller/InventoryController.java:82-83 | Saving a row whose pair has none keeps one row per pair. |
| Entities.OverwriteFoundRows | back-end/src/main/java/com/project/code/Controller/InventoryController.java:61-65 | Overwriting the found row under its own key changes that row only. |
| Entities.OverwriteFoundKeepsPairsUnique | back-end/src/main/java/com/project/code/Controller/InventoryController.java:61-65 | That overwrite keeps one row per pair. |
| Entities.RemoveWhereKeepsPairsUnique | back-end/src/main/java/com/project/code/Controller/InventoryController.java:145 | Deleting rows keeps one row per pair. |
| Repositories.Database.DeleteInventoryByProductId | back-end/src/main/java/com/project/code/Controller/InventoryController.java:145 | `deleteByProductId` drops exactly the rows of that product. |
| ProductController.AddProduct | back-end/src/main/java/com/project/code/Controller/ProductController.java:60-74 | A name held by two or more stored products makes the name check throw, and nothing is written. A name held by one stored product gives 409 and no write. Otherwise the product is saved with 201, unless the SKU constraint refuses it, in which case the exception escapes and nothing is written. After a 201, the name check on the same product answers false, so a second `addProduct` with that name gets 409. |
| ProductController.AddProductKeepsNamesUnique | back-end/src/main/java/com/project/code/Controller/ProductController.java:63-69 | A save that passes the name gate, whether it inserts or overwrites, leaves exactly one product with that name, whatever else the table holds. It also keeps names unique when no two products shared a name before the save. `updateProduct` and `updateInventory` save with no name gate, so the table can still hold other shared names. |
| ProductController.GetProductById | back-end/src/main/java/com/project/code/Controller/ProductController.java:84-98 | The stored product under `"products"`, or 404 exactly when none is stored under the id, with the id in the message. |
| ProductController.UpdateProduct | back-end/src/main/java/com/project/code/Controller/ProductController.java:108-121 | The product is upserted with 200. A save the SKU constraint refuses is caught and gives 400 with nothing written. |
| ProductController.DeleteProduct | back-end/src/main/java/com/project/code/Controller/ProductController.java:181-197 | An unknown id gets the not-present message and nothing is handed on. A known id is handed on for deletion and reported deleted. Both answers carry status 200. |
| ProductController.FilterByCategoryProduct | back-end/src/main/java/com/project/code/Controller/ProductController.java:125-139 | As written. The query honours the segments only when the name is `"null"` and the category is not. A `"null"` name runs the category search with the category segment, so both `"null"` runs it with the literal `"null"`. A `"null"` category passes the literal `"null"` to the name-and-category search. With both given, the name search runs with the name and the category is dropped. |
| ProductController.FilterDropsCategory | back-end/src/main/java/com/project/code/Controller/ProductController.java:128-136 | With name `"phone"` and category `"Electronics"`, the code searches by name only, while the corrected dispatch filters on both. |
| ProductController.FilterByCategoryProductCorrected | back-end/src/main/java/com/project/code/Controller/ProductController.java:125-139 | The corrected dispatch filters on exactly the segments given, except when both are `"null"`; then, like the code, it runs the category search with the literal `"null"`. |
| Entities.UpsertKeepsSkusUnique | back-end/src/main/java/com/project/code/Model/Product.java:19 | A save that the SKU constraint lets through keeps SKUs unique. |
| Repositories.Database.SaveProduct | back-end/src/main/java/com/project/code/Model/Product.java:19 | `productRepository.save` throws a data-integrity violation and writes nothing when another product holds the SKU; otherwise it upserts. |
| StoreController.AddStore | back-end/src/main/java/com/project/code/Controller/StoreController.java:33-39 | The store is always saved (upserted), with "Store added successfully". |
| Repositories.Database.SaveStore | back-end/src/main/java/com/project/code/Controller/StoreController.java:35 | `storeRepository.save` upserts the store. |
| StoreController.ValidateStore | back-end/src/main/java/com/project/code/Controller/StoreController.java:41-46 | True exactly when a store is stored under the key. |
| StoreController.PlaceOrderMap | back-end/src/main/java/com/project/code/Controller/StoreController.java:48-62 | A completed order gives 201 with "Order placed successfully". Any exception from `saveOrder` escapes unchanged, because only `Error` is caught. The database ends as `PlaceOrder` computes. |
| StoreController.PlaceOrderMapStatus | back-end/src/main/java/com/project/code/Controller/StoreController.java:52-59 | The endpoint answers 201 exactly when the store exists and every line's product has a row in it. A missing store escapes as "Store not found". |
| JavaLang.Decimal | back-end/src/main/java/com/project/code/Controller/ProductController.java:90 | `Long` to text in a message: a non-empty string of decimal digits, with a leading minus exactly when the id is negative. |
| JavaLang.DecimalRoundTrip | back-end/src/main/java/com/project/code/Controller/ProductController.java:90 | Reading the rendered id back as a decimal number gives the id. |
| JavaLang.DecimalInjective | back-end/src/main/java/com/project/code/Controller/ProductController.java:90 | Distinct ids give distinct text, so a message names exactly one id. |
| ReviewController.ReviewsFor | back-end/src/main/java/com/project/code/Controller/ReviewController.java:52 | Every review found belongs to that store and product, and every stored review of that store and product is found, as many times as it is stored: the result holds each review of that store and product exactly as often as the stored list does, and no other review. |
| ReviewController.GetReviews | back-end/src/main/java/com/project/code/Controller/ReviewController.java:48-75 | One entry per review found, in the order found, each built by `EntryFor`. Nothing is written. |
| ReviewController.EntryForNames | back-end/src/main/java/com/project/code/Controller/ReviewController.java:56-69 | An entry shows the review's comment and rating and the name of the customer stored under the review's customer key. It shows `"Unknown"` exactly when no customer is stored there. |
| ReviewController.GetAllReviews | back-end/src/main/java/com/project/code/Controller/ReviewController.java:77-84 | Every stored review, in stored order. |

## Left out

- Persistence frameworks: JPA, Jackson and the validation annotations are not modelled. Entity object graphs become foreign-key ids, and the repositories are the tables in `Storage`, with `save` as an upsert.
- Foreign-key constraints: the `@JoinColumn` columns `product_id` and `store_id` of an inventory row (Inventory.java) are plain ids here, and no constraint ties them to a stored product or store. So `InventoryController.SaveInventory` accepts a row for an unknown product or store and answers 201, where the database schema may refuse it. The SKU unique constraint is the only database constraint modelled.
- The repositories' own queries (`findProductBySubName`, `findByNameLike`, `findByCategoryAndStoreId`, …) are opaque: the model says which query runs and with which arguments, not which rows it returns. `getAllProducts`, `searchProduct`, `listProduct` and `getProductByCategoryAndStoreId` are single opaque queries, so they are not modelled.
- Entities.FindInventory, Entities.FindCustomerByEmail: `findByProductIdAndStoreId` and `findByEmail` are single-result finders, which throw when two or more rows match. The model returns the first match. Under `Tables.Valid` (one inventory row per pair, one customer per email) no second match exists, so the throw cannot happen. Those invariants hold only because there is no concurrency and no other writer.
- Review queries: query results are taken in stored order; `findByStoreIdAndProductId` promises no order.
- HTTP plumbing: a reply is a status code and a message. `HttpServletResponse`, response maps and routing are not modelled. A status the code never sets is the servlet default, 200.
- `GlobalExceptionHandler` is not part of this model. An exception is reported as the value `Raised(e)` that leaves the endpoint.
- `LocalDateTime.now()` is the parameter `now` of `SaveOrder`.
- Prices (`Double`) are integers (`Money`): floating point and its rounding in `price * quantity` are not modelled.
- `System.out.println` logging is left out, except for the null dereference that the log line of `updateInventory` causes.
- Transactions and concurrency: the service has no transaction boundary around `saveOrder`, so there is no rollback, and races between concurrent orders are not modelled.
- `ProductService.deleteProductAndInventory` is not part of this model; `deleteProduct` is modelled up to its guard and the hand-off.
- Null inside request bodies: a null product or store inside an inventory request, a null stock level or quantity, and a null list of lines are not modelled. The request's product id is always present. An id that no row holds plays the part of a null id.
- ProductController.UpdateProduct: the reply on a refused save is the prefix "Error occurred: " without the exception's message text, which comes from the database driver.
- StoreController.ValidateStore: `storeRepository.findByid` is not declared in StoreRepository.java, whose `findById` is commented out, and the inherited `findById` returns an `Optional`. The model takes the call to be a lookup by key that returns the stored store or null.
- StoreController.PlaceOrderMap: the `catch (Error e)` branch is not modelled. `saveOrder` throws only runtime exceptions, which that clause never catches.

## Findings

| source | as written | input that shows it | evidently intended | confidence | as-written member | corrected member |
|---|---|---|---|---|---|---|
| back-end/src/main/java/com/project/code/Controller/InventoryController.java:49 | The log line reads `inventory.getStockLevel()` before the `if (inventory != null)` test at line 61, so a request without an inventory part throws a null dereference and nothing is saved. | `PUT /inventory` with a stored product and no `inventory` field | The null test at line 61 means a product-only update: save the product and answer 200 | not executed | InventoryController.UpdateInventory | InventoryController.UpdateInventoryGuarded |
| back-end/src/main/java/com/project/code/Controller/ProductController.java:128-136 | The last two queries are swapped. A `"null"` category runs the name-and-category search with the literal `"null"` as the category, and a name and category both given run the name-only search, which drops the category. | `GET /product/category/phone/Electronics` | Name only when the category is `"null"`; name and category when both are given | not executed | ProductController.FilterByCategoryProduct, ProductController.FilterDropsCategory | ProductController.FilterByCategoryProductCorrected |
