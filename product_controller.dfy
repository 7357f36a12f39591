/**
 * The `/product` endpoints: the name gate on creation, lookup by key,
 * update, the existence guard on deletion and the search dispatch on
 * `"null"` path segments.
 */
module ProductController {
  import opened Wrappers
  import opened JavaLang
  import opened Storage
  import opened Entities
  import opened Repositories
  import opened ServiceClass
  import opened Http
  import opened ProductQueries

  /**
   * `addProduct`: a product whose name is already stored gives 409 and no
   * write; otherwise it is saved (which the SKU constraint may refuse) and
   * 201 is returned. When two stored products share the name, the name
   * check throws and nothing is written.
   */
  method AddProduct(db: Database, product: Row<Product>) returns (r: Outcome<Reply>)
    requires db.Valid()
    modifies db`products
    ensures db.Valid()
    ensures old(ValidateProduct(db, product.val)).Raised? ==>
      r == Raised(IncorrectResultSize) && db.products == old(db.products)
    ensures old(ValidateProduct(db, product.val)) == Returned(false) ==>
      r == Returned(Reply(CONFLICT, "Product already present in database")) && db.products == old(db.products)
    ensures old(ValidateProduct(db, product.val)) == Returned(true) && SkuTaken(old(db.products), product) ==>
      r == Raised(DataIntegrityViolation) && db.products == old(db.products)
    ensures old(ValidateProduct(db, product.val)) == Returned(true) && !SkuTaken(old(db.products), product) ==>
      r == Returned(Reply(CREATED, "Product added successfully")) && db.products == old(db.products.Upsert(product).0)
    ensures r == Returned(Reply(CREATED, "Product added successfully")) ==> ValidateProduct(db, product.val) == Returned(false)
  {
    var valid := ValidateProduct(db, product.val);
    if valid.Raised? {
      return Raised(valid.exception);
    }
    if !valid.value {
      return Returned(Reply(CONFLICT, "Product already present in database"));
    }
    if !SkuTaken(db.products, product) {
      UpsertKeepsSkusUnique(db.products, product);
    }
    AddProductKeepsNamesUnique(db.products, product);
    var saved := db.SaveProduct(product);
    if saved.Raised? {
      return Raised(saved.exception);
    }
    return Returned(Reply(CREATED, "Product added successfully"));
  }

  /** No two stored products share a name. */
  ghost predicate NamesUnique(rows: seq<Row<Product>>) {
    forall i, j :: 0 <= i < j < |rows| ==> rows[i].val.name != rows[j].val.name
  }

  /**
   * The name gate of `addProduct`: a save that passes it, whether it
   * inserts or overwrites the row under the request's key, leaves exactly
   * one product with that name, so the same name is refused next time.
   * When names were unique before the save, they stay unique.
   */
  lemma {:induction false} AddProductKeepsNamesUnique(t: Table<Product>, product: Row<Product>)
    requires t.Valid()
    requires forall j :: 0 <= j < |t.rows| ==> t.rows[j].val.name != product.val.name
    ensures exists j :: 0 <= j < |t.Upsert(product).0.rows| && t.Upsert(product).0.rows[j].val.name == product.val.name
    ensures !NameShared(t.Upsert(product).0.rows, product.val.name)
    ensures NamesUnique(t.rows) ==> NamesUnique(t.Upsert(product).0.rows)
  {
    var r := t.Upsert(product).0.rows;
    if t.Get(product.id).Some? {
      var k :| 0 <= k < |t.rows| && t.rows[k] == t.Get(product.id).value;
      assert r[k] == product;
      forall a, b | 0 <= a < b < |r| && r[a].val.name == product.val.name
        ensures r[b].val.name != product.val.name
      {
        assert t.rows[a].id == product.id;
      }
      if NamesUnique(t.rows) {
        forall i, j | 0 <= i < j < |r| ensures r[i].val.name != r[j].val.name {
          if t.rows[i].id == product.id {
            assert t.rows[j].id != product.id;
          }
        }
      }
    } else {
      assert r[|t.rows|].val.name == product.val.name;
      if NamesUnique(t.rows) {
        forall i, j | 0 <= i < j < |r| ensures r[i].val.name != r[j].val.name {
          if j == |t.rows| {
            assert r[i] == t.rows[i];
          }
        }
      }
    }
  }


  /**
   * `getProductById`: the stored product under "products", or 404 with a
   * message naming the id.
   */
  function GetProductById(db: Database, id: int): (r: Response<Row<Product>>)
    reads db
    ensures r.Message? <==> forall j :: 0 <= j < |db.products.rows| ==> db.products.rows[j].id != id
    ensures r.Message? ==> r == Message(NOT_FOUND, "Product not found with id: " + Decimal(id))
    ensures r.Body? ==> r.status == OK && r.key == "products" && r.value in db.products.rows && r.value.id == id
  {
    match db.products.Get(id)
    case None => Message(NOT_FOUND, "Product not found with id: " + Decimal(id))
    case Some(row) => Body(OK, "products", row)
  }

  /**
   * `updateProduct`: the product is saved (an insert when its key is not
   * stored) and 200 is returned; a save the SKU constraint refuses is
   * caught and gives 400 with nothing written.
   */
  method UpdateProduct(db: Database, product: Row<Product>) returns (r: Reply)
    requires db.Valid()
    modifies db`products
    ensures db.Valid()
    ensures SkuTaken(old(db.products), product) ==>
      r == Reply(BAD_REQUEST, "Error occurred: ") && db.products == old(db.products)
    ensures !SkuTaken(old(db.products), product) ==>
      r == Reply(OK, "Data updated successfully") && db.products == old(db.products.Upsert(product).0)
  {
    if !SkuTaken(db.products, product) {
      UpsertKeepsSkusUnique(db.products, product);
    }
    var saved := db.SaveProduct(product);
    match saved
    case Returned(_) =>
      r := Reply(OK, "Data updated successfully");
    case Raised(_) =>
      r := Reply(BAD_REQUEST, "Error occurred: ");
  }

  /** What `deleteProduct` answers, and whether it hands the deletion on. */
  datatype Deletion = Deletion(reply: Reply, delegated: bool)

  /**
   * `deleteProduct` up to its delegation: an unknown id is answered with a
   * not-present message and nothing is deleted; a known id is handed on
   * for deletion and reported as deleted. The status is never set, so
   * both answers carry 200.
   */
  function DeleteProduct(db: Database, id: int): (r: Deletion)
    reads db
    ensures r.delegated <==> exists j :: 0 <= j < |db.products.rows| && db.products.rows[j].id == id
    ensures !r.delegated ==> r.reply == Reply(OK, "Id " + Decimal(id) + " not present in database")
    ensures r.delegated ==> r.reply == Reply(OK, "Deleted product successfully with id: " + Decimal(id))
  {
    if !ValidateProductId(db, id) then Deletion(Reply(OK, "Id " + Decimal(id) + " not present in database"), false)
    else Deletion(Reply(OK, "Deleted product successfully with id: " + Decimal(id)), true)
  }

  /**
   * `filterByCategoryProduct` as written: a `"null"` name selects the
   * category search; else a `"null"` category selects the name-and-category
   * search with the literal `"null"` as category; else the name search,
   * which drops the category.
   */
  function FilterByCategoryProduct(name: string, category: string): (q: ProductQuery)
    ensures Honours(q, name, category, None) <==> name == Sentinel && category != Sentinel
    ensures name != Sentinel && category == Sentinel ==> q == BySubNameAndCategory(name, Sentinel)
    ensures name == Sentinel ==> q == ByCategory(category)
    ensures name != Sentinel && category != Sentinel ==> q == BySubName(name) && CategoryFilter(q).None?
  {
    if name == Sentinel then ByCategory(category)
    else if category == Sentinel then BySubNameAndCategory(name, category)
    else BySubName(name)
  }

  /**
   * `filterByCategoryProduct` with its last two queries in the places the
   * sentinel means: it filters on exactly the segments given, except when
   * both are `"null"`.
   */
  function FilterByCategoryProductCorrected(name: string, category: string): (q: ProductQuery)
    ensures Honours(q, name, category, None) <==> !(name == Sentinel && category == Sentinel)
    ensures name == Sentinel && category == Sentinel ==> q == ByCategory(Sentinel)
  {
    if name == Sentinel then ByCategory(category)
    else if category == Sentinel then BySubName(name)
    else BySubNameAndCategory(name, category)
  }

  /** An input on which the two differ: a name and a category both given. */
  lemma FilterDropsCategory()
    ensures FilterByCategoryProduct("phone", "Electronics") == BySubName("phone")
    ensures !Honours(FilterByCategoryProduct("phone", "Electronics"), "phone", "Electronics", None)
    ensures FilterByCategoryProductCorrected("phone", "Electronics") == BySubNameAndCategory("phone", "Electronics")
  {
  }
}
