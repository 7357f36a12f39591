/**
 * The product-search queries the filter endpoints choose between. Their
 * result sets are the repository's business; only the choice of query
 * and the arguments passed to it are modelled. A path segment spelled
 * `"null"` stands for "no filter on this field".
 */
module ProductQueries {
  import opened Wrappers

  /** The path segment that means "not given". */
  const Sentinel: string := "null"

  datatype ProductQuery =
    | ByCategory(category: string)                                  // findByCategory
    | BySubNameAndCategory(name: string, category: string)          // findProductBySubNameAndCategory
    | BySubName(name: string)                                       // findProductBySubName
    | NameLikeInStore(storeId: int, name: string)                   // findByNameLike
    | CategoryInStore(storeId: int, category: string)               // findByCategoryAndStoreId
    | NameAndCategoryInStore(storeId: int, name: string, category: string)  // findByNameAndCategory

  /** The filter a path segment asks for. */
  function Requested(segment: string): (r: Option<string>) {
    if segment == Sentinel then None else Some(segment)
  }

  /** The name filter a query applies. */
  function NameFilter(q: ProductQuery): (r: Option<string>) {
    match q
    case ByCategory(_) => None
    case BySubNameAndCategory(name, _) => Some(name)
    case BySubName(name) => Some(name)
    case NameLikeInStore(_, name) => Some(name)
    case CategoryInStore(_, _) => None
    case NameAndCategoryInStore(_, name, _) => Some(name)
  }

  /** The category filter a query applies. */
  function CategoryFilter(q: ProductQuery): (r: Option<string>) {
    match q
    case ByCategory(category) => Some(category)
    case BySubNameAndCategory(_, category) => Some(category)
    case BySubName(_) => None
    case NameLikeInStore(_, _) => None
    case CategoryInStore(_, category) => Some(category)
    case NameAndCategoryInStore(_, _, category) => Some(category)
  }

  /** The store filter a query applies. */
  function StoreFilter(q: ProductQuery): (r: Option<int>) {
    match q
    case NameLikeInStore(storeId, _) => Some(storeId)
    case CategoryInStore(storeId, _) => Some(storeId)
    case NameAndCategoryInStore(storeId, _, _) => Some(storeId)
    case _ => None
  }

  /**
   * The query filters on exactly the fields the segments give, with their
   * values, and on nothing else.
   */
  predicate Honours(q: ProductQuery, name: string, category: string, store: Option<int>) {
    NameFilter(q) == Requested(name) && CategoryFilter(q) == Requested(category) && StoreFilter(q) == store
  }
}
