/**
 * The `/reviews` endpoints: the reviews of one product in one store, each
 * with its customer's name, and the full list.
 */
module ReviewController {
  import opened Wrappers
  import opened Storage
  import opened Entities
  import opened Repositories

  /** One entry of the `getReviews` list: the comment, the rating and the customer's name. */
  datatype ReviewEntry = ReviewEntry(review: string, rating: int, customerName: string)

  /** The name shown when the review's customer is not stored. */
  const UnknownCustomer: string := "Unknown"

  /**
   * `findByStoreIdAndProductId`: the stored reviews of that product in
   * that store, each as many times as it is stored, in stored order.
   */
  function ReviewsFor(reviews: seq<Review>, storeId: int, productId: int): (r: seq<Review>)
    ensures forall i :: 0 <= i < |r| ==> r[i] in reviews && r[i].storeId == storeId && r[i].productId == productId
    ensures forall i :: 0 <= i < |reviews| && reviews[i].storeId == storeId && reviews[i].productId == productId ==>
      reviews[i] in r
    ensures forall x {:trigger multiset(r)[x]} ::
      multiset(r)[x] == (if x.storeId == storeId && x.productId == productId then multiset(reviews)[x] else 0)
  {
    FilterMultiset(reviews, (x: Review) => x.storeId == storeId && x.productId == productId);
    Filter(reviews, (x: Review) => x.storeId == storeId && x.productId == productId)
  }

  /** The entry built for one review: the stored customer's name, or the fallback. */
  function EntryFor(customers: Table<Customer>, review: Review): (entry: ReviewEntry) {
    var name := match customers.Get(review.customerId)
                case Some(c) => c.val.name
                case None => UnknownCustomer;
    ReviewEntry(review.comment, review.rating, name)
  }

  /**
   * An entry shows the review's comment and rating, the name of the
   * customer stored under the review's customer key, and `"Unknown"`
   * exactly when no customer is stored under it.
   */
  lemma EntryForNames(customers: Table<Customer>, review: Review)
    requires customers.Valid()
    ensures EntryFor(customers, review).review == review.comment
    ensures EntryFor(customers, review).rating == review.rating
    ensures forall j :: 0 <= j < |customers.rows| && customers.rows[j].id == review.customerId ==>
      EntryFor(customers, review).customerName == customers.rows[j].val.name
    ensures (forall j :: 0 <= j < |customers.rows| ==> customers.rows[j].id != review.customerId) ==>
      EntryFor(customers, review).customerName == UnknownCustomer
  {
    forall j | 0 <= j < |customers.rows| && customers.rows[j].id == review.customerId
      ensures EntryFor(customers, review).customerName == customers.rows[j].val.name
    {
      var found := customers.Get(review.customerId).value;
      var k :| 0 <= k < |customers.rows| && customers.rows[k] == found;
      assert k == j by {
        if k < j {} else if j < k {}
      }
    }
  }

  /**
   * `getReviews`: one entry per review found, in the order found, each
   * built from its review as `EntryFor` says. Nothing is written.
   */
  method GetReviews(db: Database, storeId: int, productId: int) returns (entries: seq<ReviewEntry>)
    ensures var found := ReviewsFor(db.reviews, storeId, productId);
      && |entries| == |found|
      && forall k :: 0 <= k < |entries| ==> entries[k] == EntryFor(db.customers, found[k])
  {
    var reviews := ReviewsFor(db.reviews, storeId, productId);
    entries := [];
    var i := 0;
    while i < |reviews|
      invariant 0 <= i <= |reviews|
      invariant |entries| == i
      invariant forall k :: 0 <= k < i ==> entries[k] == EntryFor(db.customers, reviews[k])
    {
      var review := reviews[i];
      var customer := db.customers.Get(review.customerId);
      var name: string;
      if customer.Some? {
        name := customer.value.val.name;
      } else {
        name := UnknownCustomer;
      }
      entries := entries + [ReviewEntry(review.comment, review.rating, name)];
      i := i + 1;
    }
  }

  /** `getAllReviews`: every stored review, in stored order. */
  function GetAllReviews(db: Database): (r: seq<Review>)
    reads db
    ensures |r| == |db.reviews| && forall i :: 0 <= i < |r| ==> r[i] == db.reviews[i]
  {
    db.reviews
  }
}
