/**
 * The Batch record (one lot of a product) and the rules the table
 * places on it: ids in creation order and a unique code per product.
 */
module BatchModel {
  import opened Wrappers

  /** A product row, reduced to what the stock engine reads: its id and its owning company. */
  datatype Product = Product(id: nat, company: nat)

  /** An amount of money in whole cents: a decimal with two places. */
  type Cents = int

  /** An optional calendar date, as a day number. */
  type Date = Option<int>

  /**
   * One lot of a product. The quantities are plain integers: no storage
   * bound keeps them non-negative, only the stock operations do.
   */
  datatype Batch = Batch(
    id: nat,
    product: Product,
    code: Option<string>,
    received: int,
    available: int,
    price: Cents,
    expiration: Date,
    supplier: string,
    receivedAt: int)

  /** The largest magnitude, in cents, of a decimal with 10 digits of which 2 are decimals. */
  const PriceBound: int := 10_000_000_000

  /** `purchase_price` fits a decimal column with at most 10 digits, 2 of them after the point. */
  predicate PriceFits(price: Cents) {
    -PriceBound < price < PriceBound
  }

  /** Ids grow with the position of the row: the sequence is in creation (default) order. */
  ghost predicate IdsIncreasing(bs: seq<Batch>) {
    forall j, k :: 0 <= j < k < |bs| ==> bs[j].id < bs[k].id
  }

  /**
   * The constraint `unique_batch_code_per_product`: two rows of one product
   * never carry the same code. As in SQL, absent codes never collide.
   */
  ghost predicate CodesUnique(bs: seq<Batch>) {
    forall j, k :: 0 <= j < k < |bs| && bs[j].product == bs[k].product && bs[j].code.Some? ==>
      bs[j].code != bs[k].code
  }

  /** Whether some batch of product `p` already carries the code `c`. */
  function HasCode(bs: seq<Batch>, p: Product, c: string): (r: bool)
    ensures r <==> exists j :: 0 <= j < |bs| && bs[j].product == p && bs[j].code == Some(c)
  {
    if bs == [] then false
    else
      var n := |bs| - 1;
      assert forall j :: 0 <= j < n ==> bs[..n][j] == bs[j];
      (bs[n].product == p && bs[n].code == Some(c)) || HasCode(bs[..n], p, c)
  }

  /** Appending a batch whose code is not yet used by its product keeps the constraint. */
  lemma AppendKeepsCodesUnique(bs: seq<Batch>, b: Batch)
    requires CodesUnique(bs)
    requires b.code.Some? ==> !HasCode(bs, b.product, b.code.value)
    ensures CodesUnique(bs + [b])
  {
  }

  /** Rows `bs'` differ from `bs` in nothing but their available quantities. */
  ghost predicate SameRows(bs: seq<Batch>, bs': seq<Batch>) {
    |bs'| == |bs| && forall j :: 0 <= j < |bs| ==> bs'[j] == bs[j].(available := bs'[j].available)
  }

  /** Changing available quantities keeps ids, codes and prices, so every table rule still holds. */
  lemma SameRowsKeepRules(bs: seq<Batch>, bs': seq<Batch>)
    requires SameRows(bs, bs')
    ensures IdsIncreasing(bs) ==> IdsIncreasing(bs')
    ensures CodesUnique(bs) ==> CodesUnique(bs')
    ensures forall j :: 0 <= j < |bs| ==>
      bs'[j].id == bs[j].id && bs'[j].product == bs[j].product && bs'[j].price == bs[j].price
  {
    assert forall j :: 0 <= j < |bs| ==>
      bs'[j].id == bs[j].id && bs'[j].product == bs[j].product && bs'[j].code == bs[j].code && bs'[j].price == bs[j].price;
  }
}
