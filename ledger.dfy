/**
 * What the batches and the movement ledger say together: the stock total
 * of a product, and the conservation law that makes the ledger a complete,
 * replayable account of every change to a batch's available quantity.
 */
module Ledger {
  import opened Wrappers
  import opened BatchModel
  import opened MovementModel

  /** No batch holds negative stock. */
  ghost predicate NonNegative(bs: seq<Batch>) {
    forall j :: 0 <= j < |bs| ==> bs[j].available >= 0
  }

  /** No batch belongs to product `p`. */
  ghost predicate NoBatchOf(bs: seq<Batch>, p: Product) {
    forall j :: 0 <= j < |bs| ==> bs[j].product != p
  }

  /**
   * `stock_total(product)`: the available quantity summed over the product's
   * batches; not negative when no batch is, and 0 for a product without batches.
   */
  function StockTotal(bs: seq<Batch>, p: Product): (r: int)
    ensures NonNegative(bs) ==> r >= 0
    ensures NoBatchOf(bs, p) ==> r == 0
  {
    if bs == [] then 0
    else
      var n := |bs| - 1;
      assert NonNegative(bs) ==> NonNegative(bs[..n]);
      assert NoBatchOf(bs, p) ==> NoBatchOf(bs[..n], p);
      StockTotal(bs[..n], p) + (if bs[n].product == p then bs[n].available else 0)
  }

  /** A new batch adds its available quantity to its own product's total and to no other. */
  lemma StockTotalAppend(bs: seq<Batch>, b: Batch, p: Product)
    ensures StockTotal(bs + [b], p) == StockTotal(bs, p) + (if b.product == p then b.available else 0)
  {
    assert (bs + [b])[..|bs|] == bs;
  }

  /** Changing the available quantity of one batch moves its product's total by the difference. */
  lemma {:induction false} StockTotalUpdate(bs: seq<Batch>, i: nat, a: int, p: Product)
    requires i < |bs|
    ensures StockTotal(bs[i := bs[i].(available := a)], p)
         == StockTotal(bs, p) + (if bs[i].product == p then a - bs[i].available else 0)
  {
    var bs' := bs[i := bs[i].(available := a)];
    var n := |bs| - 1;
    if i < n {
      assert bs'[..n] == bs[..n][i := bs[i].(available := a)];
      StockTotalUpdate(bs[..n], i, a, p);
    } else {
      assert bs'[..n] == bs[..n];
    }
  }

  /** The signed change that a movement of magnitude `m.quantity` may stand for. */
  ghost predicate SignedLike(m: Movement, d: int) {
    match m.kind
    case In => d == m.quantity
    case Out => d == -(m.quantity as int)
    case Expired => d == -(m.quantity as int)
    case Adjust => d == m.quantity || d == -(m.quantity as int)
  }

  /** The net signed change that the ledger `ms` (with signed changes `ds`) records for batch `id`. */
  ghost function Net(ms: seq<Movement>, ds: seq<int>, id: nat): int
    requires |ds| == |ms|
  {
    if ms == [] then 0
    else
      var n := |ms| - 1;
      Net(ms[..n], ds[..n], id) + (if ms[n].batchId == id then ds[n] else 0)
  }

  /** The total quantity recorded by the movements of kind `t` on batch `id`. */
  function Amount(ms: seq<Movement>, id: nat, t: MovementType): nat
  {
    if ms == [] then 0
    else
      var n := |ms| - 1;
      Amount(ms[..n], id, t) + (if ms[n].batchId == id && ms[n].kind == t then ms[n].quantity else 0)
  }

  /** The net signed change recorded by the ADJUST movements of batch `id`. */
  ghost function AdjustNet(ms: seq<Movement>, ds: seq<int>, id: nat): int
    requires |ds| == |ms|
  {
    if ms == [] then 0
    else
      var n := |ms| - 1;
      AdjustNet(ms[..n], ds[..n], id) + (if ms[n].batchId == id && ms[n].kind == Adjust then ds[n] else 0)
  }

  /**
   * Conservation: every batch's available quantity is what replaying its
   * movements gives, and its received quantity is what its IN movements record.
   */
  ghost predicate Conserved(bs: seq<Batch>, ms: seq<Movement>, ds: seq<int>) {
    && |ds| == |ms|
    && (forall k :: 0 <= k < |ms| ==> SignedLike(ms[k], ds[k]))
    && (forall j :: 0 <= j < |bs| ==>
          bs[j].available == Net(ms, ds, bs[j].id) && bs[j].received == Amount(ms, bs[j].id, In))
  }

  /** Every movement belongs to a batch that exists. */
  ghost predicate Linked(ms: seq<Movement>, bs: seq<Batch>) {
    forall k :: 0 <= k < |ms| ==> exists j :: 0 <= j < |bs| && bs[j].id == ms[k].batchId
  }

  /** Appending one movement adds its signed change to the net of its own batch only. */
  lemma NetAppend(ms: seq<Movement>, ds: seq<int>, m: Movement, d: int, id: nat)
    requires |ds| == |ms|
    ensures Net(ms + [m], ds + [d], id) == Net(ms, ds, id) + (if m.batchId == id then d else 0)
    ensures AdjustNet(ms + [m], ds + [d], id)
         == AdjustNet(ms, ds, id) + (if m.batchId == id && m.kind == Adjust then d else 0)
    ensures Amount(ms + [m], id, In) == Amount(ms, id, In) + (if m.batchId == id && m.kind == In then m.quantity else 0)
  {
    assert (ms + [m])[..|ms|] == ms;
    assert (ds + [d])[..|ds|] == ds;
  }

  /** A batch no movement refers to has net change zero and nothing received. */
  lemma {:induction false} NetOfUnused(ms: seq<Movement>, ds: seq<int>, id: nat)
    requires |ds| == |ms|
    requires forall k :: 0 <= k < |ms| ==> ms[k].batchId != id
    ensures Net(ms, ds, id) == 0 && Amount(ms, id, In) == 0
  {
    if ms != [] {
      var n := |ms| - 1;
      assert forall k :: 0 <= k < n ==> ms[..n][k] == ms[k];
      NetOfUnused(ms[..n], ds[..n], id);
    }
  }

  /**
   * The balance the ledger keeps for each batch: what was received minus
   * what is available equals what went out or expired, less the net of
   * the adjustments.
   */
  lemma {:induction false} LedgerBalance(ms: seq<Movement>, ds: seq<int>, id: nat)
    requires |ds| == |ms|
    requires forall k :: 0 <= k < |ms| ==> SignedLike(ms[k], ds[k])
    ensures Net(ms, ds, id)
         == Amount(ms, id, In) - Amount(ms, id, Out) - Amount(ms, id, Expired) + AdjustNet(ms, ds, id)
  {
    if ms != [] {
      var n := |ms| - 1;
      assert forall k :: 0 <= k < n ==> ms[..n][k] == ms[k] && ds[..n][k] == ds[k];
      LedgerBalance(ms[..n], ds[..n], id);
      assert SignedLike(ms[n], ds[n]);
    }
  }

  /** The conservation law, stated per batch as the ledger's balance. */
  lemma ConservedBalance(bs: seq<Batch>, ms: seq<Movement>, ds: seq<int>, j: nat)
    requires Conserved(bs, ms, ds) && j < |bs|
    ensures bs[j].received - bs[j].available
         == Amount(ms, bs[j].id, Out) + Amount(ms, bs[j].id, Expired) - AdjustNet(ms, ds, bs[j].id)
  {
    LedgerBalance(ms, ds, bs[j].id);
  }

  /**
   * Recording a change of `d` on batch `i` together with a movement of that
   * batch and a matching sign keeps the ledger conserved.
   */
  lemma RecordKeepsConserved(bs: seq<Batch>, ms: seq<Movement>, ds: seq<int>, i: nat, m: Movement, d: int)
    requires Conserved(bs, ms, ds) && IdsIncreasing(bs)
    requires i < |bs| && m.batchId == bs[i].id && m.kind != In && SignedLike(m, d)
    ensures Conserved(bs[i := bs[i].(available := bs[i].available + d)], ms + [m], ds + [d])
  {
    var bs' := bs[i := bs[i].(available := bs[i].available + d)];
    forall j | 0 <= j < |bs'|
      ensures bs'[j].available == Net(ms + [m], ds + [d], bs'[j].id)
      ensures bs'[j].received == Amount(ms + [m], bs'[j].id, In)
    {
      NetAppend(ms, ds, m, d, bs[j].id);
      assert j != i ==> bs[j].id != bs[i].id;
    }
  }

  /**
   * Adding a batch whose id no movement uses, together with its IN movement
   * of the received quantity, keeps the ledger conserved.
   */
  lemma EntryKeepsConserved(bs: seq<Batch>, ms: seq<Movement>, ds: seq<int>, b: Batch, note: Option<string>)
    requires Conserved(bs, ms, ds)
    requires forall k :: 0 <= k < |ms| ==> ms[k].batchId != b.id
    requires forall j :: 0 <= j < |bs| ==> bs[j].id != b.id
    requires b.received == b.available && b.received > 0
    ensures Conserved(bs + [b], ms + [Movement(b.id, In, b.received as nat, note)], ds + [b.received])
  {
    var m := Movement(b.id, In, b.received as nat, note);
    var bs' := bs + [b];
    NetOfUnused(ms, ds, b.id);
    forall j | 0 <= j < |bs'|
      ensures bs'[j].available == Net(ms + [m], ds + [b.received], bs'[j].id)
      ensures bs'[j].received == Amount(ms + [m], bs'[j].id, In)
    {
      NetAppend(ms, ds, m, b.received, bs'[j].id);
    }
  }

  /** Linking survives appending a movement of an existing batch. */
  lemma LinkedAppend(ms: seq<Movement>, bs: seq<Batch>, m: Movement, i: nat)
    requires Linked(ms, bs) && i < |bs| && m.batchId == bs[i].id
    ensures Linked(ms + [m], bs)
  {
  }

  /** Linking only reads batch ids, which changing available quantities keeps. */
  lemma LinkedSameRows(ms: seq<Movement>, bs: seq<Batch>, bs': seq<Batch>)
    requires Linked(ms, bs) && SameRows(bs, bs')
    ensures Linked(ms, bs')
  {
    forall k | 0 <= k < |ms| ensures exists j :: 0 <= j < |bs'| && bs'[j].id == ms[k].batchId {
      var j :| 0 <= j < |bs| && bs[j].id == ms[k].batchId;
      assert bs'[j].id == ms[k].batchId;
    }
    assert forall k :: 0 <= k < |ms| ==> exists j :: 0 <= j < |bs'| && bs'[j].id == ms[k].batchId;
  }
}
