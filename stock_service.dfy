/**
 * The stock accounting engine: one store of batches and its append-only
 * movement ledger, changed only by entries, exits, adjustments and
 * expiries. Each operation is all-or-nothing: its one failure is detected
 * before anything changes.
 */
module StockService {
  import opened Wrappers
  import opened BatchModel
  import opened MovementModel
  import opened Ledger
  import opened BatchCode
  import opened Fefo

  /** What the engine refuses. */
  datatype StockError =
    | InsufficientStock  // an exit asks for more than the product's batches hold
    | DuplicateCode      // an entry's code is already used by another batch of the product

  /** The note of the IN movement of every entry. */
  const EntryNote: string := "Ingreso de producto"

  /** The note of an adjustment when the caller gives none. */
  const AdjustNote: string := "Ajuste manual"

  /** The note of every EXPIRED movement. */
  const ExpiredNote: string := "Producto vencido"

  /** Whether an optional text is given and not empty (Python truthiness of a string or `None`). */
  predicate Given(s: Option<string>) {
    s.Some? && s.value != ""
  }

  /**
   * The code an entry stores: the one supplied, kept as it is, or else a
   * generated `LOTE-` code ending in the company's next lot number.
   */
  function EntryCode(bs: seq<Batch>, p: Product, code: Option<string>): (c: string)
    ensures Given(code) ==> c == code.value
    ensures !Given(code) ==> Prefix <= c && ParseNat(LastSegment(c)) == Some(NextNumber(LatestCode(bs, p.company)))
  {
    if Given(code) then code.value else NextBatchCode(bs, p.company)
  }

  /**
   * The table rules on the batches: ids in creation order and all below
   * `nextId`, unique codes per product, prices within their column.
   */
  ghost predicate TableRules(bs: seq<Batch>, nextId: nat) {
    && IdsIncreasing(bs)
    && (forall j :: 0 <= j < |bs| ==> bs[j].id < nextId && PriceFits(bs[j].price))
    && CodesUnique(bs)
  }

  /** Changing available quantities only keeps the table rules. */
  lemma TableRulesSameRows(bs: seq<Batch>, bs': seq<Batch>, nextId: nat)
    requires TableRules(bs, nextId) && SameRows(bs, bs')
    ensures TableRules(bs', nextId)
  {
    SameRowsKeepRules(bs, bs');
  }

  /**
   * The store's invariant: the table rules on the batches, no negative
   * stock, every movement linked to a batch, and the ledger conserved.
   */
  ghost predicate Consistent(bs: seq<Batch>, ms: seq<Movement>, ds: seq<int>, nextId: nat) {
    TableRules(bs, nextId) && NonNegative(bs) && Linked(ms, bs) && Conserved(bs, ms, ds)
  }

  /**
   * Changing the stock of batch `i` by `d`, to `v`, while recording a
   * movement of that batch with the matching sign keeps the store
   * consistent, as long as the stock does not go negative.
   */
  lemma RecordKeepsConsistent(bs: seq<Batch>, ms: seq<Movement>, ds: seq<int>, nextId: nat,
                              i: nat, m: Movement, v: int, d: int)
    requires Consistent(bs, ms, ds, nextId)
    requires i < |bs| && m.batchId == bs[i].id && m.kind != In && SignedLike(m, d)
    requires v >= 0 && v == bs[i].available + d
    ensures Consistent(bs[i := bs[i].(available := v)], ms + [m], ds + [d], nextId)
  {
    var bs' := bs[i := bs[i].(available := v)];
    assert bs' == bs[i := bs[i].(available := bs[i].available + d)];
    RecordKeepsConserved(bs, ms, ds, i, m, d);
    assert Conserved(bs', ms + [m], ds + [d]);
    LinkedAppend(ms, bs, m, i);
    LinkedSameRows(ms + [m], bs, bs');
    TableRulesSameRows(bs, bs', nextId);
    assert NonNegative(bs');
  }

  /**
   * Adding batch `nextId` with its IN movement of the quantity received,
   * under a code its product does not use yet, keeps the store consistent.
   */
  lemma EntryKeepsConsistent(bs: seq<Batch>, ms: seq<Movement>, ds: seq<int>, nextId: nat, b: Batch, note: Option<string>)
    requires Consistent(bs, ms, ds, nextId)
    requires b.id == nextId && b.received == b.available && b.received > 0 && PriceFits(b.price)
    requires b.code.Some? ==> !HasCode(bs, b.product, b.code.value)
    ensures Consistent(bs + [b], ms + [Movement(b.id, In, b.received as nat, note)], ds + [b.received], nextId + 1)
  {
    var m := Movement(b.id, In, b.received as nat, note);
    var bs' := bs + [b];
    forall k | 0 <= k < |ms| ensures ms[k].batchId != nextId {
      var j :| 0 <= j < |bs| && bs[j].id == ms[k].batchId;
    }
    EntryKeepsConserved(bs, ms, ds, b, note);
    AppendKeepsCodesUnique(bs, b);
    forall k | 0 <= k < |ms + [m]| ensures exists j :: 0 <= j < |bs'| && bs'[j].id == (ms + [m])[k].batchId {
      if k < |ms| {
        var j :| 0 <= j < |bs| && bs[j].id == ms[k].batchId;
        assert bs'[j].id == (ms + [m])[k].batchId;
      } else {
        assert bs'[|bs|].id == m.batchId;
      }
    }
    assert forall k :: 0 <= k < |ms + [m]| ==> exists j :: 0 <= j < |bs'| && bs'[j].id == (ms + [m])[k].batchId;
  }

  /**
   * Where the exit loop stands with the positions `tail` still ahead: the
   * ledger `ms` so far, followed by the walk of `tail` over the rows `bs`
   * with `rest` still to take, gives the walk `w` of the whole order that
   * started from the ledger `ms0`.
   */
  ghost predicate OnWalk(ms0: seq<Movement>, note: Option<string>, w: (seq<Batch>, seq<Movement>),
                         bs: seq<Batch>, ms: seq<Movement>, tail: seq<nat>, rest: nat)
  {
    && WalkOrder(bs, tail)
    && Walk(bs, tail, rest, note).0 == w.0
    && ms + Walk(bs, tail, rest, note).1 == ms0 + w.1
  }

  /**
   * One step of the exit loop: taking `min(available, rest)` from the batch
   * at `tail[0]` and recording its OUT movement keeps the loop on the walk.
   */
  lemma OnWalkStep(ms0: seq<Movement>, note: Option<string>, w: (seq<Batch>, seq<Movement>),
                   bs: seq<Batch>, ms: seq<Movement>, tail: seq<nat>, rest: nat, taken: nat,
                   bs': seq<Batch>, ms': seq<Movement>)
    requires OnWalk(ms0, note, w, bs, ms, tail, rest)
    requires tail != [] && rest > 0
    requires taken == Min(bs[tail[0]].available, rest)
    requires bs' == bs[tail[0] := bs[tail[0]].(available := bs[tail[0]].available - taken)]
    requires ms' == ms + [Movement(bs[tail[0]].id, Out, taken, note)]
    ensures taken <= rest
    ensures OnWalk(ms0, note, w, bs', ms', tail[1..], rest - taken)
  {
    WalkStep(bs, tail, rest, note);
    AppendAssociates(ms, [Movement(bs[tail[0]].id, Out, taken, note)], Walk(bs', tail[1..], rest - taken, note).1);
  }

  /** Concatenation of ledgers associates. */
  lemma AppendAssociates(a: seq<Movement>, b: seq<Movement>, c: seq<Movement>)
    ensures a + b + c == a + (b + c)
  {
  }

  /**
   * One step of the exit loop on the whole store: the loop stays on the
   * walk and the store stays consistent.
   */
  lemma TakeStep(ms0: seq<Movement>, note: Option<string>, w: (seq<Batch>, seq<Movement>),
                 bs: seq<Batch>, ms: seq<Movement>, ds: seq<int>, nextId: nat,
                 tail: seq<nat>, rest: nat, taken: nat,
                 bs': seq<Batch>, ms': seq<Movement>, ds': seq<int>)
    requires OnWalk(ms0, note, w, bs, ms, tail, rest) && Consistent(bs, ms, ds, nextId)
    requires tail != [] && rest > 0
    requires taken == Min(bs[tail[0]].available, rest)
    requires bs' == bs[tail[0] := bs[tail[0]].(available := bs[tail[0]].available - taken)]
    requires ms' == ms + [Movement(bs[tail[0]].id, Out, taken, note)]
    requires ds' == ds + [-(taken as int)]
    ensures taken <= rest
    ensures OnWalk(ms0, note, w, bs', ms', tail[1..], rest - taken) && Consistent(bs', ms', ds', nextId)
  {
    var i := tail[0];
    OnWalkStep(ms0, note, w, bs, ms, tail, rest, taken, bs', ms');
    RecordKeepsConsistent(bs, ms, ds, nextId, i, Movement(bs[i].id, Out, taken, note),
                          bs[i].available - taken, -(taken as int));
  }

  /** When the loop stops, its state is the walk's. */
  lemma OnWalkDone(ms0: seq<Movement>, note: Option<string>, w: (seq<Batch>, seq<Movement>),
                   bs: seq<Batch>, ms: seq<Movement>, tail: seq<nat>, rest: nat)
    requires OnWalk(ms0, note, w, bs, ms, tail, rest)
    requires tail == [] || rest == 0
    ensures bs == w.0 && ms == ms0 + w.1
  {
  }

  /**
   * The loop of `registrar_salida`, on the rows and the ledger: walks the
   * positions `order`, taking `min(remaining, available)` from each until
   * nothing remains, and appends one OUT movement per batch touched. It does
   * what `Walk` describes and keeps the store consistent.
   */
  method TakeFefo(bs0: seq<Batch>, ms0: seq<Movement>, ghost ds0: seq<int>, ghost nextId: nat,
                  order: seq<nat>, quantity: nat, note: Option<string>)
    returns (bs: seq<Batch>, ms: seq<Movement>, ghost ds: seq<int>)
    requires Consistent(bs0, ms0, ds0, nextId) && WalkOrder(bs0, order)
    ensures bs == Walk(bs0, order, quantity, note).0
    ensures ms == ms0 + Walk(bs0, order, quantity, note).1
    ensures Consistent(bs, ms, ds, nextId)
  {
    ghost var w := Walk(bs0, order, quantity, note);
    bs, ms, ds := bs0, ms0, ds0;
    var remaining: nat := quantity;
    var tail := order;
    while tail != []
      invariant OnWalk(ms0, note, w, bs, ms, tail, remaining)
      invariant Consistent(bs, ms, ds, nextId)
      decreases |tail|
    {
      if remaining == 0 {
        break;
      }
      var i := tail[0];
      var b := bs[i];
      var taken: nat;
      if b.available >= remaining {
        taken := remaining;
      } else {
        taken := b.available;
      }
      var bs' := bs[i := b.(available := b.available - taken)];
      var ms' := ms + [Movement(b.id, Out, taken, note)];
      ghost var ds' := ds + [-(taken as int)];
      TakeStep(ms0, note, w, bs, ms, ds, nextId, tail, remaining, taken, bs', ms', ds');
      bs, ms := bs', ms';
      ds := ds';
      remaining := remaining - taken;
      tail := tail[1..];
    }
    OnWalkDone(ms0, note, w, bs, ms, tail, remaining);
  }

  /** The batches, the movement ledger and the next free batch id. */
  class Store {
    var batches: seq<Batch>
    var movements: seq<Movement>
    var nextId: nat
    /** The signed change of available stock that each movement stands for. */
    ghost var deltas: seq<int>

    /** The store's invariant. */
    ghost predicate Valid()
      reads this
    {
      Consistent(batches, movements, deltas, nextId)
    }

    /** An empty store. */
    constructor ()
      ensures Valid()
      ensures batches == [] && movements == [] && nextId == 0
    {
      batches, movements, nextId := [], [], 0;
      deltas := [];
    }

    /**
     * `registrar_entrada`: creates batch `old(nextId)` with received and
     * available stock both `quantity` and one IN movement of `quantity` on
     * it. The code is generated only when none is supplied; a code already
     * used by a batch of the product is refused and nothing changes.
     */
    method RegisterEntry(product: Product, quantity: int, price: Cents, expiration: Date,
                         supplier: string, code: Option<string>, receivedAt: int)
      returns (r: Result<Batch, StockError>)
      requires Valid()
      requires quantity > 0 && PriceFits(price)
      modifies this
      ensures Valid()
      ensures var c := EntryCode(old(batches), product, code);
        && (r.Err? <==> HasCode(old(batches), product, c))
        && (r.Err? ==> r.error == DuplicateCode && batches == old(batches) && movements == old(movements)
                       && nextId == old(nextId))
        && (r.Ok? ==>
              && r.value == Batch(old(nextId), product, Some(c), quantity, quantity, price, expiration, supplier, receivedAt)
              && batches == old(batches) + [r.value]
              && movements == old(movements) + [Movement(old(nextId), In, quantity as nat, Some(EntryNote))]
              && nextId == old(nextId) + 1)
    {
      var c := EntryCode(batches, product, code);
      if HasCode(batches, product, c) {
        return Err(DuplicateCode);
      }
      var b := Batch(nextId, product, Some(c), quantity, quantity, price, expiration, supplier, receivedAt);
      var m := Movement(b.id, In, quantity as nat, Some(EntryNote));
      EntryKeepsConsistent(batches, movements, deltas, nextId, b, Some(EntryNote));
      batches := batches + [b];
      movements := movements + [m];
      deltas := deltas + [b.received];
      nextId := nextId + 1;
      r := Ok(b);
    }

    /**
     * `registrar_salida`: refuses when the product's batches with stock
     * hold less than `quantity`, changing nothing; otherwise walks them in
     * FEFO order, taking `min(remaining, available)` from each and
     * recording one OUT movement per batch touched.
     */
    method RegisterExit(product: Product, quantity: int, note: Option<string>, nulls: NullPlacement)
      returns (r: Outcome<StockError>)
      requires Valid()
      requires quantity > 0
      modifies this
      ensures Valid() && nextId == old(nextId)
      ensures var order := FefoOrder(old(batches), product, nulls);
        && (r.Fail? <==> SumAvailable(old(batches), order) < quantity)
        && (r.Fail? ==> r.error == InsufficientStock && batches == old(batches) && movements == old(movements))
        && (r.Pass? ==>
              && batches == Walk(old(batches), order, quantity, note).0
              && movements == old(movements) + Walk(old(batches), order, quantity, note).1)
      ensures r.Fail? <==> StockTotal(old(batches), product) < quantity
      ensures r.Pass? ==> StockTotal(batches, product) == StockTotal(old(batches), product) - quantity
    {
      var order := FefoOrder(batches, product, nulls);
      var total := SumAvailable(batches, order);
      if total < quantity {
        ExitRefusal(batches, product, nulls, quantity);
        return Fail(InsufficientStock);
      }
      var bs, ms, ds := TakeFefo(batches, movements, deltas, nextId, order, quantity, note);
      batches, movements := bs, ms;
      deltas := ds;
      ExitRefusal(old(batches), product, nulls, quantity);
      ExitAccounting(old(batches), product, nulls, quantity, note);
      return Pass;
    }

    /**
     * `ajustar_stock`: sets the available stock of batch `i` to
     * `newQuantity` and records one ADJUST movement of the difference's
     * magnitude, even when it is zero; the note defaults to "Ajuste manual".
     */
    method AdjustStock(i: nat, newQuantity: int, note: Option<string>)
      requires Valid()
      requires i < |batches| && newQuantity >= 0
      modifies this
      ensures Valid() && nextId == old(nextId)
      ensures batches == old(batches)[i := old(batches)[i].(available := newQuantity)]
      ensures movements == old(movements) + [Movement(old(batches)[i].id, Adjust,
                                                      Abs(newQuantity - old(batches)[i].available),
                                                      Some(if Given(note) then note.value else AdjustNote))]
    {
      var b := batches[i];
      var difference := newQuantity - b.available;
      var m := Movement(b.id, Adjust, Abs(difference), Some(if Given(note) then note.value else AdjustNote));
      RecordKeepsConsistent(batches, movements, deltas, nextId, i, m, newQuantity, difference);
      batches := batches[i := b.(available := newQuantity)];
      movements := movements + [m];
      deltas := deltas + [difference];
    }

    /**
     * `marcar_vencido`: a batch with no stock left is left alone and nothing
     * is recorded; otherwise its stock drops to 0 and one EXPIRED movement of
     * the stock it had is recorded.
     */
    method MarkExpired(i: nat)
      requires Valid()
      requires i < |batches|
      modifies this
      ensures Valid() && nextId == old(nextId)
      ensures old(batches)[i].available <= 0 ==> batches == old(batches) && movements == old(movements)
      ensures old(batches)[i].available > 0 ==>
        && batches == old(batches)[i := old(batches)[i].(available := 0)]
        && movements == old(movements) + [Movement(old(batches)[i].id, Expired, old(batches)[i].available as nat, Some(ExpiredNote))]
      ensures batches[i].available == 0
    {
      var b := batches[i];
      if b.available <= 0 {
        return;
      }
      var m := Movement(b.id, Expired, b.available as nat, Some(ExpiredNote));
      RecordKeepsConsistent(batches, movements, deltas, nextId, i, m, 0, -b.available);
      batches := batches[i := b.(available := 0)];
      movements := movements + [m];
      deltas := deltas + [-b.available];
    }

    /** Marking a batch expired twice records exactly one EXPIRED movement, and only if it had stock. */
    method MarkExpiredTwice(i: nat)
      requires Valid()
      requires i < |batches|
      modifies this
      ensures Valid()
      ensures batches == old(batches)[i := old(batches)[i].(available := 0)]
      ensures movements == old(movements)
        + (if old(batches)[i].available > 0
           then [Movement(old(batches)[i].id, Expired, old(batches)[i].available as nat, Some(ExpiredNote))]
           else [])
    {
      MarkExpired(i);
      MarkExpired(i);
    }
  }

  /** `abs(x)`. */
  function Abs(x: int): (r: nat)
    ensures r == x || r == -x
  {
    if x < 0 then -x else x
  }
}
