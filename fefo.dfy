/**
 * First-expire-first-out depletion: the query that lists a product's
 * batches with stock in `(expiration_date, id)` order, and the greedy walk
 * that takes what an exit asks for from those batches in that order.
 */
module Fefo {
  import opened Wrappers
  import opened BatchModel
  import opened MovementModel
  import opened Ledger

  /** Where batches without an expiration date sort: the database decides, so the model takes it as a parameter. */
  datatype NullPlacement = NullsFirst | NullsLast

  function Min(a: int, b: int): int {
    if a <= b then a else b
  }

  function Max(a: int, b: int): int {
    if a >= b then a else b
  }

  /** Strictly earlier in ascending order of optional dates. */
  predicate DateBefore(a: Date, b: Date, nulls: NullPlacement) {
    match (a, b)
    case (Some(x), Some(y)) => x < y
    case (None, Some(_)) => nulls == NullsFirst
    case (Some(_), None) => nulls == NullsLast
    case (None, None) => false
  }

  /** `order_by("expiration_date", "id")`: `x` sorts strictly before `y`. */
  predicate Precedes(x: Batch, y: Batch, nulls: NullPlacement) {
    DateBefore(x.expiration, y.expiration, nulls) || (x.expiration == y.expiration && x.id < y.id)
  }

  /** The FEFO order is a strict total order on batches with different ids. */
  lemma PrecedesStrictTotal(x: Batch, y: Batch, z: Batch, nulls: NullPlacement)
    ensures !Precedes(x, x, nulls)
    ensures Precedes(x, y, nulls) ==> !Precedes(y, x, nulls)
    ensures Precedes(x, y, nulls) && Precedes(y, z, nulls) ==> Precedes(x, z, nulls)
    ensures x.id != y.id ==> Precedes(x, y, nulls) || Precedes(y, x, nulls)
  {
  }

  /** A batch the exit query returns: of the product, with stock left. */
  predicate IsCandidate(b: Batch, p: Product) {
    b.product == p && b.available > 0
  }

  /** `s` holds positions of `bs`. */
  predicate Indices(bs: seq<Batch>, s: seq<nat>) {
    forall k :: 0 <= k < |s| ==> s[k] < |bs|
  }

  /** No position occurs twice in `s`. */
  predicate Distinct(s: seq<nat>) {
    forall j, k :: 0 <= j < k < |s| ==> s[j] != s[k]
  }

  /** `filter(product=p, quantity_available__gt=0)`: the positions of the candidates, in table order. */
  function Candidates(bs: seq<Batch>, p: Product): (r: seq<nat>)
    ensures Indices(bs, r)
    ensures forall k :: 0 <= k < |r| ==> IsCandidate(bs[r[k]], p)
    ensures forall i :: 0 <= i < |bs| && IsCandidate(bs[i], p) ==> i in r
    ensures forall j, k :: 0 <= j < k < |r| ==> r[j] < r[k]
  {
    if bs == [] then []
    else
      var n := |bs| - 1;
      assert forall j :: 0 <= j < n ==> bs[..n][j] == bs[j];
      Candidates(bs[..n], p) + (if IsCandidate(bs[n], p) then [n] else [])
  }

  /** Puts position `i` into `s`, before the first position it precedes. */
  function Insert(bs: seq<Batch>, i: nat, s: seq<nat>, nulls: NullPlacement): (r: seq<nat>)
    requires i < |bs| && Indices(bs, s)
    ensures |r| == |s| + 1 && Indices(bs, r)
    ensures forall x :: x in r <==> x == i || x in s
    ensures Distinct(s) && i !in s ==> Distinct(r)
  {
    if s == [] then [i]
    else if Precedes(bs[i], bs[s[0]], nulls) then [i] + s
    else
      assert s == [s[0]] + s[1..];
      var t := Insert(bs, i, s[1..], nulls);
      assert Distinct(s) ==> Distinct(s[1..]) && s[0] !in s[1..];
      assert forall x :: x in [s[0]] + t <==> x == s[0] || x in t;
      [s[0]] + t
  }

  /** Sorts the positions `s` into FEFO order. */
  function Sort(bs: seq<Batch>, s: seq<nat>, nulls: NullPlacement): (r: seq<nat>)
    requires Indices(bs, s)
    ensures |r| == |s| && Indices(bs, r)
    ensures forall x :: x in r <==> x in s
    ensures Distinct(s) ==> Distinct(r)
  {
    if s == [] then []
    else
      assert s == [s[0]] + s[1..];
      Insert(bs, s[0], Sort(bs, s[1..], nulls), nulls)
  }

  /**
   * The batches `registrar_salida` walks: the positions of the product's
   * batches with stock, each once, in `(expiration_date, id)` order.
   */
  function FefoOrder(bs: seq<Batch>, p: Product, nulls: NullPlacement): (r: seq<nat>)
    ensures Indices(bs, r) && Distinct(r)
    ensures forall k :: 0 <= k < |r| ==> IsCandidate(bs[r[k]], p)
    ensures forall i :: 0 <= i < |bs| ==> (i in r <==> IsCandidate(bs[i], p))
  {
    var c := Candidates(bs, p);
    assert Distinct(c);
    var r := Sort(bs, c, nulls);
    assert forall i :: 0 <= i < |bs| ==> (i in c <==> IsCandidate(bs[i], p));
    r
  }

  /** Every position of `s` comes before every later position in FEFO order. */
  ghost predicate Sorted(bs: seq<Batch>, s: seq<nat>, nulls: NullPlacement)
    requires Indices(bs, s)
  {
    forall j, k :: 0 <= j < k < |s| ==> Precedes(bs[s[j]], bs[s[k]], nulls)
  }

  lemma {:induction false} InsertSorted(bs: seq<Batch>, i: nat, s: seq<nat>, nulls: NullPlacement)
    requires IdsIncreasing(bs) && i < |bs| && Indices(bs, s)
    requires Sorted(bs, s, nulls) && i !in s
    ensures Sorted(bs, Insert(bs, i, s, nulls), nulls)
  {
    if s != [] {
      var r := Insert(bs, i, s, nulls);
      if Precedes(bs[i], bs[s[0]], nulls) {
        forall k | 0 < k < |s| ensures Precedes(bs[i], bs[s[k]], nulls) {
          PrecedesStrictTotal(bs[i], bs[s[0]], bs[s[k]], nulls);
        }
      } else {
        assert bs[i].id != bs[s[0]].id by {
          assert i != s[0];
        }
        PrecedesStrictTotal(bs[i], bs[s[0]], bs[i], nulls);
        SortedTail(bs, s, nulls);
        InsertSorted(bs, i, s[1..], nulls);
        var t := Insert(bs, i, s[1..], nulls);
        assert r == [s[0]] + t;
        forall k | 0 <= k < |t| ensures Precedes(bs[s[0]], bs[t[k]], nulls) {
          assert t[k] in t;
          if t[k] != i {
            var m :| 0 <= m < |s[1..]| && s[1..][m] == t[k];
            assert s[m + 1] == t[k];
          }
        }
        SortedCons(bs, s[0], t, nulls);
      }
    }
  }

  /** The tail of a sorted sequence is sorted. */
  lemma SortedTail(bs: seq<Batch>, s: seq<nat>, nulls: NullPlacement)
    requires Indices(bs, s) && s != [] && Sorted(bs, s, nulls)
    ensures Indices(bs, s[1..]) && Sorted(bs, s[1..], nulls)
  {
    forall j, k | 0 <= j < k < |s[1..]| ensures Precedes(bs[s[1..][j]], bs[s[1..][k]], nulls) {
      assert s[1..][j] == s[j + 1] && s[1..][k] == s[k + 1];
    }
  }

  /** A position that precedes every position of a sorted sequence can head it. */
  lemma SortedCons(bs: seq<Batch>, x: nat, t: seq<nat>, nulls: NullPlacement)
    requires x < |bs| && Indices(bs, t) && Sorted(bs, t, nulls)
    requires forall k :: 0 <= k < |t| ==> Precedes(bs[x], bs[t[k]], nulls)
    ensures Indices(bs, [x] + t) && Sorted(bs, [x] + t, nulls)
  {
    var r := [x] + t;
    forall j, k | 0 <= j < k < |r| ensures Precedes(bs[r[j]], bs[r[k]], nulls) {
      assert r[k] == t[k - 1];
      if j > 0 {
        assert r[j] == t[j - 1];
      }
    }
  }

  lemma {:induction false} SortSorted(bs: seq<Batch>, s: seq<nat>, nulls: NullPlacement)
    requires IdsIncreasing(bs) && Indices(bs, s) && Distinct(s)
    ensures Sorted(bs, Sort(bs, s, nulls), nulls)
  {
    if s != [] {
      SortSorted(bs, s[1..], nulls);
      assert s[0] !in s[1..];
      InsertSorted(bs, s[0], Sort(bs, s[1..], nulls), nulls);
    }
  }

  /** The exit query's order is FEFO order: earliest expiration first, ties by creation. */
  lemma FefoOrderSorted(bs: seq<Batch>, p: Product, nulls: NullPlacement)
    requires IdsIncreasing(bs)
    ensures Sorted(bs, FefoOrder(bs, p, nulls), nulls)
  {
    SortSorted(bs, Candidates(bs, p), nulls);
  }

  /** Any two sequences of the same positions, both in strict FEFO order, are equal: the order is unique. */
  lemma {:induction false} SortedUnique(bs: seq<Batch>, s: seq<nat>, t: seq<nat>, nulls: NullPlacement)
    requires Indices(bs, s) && Indices(bs, t) && Sorted(bs, s, nulls) && Sorted(bs, t, nulls)
    requires forall x :: x in s <==> x in t
    requires Distinct(s) && Distinct(t)
    ensures s == t
    decreases |s| + |t|
  {
    assert s != [] ==> s[0] in t;
    assert t != [] ==> t[0] in s;
    if s != [] && t != [] {
      if s[0] != t[0] {
        assert s[0] in s && t[0] in t;
        var m :| 0 <= m < |t| && t[m] == s[0];
        var n :| 0 <= n < |s| && s[n] == t[0];
        PrecedesStrictTotal(bs[t[0]], bs[s[0]], bs[t[0]], nulls);
        assert false;
      }
      DistinctTail(s);
      DistinctTail(t);
      SortedUnique(bs, s[1..], t[1..], nulls);
      assert s == [s[0]] + s[1..] && t == [t[0]] + t[1..];
    }
  }

  /** Without its head, a sequence of distinct positions holds all the others. */
  lemma DistinctTail(s: seq<nat>)
    requires Distinct(s) && s != []
    ensures Distinct(s[1..])
    ensures forall x :: x in s[1..] <==> x in s && x != s[0]
  {
    forall x | x in s && x != s[0] ensures x in s[1..] {
      var j :| 0 <= j < |s| && s[j] == x;
      assert s[1..][j - 1] == x;
    }
  }

  /** The available quantity summed over the positions `s`. */
  function SumAvailable(bs: seq<Batch>, s: seq<nat>): int
    requires Indices(bs, s)
  {
    if s == [] then 0 else bs[s[0]].available + SumAvailable(bs, s[1..])
  }

  lemma {:induction false} SumAvailableInsert(bs: seq<Batch>, i: nat, s: seq<nat>, nulls: NullPlacement)
    requires i < |bs| && Indices(bs, s)
    ensures SumAvailable(bs, Insert(bs, i, s, nulls)) == bs[i].available + SumAvailable(bs, s)
  {
    if s != [] && !Precedes(bs[i], bs[s[0]], nulls) {
      SumAvailableInsert(bs, i, s[1..], nulls);
    }
  }

  lemma {:induction false} SumAvailableSort(bs: seq<Batch>, s: seq<nat>, nulls: NullPlacement)
    requires Indices(bs, s)
    ensures SumAvailable(bs, Sort(bs, s, nulls)) == SumAvailable(bs, s)
  {
    if s != [] {
      SumAvailableSort(bs, s[1..], nulls);
      SumAvailableInsert(bs, s[0], Sort(bs, s[1..], nulls), nulls);
    }
  }

  lemma {:induction false} SumAvailableAppend(bs: seq<Batch>, s: seq<nat>, i: nat)
    requires Indices(bs, s) && i < |bs|
    ensures SumAvailable(bs, s + [i]) == SumAvailable(bs, s) + bs[i].available
  {
    if s != [] {
      assert (s + [i])[1..] == s[1..] + [i];
      SumAvailableAppend(bs, s[1..], i);
    }
  }

  /** The sum only reads the available quantities at the positions summed. */
  lemma {:induction false} SumAvailableFrame(bs: seq<Batch>, bs': seq<Batch>, s: seq<nat>)
    requires Indices(bs, s) && Indices(bs', s)
    requires forall k :: 0 <= k < |s| ==> bs'[s[k]].available == bs[s[k]].available
    ensures SumAvailable(bs', s) == SumAvailable(bs, s)
  {
    if s != [] {
      SumAvailableFrame(bs, bs', s[1..]);
    }
  }

  lemma {:induction false} SumCandidates(bs: seq<Batch>, p: Product)
    requires forall j :: 0 <= j < |bs| ==> bs[j].available >= 0
    ensures SumAvailable(bs, Candidates(bs, p)) == StockTotal(bs, p)
  {
    if bs != [] {
      var n := |bs| - 1;
      var pre := bs[..n];
      assert forall j :: 0 <= j < n ==> pre[j] == bs[j];
      SumCandidates(pre, p);
      SumCandidatesLast(bs, p);
    }
  }

  /** The step of `SumCandidates`: the last row adds its stock exactly when it is a candidate. */
  lemma SumCandidatesLast(bs: seq<Batch>, p: Product)
    requires bs != [] && forall j :: 0 <= j < |bs| ==> bs[j].available >= 0
    ensures var n := |bs| - 1;
      SumAvailable(bs, Candidates(bs, p)) - StockTotal(bs, p)
      == SumAvailable(bs[..n], Candidates(bs[..n], p)) - StockTotal(bs[..n], p)
  {
    var n := |bs| - 1;
    var pre := bs[..n];
    var c := Candidates(pre, p);
    assert forall k :: 0 <= k < |c| ==> bs[c[k]] == pre[c[k]];
    SumAvailableFrame(pre, bs, c);
    assert StockTotal(bs, p) == StockTotal(pre, p) + (if bs[n].product == p then bs[n].available else 0);
    if IsCandidate(bs[n], p) {
      assert Candidates(bs, p) == c + [n];
      SumAvailableAppend(bs, c, n);
    } else {
      assert Candidates(bs, p) == c;
    }
  }

  /**
   * The total the exit checks (the stock of the batches it may take from)
   * is `stock_total(product)`, since no batch holds negative stock.
   */
  lemma FefoTotalIsStockTotal(bs: seq<Batch>, p: Product, nulls: NullPlacement)
    requires forall j :: 0 <= j < |bs| ==> bs[j].available >= 0
    ensures SumAvailable(bs, FefoOrder(bs, p, nulls)) == StockTotal(bs, p)
  {
    SumAvailableSort(bs, Candidates(bs, p), nulls);
    SumCandidates(bs, p);
  }

  /** Positions the walk may take from: distinct, each with stock left. */
  predicate WalkOrder(bs: seq<Batch>, order: seq<nat>) {
    Indices(bs, order) && Distinct(order) && forall k :: 0 <= k < |order| ==> bs[order[k]].available > 0
  }

  /**
   * The loop of `registrar_salida`: while something remains to take, take
   * `min(remaining, available)` from the next batch in `order` and record
   * one OUT movement of that amount on it. Gives the new batches and the
   * movements recorded, in order: at most one per batch walked.
   */
  function Walk(bs: seq<Batch>, order: seq<nat>, rest: nat, note: Option<string>): (r: (seq<Batch>, seq<Movement>))
    requires WalkOrder(bs, order)
    ensures |r.0| == |bs| && |r.1| <= |order|
    decreases |order|
  {
    if order == [] || rest == 0 then (bs, [])
    else
      var i := order[0];
      var b := bs[i];
      assert forall k :: 0 <= k < |order| - 1 ==> order[1..][k] == order[k + 1] && order[k + 1] != i;
      if b.available >= rest then
        var w := Walk(bs[i := b.(available := b.available - rest)], order[1..], 0, note);
        (w.0, [Movement(b.id, Out, rest, note)] + w.1)
      else
        var w := Walk(bs[i := b.(available := 0)], order[1..], rest - b.available, note);
        (w.0, [Movement(b.id, Out, b.available, note)] + w.1)
  }

  /** The walk changes nothing but available quantities, and only at the positions in `order`. */
  lemma {:induction false} WalkFrame(bs: seq<Batch>, order: seq<nat>, rest: nat, note: Option<string>)
    requires WalkOrder(bs, order)
    ensures SameRows(bs, Walk(bs, order, rest, note).0)
    ensures forall j :: 0 <= j < |bs| && j !in order ==> Walk(bs, order, rest, note).0[j] == bs[j]
    decreases |order|
  {
    if order != [] && rest != 0 {
      var i := order[0];
      var b := bs[i];
      var taken := Min(b.available, rest);
      WalkStep(bs, order, rest, note);
      var bs' := bs[i := b.(available := b.available - taken)];
      WalkFrame(bs', order[1..], rest - taken, note);
      forall j | 0 <= j < |bs| && j !in order
        ensures Walk(bs, order, rest, note).0[j] == bs[j]
      {
        assert j !in order[1..];
      }
    }
  }

  /**
   * The greedy amount the walk takes from the `k`-th batch of `order`: what
   * the earlier batches left of the request, but no more than the batch holds.
   */
  function Taken(bs: seq<Batch>, order: seq<nat>, q: int, k: nat): (t: nat)
    requires WalkOrder(bs, order) && k < |order|
    ensures t <= bs[order[k]].available
  {
    Min(bs[order[k]].available, Max(0, q - SumAvailable(bs, order[..k])))
  }

  /** Prefix sums along a walk order are non-negative and grow with every step. */
  lemma {:induction false} PrefixSum(bs: seq<Batch>, order: seq<nat>, k: nat)
    requires WalkOrder(bs, order) && k < |order|
    ensures SumAvailable(bs, order[..k + 1]) == SumAvailable(bs, order[..k]) + bs[order[k]].available
    ensures SumAvailable(bs, order[..k]) >= 0
  {
    assert order[..k + 1] == order[..k] + [order[k]];
    SumAvailableAppend(bs, order[..k], order[k]);
    if k > 0 {
      PrefixSum(bs, order, k - 1);
    }
  }

  /** After dropping the first batch, prefix sums shift by its available quantity. */
  lemma PrefixShift(bs: seq<Batch>, bs': seq<Batch>, order: seq<nat>, k: nat)
    requires WalkOrder(bs, order) && 0 < k <= |order| && |bs'| == |bs|
    requires forall j :: 1 <= j < |order| ==> bs'[order[j]] == bs[order[j]]
    ensures Indices(bs', order[1..][..k - 1])
    ensures SumAvailable(bs', order[1..][..k - 1]) == SumAvailable(bs, order[..k]) - bs[order[0]].available
  {
    var s := order[1..][..k - 1];
    assert order[..k] == [order[0]] + s;
    assert order[..k][1..] == s;
    SumAvailableFrame(bs, bs', s);
  }

  /**
   * After the first step of the walk, the greedy amounts of the remaining
   * batches, and whether the walk reaches them, are what they were.
   */
  lemma TakenShift(bs: seq<Batch>, order: seq<nat>, rest: nat, k: nat)
    requires WalkOrder(bs, order) && 0 < k < |order| && rest > 0
    ensures var b := bs[order[0]];
      var taken := Min(b.available, rest);
      var bs' := bs[order[0] := b.(available := b.available - taken)];
      && WalkOrder(bs', order[1..])
      && order[1..][k - 1] == order[k] && bs'[order[k]] == bs[order[k]]
      && Taken(bs', order[1..], rest - taken, k - 1) == Taken(bs, order, rest, k)
      && (SumAvailable(bs', order[1..][..k - 1]) < rest - taken <==> SumAvailable(bs, order[..k]) < rest)
  {
    var b := bs[order[0]];
    var taken := Min(b.available, rest);
    var bs' := bs[order[0] := b.(available := b.available - taken)];
    assert forall j :: 0 <= j < |order| - 1 ==> order[1..][j] == order[j + 1] && order[j + 1] != order[0];
    PrefixShift(bs, bs', order, k);
    if b.available >= rest {
      PrefixSum(bs, order, 0);
      PrefixMonotone(bs, order, 1, k);
    }
  }

  /** The first batch of the walk loses `min(available, rest)`. */
  lemma WalkGreedyFirst(bs: seq<Batch>, order: seq<nat>, rest: nat, note: Option<string>)
    requires WalkOrder(bs, order) && order != []
    ensures Walk(bs, order, rest, note).0[order[0]].available == bs[order[0]].available - Taken(bs, order, rest, 0)
  {
    assert order[..0] == [];
    if rest != 0 {
      var i := order[0];
      var b := bs[i];
      WalkStep(bs, order, rest, note);
      var bs' := bs[i := b.(available := b.available - Min(b.available, rest))];
      WalkFrame(bs', order[1..], rest - Min(b.available, rest), note);
      assert forall j :: 0 <= j < |order| - 1 ==> order[1..][j] == order[j + 1] && order[j + 1] != i;
      assert i !in order[1..];
    }
  }

  /**
   * Greedy allocation: every batch in `order` loses exactly what the greedy
   * rule assigns it, so fully used batches drop to 0, the last batch touched
   * drops by the remainder, and later batches keep their stock.
   */
  lemma {:induction false} WalkGreedy(bs: seq<Batch>, order: seq<nat>, rest: nat, note: Option<string>, k: nat)
    requires WalkOrder(bs, order) && k < |order|
    ensures Walk(bs, order, rest, note).0[order[k]].available == bs[order[k]].available - Taken(bs, order, rest, k)
    decreases |order|
  {
    if k == 0 {
      WalkGreedyFirst(bs, order, rest, note);
    } else if rest == 0 {
      PrefixSum(bs, order, k);
    } else {
      var i := order[0];
      var b := bs[i];
      var taken := Min(b.available, rest);
      WalkStep(bs, order, rest, note);
      TakenShift(bs, order, rest, k);
      WalkGreedy(bs[i := b.(available := b.available - taken)], order[1..], rest - taken, note, k - 1);
    }
  }

  /** Prefix sums along a walk order never decrease. */
  lemma {:induction false} PrefixMonotone(bs: seq<Batch>, order: seq<nat>, j: nat, k: nat)
    requires WalkOrder(bs, order) && j <= k <= |order|
    ensures SumAvailable(bs, order[..j]) <= SumAvailable(bs, order[..k])
    decreases k - j
  {
    if j < k {
      PrefixSum(bs, order, j);
      PrefixMonotone(bs, order, j + 1, k);
    }
  }

  lemma SumAvailableNonNegative(bs: seq<Batch>, order: seq<nat>)
    requires WalkOrder(bs, order)
    ensures SumAvailable(bs, order) >= 0
  {
    if order != [] {
      PrefixSum(bs, order, |order| - 1);
      assert order[..|order|] == order;
    }
  }

  /** A walk with something to take records its first movement on the first batch. */
  lemma WalkOutFirst(bs: seq<Batch>, order: seq<nat>, rest: nat, note: Option<string>)
    requires WalkOrder(bs, order) && order != [] && rest > 0
    ensures var ms := Walk(bs, order, rest, note).1;
      && |ms| <= |order| && 0 < |ms|
      && ms[0] == Movement(bs[order[0]].id, Out, Taken(bs, order, rest, 0), note) && ms[0].quantity > 0
    decreases |order|, 0
  {
    assert order[..0] == [];
    var i := order[0];
    var b := bs[i];
    var taken := Min(b.available, rest);
    WalkStep(bs, order, rest, note);
    if |order| > 1 {
      WalkOutAt(bs[i := b.(available := b.available - taken)], order[1..], rest - taken, note, 0);
    }
  }

  /**
   * The `k`-th OUT movement of the walk: the walk touches the `k`-th batch
   * exactly when the batches before it did not cover the request, and then
   * records on it the greedy amount taken, which is positive.
   */
  lemma {:induction false} WalkOutAt(bs: seq<Batch>, order: seq<nat>, rest: nat, note: Option<string>, k: nat)
    requires WalkOrder(bs, order) && k < |order|
    ensures var ms := Walk(bs, order, rest, note).1;
      && |ms| <= |order|
      && (k < |ms| <==> SumAvailable(bs, order[..k]) < rest)
      && (k < |ms| ==> ms[k] == Movement(bs[order[k]].id, Out, Taken(bs, order, rest, k), note) && ms[k].quantity > 0)
    decreases |order|, 1
  {
    if rest == 0 {
      PrefixSum(bs, order, k);
    } else {
      var i := order[0];
      var b := bs[i];
      var taken := Min(b.available, rest);
      WalkStep(bs, order, rest, note);
      var bs' := bs[i := b.(available := b.available - taken)];
      if k == 0 {
        WalkOutFirst(bs, order, rest, note);
      } else {
        TakenShift(bs, order, rest, k);
        WalkOutAt(bs', order[1..], rest - taken, note, k - 1);
      }
    }
  }

  /** All OUT movements of the walk, as `WalkOutAt` describes each. */
  lemma WalkOuts(bs: seq<Batch>, order: seq<nat>, rest: nat, note: Option<string>)
    requires WalkOrder(bs, order)
    ensures var ms := Walk(bs, order, rest, note).1;
      && |ms| <= |order|
      && (forall k :: 0 <= k < |order| ==> (k < |ms| <==> SumAvailable(bs, order[..k]) < rest))
      && (forall k :: 0 <= k < |ms| ==>
            ms[k] == Movement(bs[order[k]].id, Out, Taken(bs, order, rest, k), note) && ms[k].quantity > 0)
  {
    var ms := Walk(bs, order, rest, note).1;
    if order == [] {
      assert ms == [];
    }
    forall k | 0 <= k < |order|
      ensures |ms| <= |order|
      ensures k < |ms| <==> SumAvailable(bs, order[..k]) < rest
      ensures k < |ms| ==> ms[k] == Movement(bs[order[k]].id, Out, Taken(bs, order, rest, k), note) && ms[k].quantity > 0
    {
      WalkOutAt(bs, order, rest, note, k);
    }
  }

  /** The walk takes the whole request when the batches hold enough, and all they hold otherwise. */
  lemma {:induction false} WalkSum(bs: seq<Batch>, order: seq<nat>, rest: nat, note: Option<string>)
    requires WalkOrder(bs, order)
    ensures Quantities(Walk(bs, order, rest, note).1) == Min(rest, SumAvailable(bs, order))
    decreases |order|
  {
    SumAvailableNonNegative(bs, order);
    if order != [] && rest != 0 {
      var i := order[0];
      var b := bs[i];
      assert forall j :: 0 <= j < |order| - 1 ==> order[1..][j] == order[j + 1] && order[j + 1] != i;
      var bs' := if b.available >= rest then bs[i := b.(available := b.available - rest)]
                 else bs[i := b.(available := 0)];
      var rest' := if b.available >= rest then 0 else rest - b.available;
      var m := Movement(b.id, Out, rest - rest', note);
      var ms' := Walk(bs', order[1..], rest', note).1;
      assert Walk(bs, order, rest, note).1 == [m] + ms';
      assert ([m] + ms')[1..] == ms';
      WalkSum(bs', order[1..], rest', note);
      SumAvailableFrame(bs, bs', order[1..]);
      SumAvailableNonNegative(bs, order[1..]);
    }
  }

  /** Taking from batches of product `p` lowers its stock total by exactly what the OUT movements record. */
  lemma {:induction false} WalkTotal(bs: seq<Batch>, order: seq<nat>, rest: nat, note: Option<string>, p: Product)
    requires WalkOrder(bs, order)
    requires forall k :: 0 <= k < |order| ==> bs[order[k]].product == p
    ensures StockTotal(Walk(bs, order, rest, note).0, p) == StockTotal(bs, p) - Quantities(Walk(bs, order, rest, note).1)
    decreases |order|
  {
    if order != [] && rest != 0 {
      var i := order[0];
      var b := bs[i];
      assert forall j :: 0 <= j < |order| - 1 ==> order[1..][j] == order[j + 1] && order[j + 1] != i;
      var a := if b.available >= rest then b.available - rest else 0;
      var bs' := bs[i := b.(available := a)];
      var rest' := if b.available >= rest then 0 else rest - b.available;
      var m := Movement(b.id, Out, rest - rest', note);
      var ms' := Walk(bs', order[1..], rest', note).1;
      assert Walk(bs, order, rest, note) == (Walk(bs', order[1..], rest', note).0, [m] + ms');
      assert ([m] + ms')[1..] == ms';
      StockTotalUpdate(bs, i, a, p);
      WalkTotal(bs', order[1..], rest', note, p);
    }
  }

  /**
   * An exit the batches can cover: the OUT movements sum to the request,
   * the product's stock total drops by exactly that much, no batch goes
   * negative, and batches of other products do not change.
   */
  lemma ExitAccounting(bs: seq<Batch>, p: Product, nulls: NullPlacement, q: nat, note: Option<string>)
    requires forall j :: 0 <= j < |bs| ==> bs[j].available >= 0
    requires SumAvailable(bs, FefoOrder(bs, p, nulls)) >= q
    ensures var w := Walk(bs, FefoOrder(bs, p, nulls), q, note);
      && Quantities(w.1) == q
      && StockTotal(w.0, p) == StockTotal(bs, p) - q
      && (forall j :: 0 <= j < |bs| ==> w.0[j].available >= 0)
      && (forall j :: 0 <= j < |bs| && bs[j].product != p ==> w.0[j] == bs[j])
  {
    var order := FefoOrder(bs, p, nulls);
    var w := Walk(bs, order, q, note);
    WalkSum(bs, order, q, note);
    WalkTotal(bs, order, q, note, p);
    WalkFrame(bs, order, q, note);
    forall j | 0 <= j < |bs| ensures w.0[j].available >= 0 {
      if j in order {
        var k :| 0 <= k < |order| && order[k] == j;
        WalkGreedy(bs, order, q, note, k);
      }
    }
  }

  /** An exit the batches cannot cover is refused exactly when the product's stock total is short. */
  lemma ExitRefusal(bs: seq<Batch>, p: Product, nulls: NullPlacement, q: nat)
    requires forall j :: 0 <= j < |bs| ==> bs[j].available >= 0
    ensures SumAvailable(bs, FefoOrder(bs, p, nulls)) < q <==> StockTotal(bs, p) < q
  {
    FefoTotalIsStockTotal(bs, p, nulls);
  }

  /** One step of the walk: take `min(available, rest)` from the first batch, then walk the others. */
  lemma WalkStep(bs: seq<Batch>, order: seq<nat>, rest: nat, note: Option<string>)
    requires WalkOrder(bs, order) && order != [] && rest > 0
    ensures var b := bs[order[0]];
      var taken := Min(b.available, rest);
      var bs' := bs[order[0] := b.(available := b.available - taken)];
      && WalkOrder(bs', order[1..])
      && Walk(bs, order, rest, note)
         == (Walk(bs', order[1..], rest - taken, note).0,
             [Movement(b.id, Out, taken, note)] + Walk(bs', order[1..], rest - taken, note).1)
  {
    assert forall j :: 0 <= j < |order| - 1 ==> order[1..][j] == order[j + 1] && order[j + 1] != order[0];
  }

  /** Two batches of product `p`: the first holds 5 and expires first, the second holds 10. */
  predicate FiveThenTen(bs: seq<Batch>, p: Product) {
    && |bs| == 2 && bs[0].product == p && bs[1].product == p && bs[0].id < bs[1].id
    && bs[0].available == 5 && bs[1].available == 10
    && bs[0].expiration.Some? && bs[1].expiration.Some? && bs[0].expiration.value < bs[1].expiration.value
  }

  /** The exit query lists the batch expiring first, then the other. */
  lemma FiveThenTenOrder(bs: seq<Batch>, p: Product, nulls: NullPlacement)
    requires FiveThenTen(bs, p)
    ensures FefoOrder(bs, p, nulls) == [0, 1]
  {
    var r := FefoOrder(bs, p, nulls);
    assert IdsIncreasing(bs);
    FefoOrderSorted(bs, p, nulls);
    assert Sorted(bs, [0, 1], nulls);
    assert forall x :: x in r <==> x in [0, 1];
    SortedUnique(bs, r, [0, 1], nulls);
  }

  /** Walking the two batches of `FiveThenTen` in order for 8 takes 5 from the first and 3 from the second. */
  lemma WalkFiveThenTen(bs: seq<Batch>, p: Product, note: Option<string>)
    requires FiveThenTen(bs, p)
    ensures WalkOrder(bs, [0, 1])
    ensures Walk(bs, [0, 1], 8, note)
         == ([bs[0].(available := 0), bs[1].(available := 7)],
             [Movement(bs[0].id, Out, 5, note), Movement(bs[1].id, Out, 3, note)])
  {
    var bs' := bs[0 := bs[0].(available := 0)];
    var bs'' := bs'[1 := bs'[1].(available := 7)];
    WalkStep(bs, [0, 1], 8, note);
    assert bs[0 := bs[0].(available := bs[0].available - Min(bs[0].available, 8))] == bs';
    assert [0, 1][1..] == [1] && bs'[1] == bs[1];
    WalkStep(bs', [1], 3, note);
    assert bs'[1 := bs'[1].(available := bs'[1].available - Min(bs'[1].available, 3))] == bs'';
    assert [1][1..] == [];
    assert Walk(bs'', [], 0, note) == (bs'', []);
    var m0, m1 := Movement(bs[0].id, Out, 5, note), Movement(bs[1].id, Out, 3, note);
    assert Walk(bs', [1], 3, note) == (bs'', [m1] + []);
    assert Walk(bs, [0, 1], 8, note) == (bs'', [m0] + ([m1] + []));
    assert [m0] + ([m1] + []) == [m0, m1];
    assert bs'' == [bs[0].(available := 0), bs[1].(available := 7)];
  }

  /**
   * An exit of 8 against `FiveThenTen` empties the first batch and takes
   * the other 3 from the second, recording two OUT movements, of 5 and of 3.
   */
  lemma ExitOfEight(bs: seq<Batch>, p: Product, note: Option<string>, nulls: NullPlacement)
    requires FiveThenTen(bs, p)
    ensures var w := Walk(bs, FefoOrder(bs, p, nulls), 8, note);
      && w.0 == [bs[0].(available := 0), bs[1].(available := 7)]
      && w.1 == [Movement(bs[0].id, Out, 5, note), Movement(bs[1].id, Out, 3, note)]
  {
    FiveThenTenOrder(bs, p, nulls);
    WalkFiveThenTen(bs, p, note);
  }
}
