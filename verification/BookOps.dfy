/**
 The book interface as a value: what a sequence of calls makes of an empty
 two-sided book. All four book classes are proved to show exactly `Replay` of
 the calls they received.
 */
module BookOps {
  import opened Arith
  import opened Core
  import opened Ladder

  /** `Dec` is a partial cancel, `Drop` the departure of an order with all it has left. */
  datatype BookOp =
    | Add(side: Side, price: u32, qty: u32)
    | Dec(side: Side, price: u32, qty: u32)
    | Drop(side: Side, price: u32, qty: u32)

  datatype Sides = Sides(bids: seq<Level>, asks: seq<Level>) {
    function On(side: Side): seq<Level> {
      if side == Bid then bids else asks
    }

    function With(side: Side, s: seq<Level>): Sides {
      if side == Bid then Sides(s, asks) else Sides(bids, s)
    }

    predicate Ordered() {
      Sorted(Bid, bids) && Sorted(Ask, asks)
    }
  }

  function Apply(b: Sides, op: BookOp): Sides {
    var s := b.On(op.side);
    match op
    case Add(side, p, q) => b.With(side, AddTo(side, s, p, q))
    case Dec(side, p, q) => b.With(side, DecFrom(s, p, q))
    case Drop(side, p, q) => b.With(side, DropFrom(s, p, q))
  }

  function Replay(ops: seq<BookOp>): Sides {
    if ops == [] then Sides([], [])
    else Apply(Replay(ops[..|ops| - 1]), ops[|ops| - 1])
  }

  lemma ReplaySnoc(ops: seq<BookOp>, op: BookOp)
    ensures Replay(ops + [op]) == Apply(Replay(ops), op)
  {
    assert (ops + [op])[..|ops|] == ops;
  }

  lemma ApplyOrdered(b: Sides, op: BookOp)
    requires b.Ordered()
    ensures Apply(b, op).Ordered()
  {
    match op
    case Add(side, p, q) => AddContent(side, b.On(side), p, q);
    case Dec(side, p, q) => DecContent(side, b.On(side), p, q);
    case Drop(side, p, q) => DropContent(side, b.On(side), p, q);
  }

  /** After any calls whatever, both sides are strictly sorted. */
  lemma {:induction false} ReplayOrdered(ops: seq<BookOp>)
    ensures Replay(ops).Ordered()
  {
    if ops != [] {
      ReplayOrdered(ops[..|ops| - 1]);
      ApplyOrdered(Replay(ops[..|ops| - 1]), ops[|ops| - 1]);
    }
  }

  /** That is: bids descend, asks ascend. */
  lemma BidsDescendAsksAscend(ops: seq<BookOp>)
    ensures forall i, j :: 0 <= i < j < |Replay(ops).bids| ==> Replay(ops).bids[i].price > Replay(ops).bids[j].price
    ensures forall i, j :: 0 <= i < j < |Replay(ops).asks| ==> Replay(ops).asks[i].price < Replay(ops).asks[j].price
  {
    ReplayOrdered(ops);
    SortedDescends(Bid, Replay(ops).bids);
    SortedDescends(Ask, Replay(ops).asks);
  }

  // ---- Depth ----

  /** The largest number of levels a side ever had at once. */
  function Peak(ops: seq<BookOp>, side: Side): nat {
    if ops == [] then 0
    else Max(Peak(ops[..|ops| - 1], side), |Replay(ops).On(side)|)
  }

  lemma PeakSnoc(ops: seq<BookOp>, op: BookOp, side: Side)
    ensures Peak(ops + [op], side) == Max(Peak(ops, side), |Apply(Replay(ops), op).On(side)|)
  {
    assert (ops + [op])[..|ops|] == ops;
  }

  lemma ReplayDepth(ops: seq<BookOp>, side: Side)
    ensures |Replay(ops).On(side)| <= Peak(ops, side)
  {
  }

  /** `Peak` bounds the depth at every moment of the run ... */
  lemma {:induction false} PeakBounds(ops: seq<BookOp>, side: Side, n: nat)
    requires n <= |ops|
    ensures |Replay(ops[..n]).On(side)| <= Peak(ops, side)
  {
    if n == |ops| {
      assert ops[..n] == ops;
    } else {
      PeakBounds(ops[..|ops| - 1], side, n);
      assert ops[..|ops| - 1][..n] == ops[..n];
    }
  }

  /** ... and is the depth at one of them. */
  lemma {:induction false} PeakAttained(ops: seq<BookOp>, side: Side) returns (n: nat)
    ensures n <= |ops| && |Replay(ops[..n]).On(side)| == Peak(ops, side)
  {
    assert ops[..|ops|] == ops;
    if ops == [] || Peak(ops, side) == |Replay(ops).On(side)| {
      n := |ops|;
    } else {
      n := PeakAttained(ops[..|ops| - 1], side);
      assert ops[..|ops| - 1][..n] == ops[..n];
    }
  }

  // ---- Arrival order ----

  /** Two arriving orders can be exchanged. */
  lemma ArrivalsCommute(b: Sides, x: BookOp, y: BookOp)
    requires b.Ordered() && x.Add? && y.Add?
    ensures Apply(Apply(b, x), y) == Apply(Apply(b, y), x)
  {
    if x.side == y.side {
      AddsCommute(x.side, b.On(x.side), x.price, x.qty, y.price, y.qty);
    }
  }

  /** An arrival can be moved behind all the arrivals that follow it. */
  lemma {:induction false} MoveLast(front: seq<BookOp>, x: BookOp, back: seq<BookOp>)
    requires x.Add? && forall op :: op in back ==> op.Add?
    ensures Replay(front + [x] + back) == Replay(front + back + [x])
  {
    hide Replay, Apply, Sides.Ordered;
    if back == [] {
      assert front + [x] + back == front + back + [x];
    } else {
      var init, y := back[..|back| - 1], back[|back| - 1];
      assert back == init + [y];
      MoveLast(front, x, init);
      ReplayOrdered(front + init);
      ReplaySnoc(front + [x] + init, y);
      ReplaySnoc(front + init, x);
      ReplaySnoc(front + init, y);
      ReplaySnoc(front + init + [y], x);
      ArrivalsCommute(Replay(front + init), x, y);
      assert front + [x] + back == front + [x] + init + [y];
      assert front + back + [x] == front + init + [y] + [x];
    }
  }

  /** The last call of `a` has its place in any rearrangement `b`; without it the two are still rearrangements. */
  lemma LastHasPlace(a: seq<BookOp>, b: seq<BookOp>) returns (k: nat)
    requires a != [] && multiset(a) == multiset(b)
    ensures k < |b| && b[k] == a[|a| - 1]
    ensures multiset(a[..|a| - 1]) == multiset(b[..k] + b[k + 1..])
  {
    var x, init := a[|a| - 1], a[..|a| - 1];
    assert x in multiset(b);
    k :| 0 <= k < |b| && b[k] == x;
    var front, back := b[..k], b[k + 1..];
    assert a == init + [x];
    assert b == front + ([x] + back);
    assert multiset(b) == multiset(front) + multiset([x] + back) == multiset(front) + (multiset{x} + multiset(back));
    assert multiset(a) == multiset(init) + multiset{x};
    assert multiset(init) == multiset(a) - multiset{x};
    assert multiset(front) + multiset(back) == multiset(b) - multiset{x};
  }

  /** Arrival-order independence: the same orders, added in any two orders, leave identical books. */
  lemma {:induction false} ArrivalOrder(a: seq<BookOp>, b: seq<BookOp>)
    requires multiset(a) == multiset(b)
    requires forall op :: op in multiset(a) ==> op.Add?
    ensures Replay(a) == Replay(b)
  {
    if a == [] {
      assert |multiset(b)| == 0;
    } else {
      var k := LastHasPlace(a, b);
      var init, x, front, back := a[..|a| - 1], a[|a| - 1], b[..k], b[k + 1..];
      assert a == init + [x];
      assert b == front + [x] + back;
      ArrivalOrder(init, front + back);
      assert forall op :: op in back ==> op in multiset(b);
      MoveLast(front, x, back);
      ReplaySnoc(init, x);
      ReplaySnoc(front + back, x);
    }
  }
}
