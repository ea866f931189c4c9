/** `map_book` (src/itch/map_book.cpp): ordered maps of levels. */
module MapBooks {
  import opened Arith
  import opened Core
  import opened Ladder
  import opened BookOps
  import opened MemoryPools
  import opened LevelMaps

  // ---- Iteration order ----

  lemma FirstExists(side: Side, m: set<u32>) returns (p: u32)
    requires m != {}
    ensures First(side, m, p)
    decreases |m|
  {
    p :| p in m;
    if m != {p} {
      var q := FirstExists(side, m - {p});
      assert forall r :: r in m && r != p ==> r in m - {p};
      if Better(side, q, p) {
        p := q;
      }
    }
  }

  lemma HasFirst(side: Side, m: set<u32>)
    requires m != {}
    ensures exists p :: First(side, m, p)
  {
    var p := FirstExists(side, m);
  }

  /** The levels of a map in the order its iterator meets them. */
  ghost function InOrder(side: Side, m: map<u32, u32>): (s: seq<Level>)
    ensures Sorted(side, s) && Content(s) == m
    decreases |m|
  {
    if m == map[] then []
    else
      assert m.Keys != {};
      HasFirst(side, m.Keys);
      var p :| First(side, m.Keys, p);
      var rest := InOrder(side, m - {p});
      assert ([Level(p, m[p])] + rest)[1..] == rest;
      assert rest != [] ==> rest[0].price in Content(rest);
      [Level(p, m[p])] + rest
  }

  /** The map is the side's part of the replayed calls, and its pool saw the greatest depth. */
  ghost predicate Mapped(byPrice: LevelMap, ops: seq<BookOp>)
    reads byPrice, byPrice.Repr
  {
    && byPrice.Valid()
    && Quantities(byPrice.levels) == Content(Replay(ops).On(byPrice.side))
    && byPrice.MaxUsed() == Peak(ops, byPrice.side)
  }

  /** Iterating over the map meets exactly the replayed levels, in their order. */
  lemma IterationShowsReplay(byPrice: LevelMap, ops: seq<BookOp>)
    requires Mapped(byPrice, ops)
    ensures InOrder(byPrice.side, Quantities(byPrice.levels)) == Replay(ops).On(byPrice.side)
  {
    ReplayOrdered(ops);
    SortedUnique(byPrice.side, InOrder(byPrice.side, Quantities(byPrice.levels)), Replay(ops).On(byPrice.side));
  }

  /** `add_order` on the map of the order's side. */
  method AddToMap(byPrice: LevelMap, price: u32, qty: u32) returns (level: PriceLevel)
    requires byPrice.Valid()
    modifies byPrice.Repr
    ensures byPrice.Valid() && fresh(byPrice.Repr - old(byPrice.Repr))
    ensures var was := old(Quantities(byPrice.levels));
            Quantities(byPrice.levels) == was[price := Inc32(At(was, price), qty)]
    ensures price in byPrice.levels && byPrice.levels[price] == level
    ensures forall p :: p in old(byPrice.levels) ==> p in byPrice.levels && byPrice.levels[p] == old(byPrice.levels)[p]
    ensures byPrice.MaxUsed() == Max(old(byPrice.MaxUsed()), |byPrice.levels|)
  {
    hide MemoryPool.Valid, LevelMap.Celled;
    byPrice.DepthBound();
    if price !in byPrice.levels {
      level := byPrice.Emplace(price, qty);
    } else {
      level := byPrice.levels[price];
      level.IncQty(qty);
    }
  }

  /** What `delete_order` does to the map of the order's side. */
  method RemoveFromMap(byPrice: LevelMap, level: PriceLevel, price: u32, qty: u32)
    requires byPrice.Valid() && price in byPrice.levels && byPrice.levels[price] == level
    modifies byPrice.Repr
    ensures byPrice.Valid() && byPrice.Repr == old(byPrice.Repr)
    ensures var was := old(Quantities(byPrice.levels));
            Quantities(byPrice.levels) ==
            if qty < was[price] then was[price := was[price] - qty] else was - {price}
    ensures forall p :: p in old(byPrice.levels) ==>
              || (p == price && qty >= old(level.aggQty))
              || (p in byPrice.levels && byPrice.levels[p] == old(byPrice.levels)[p])
    ensures forall p :: p in byPrice.levels ==> p in old(byPrice.levels) && byPrice.levels[p] == old(byPrice.levels)[p]
    ensures byPrice.MaxUsed() == old(byPrice.MaxUsed()) && |byPrice.levels| <= |old(byPrice.levels)|
  {
    hide MemoryPool.Valid, LevelMap.Celled;
    if qty < level.aggQty {
      level.DecQty(qty);
    } else {
      byPrice.Erase(price);
    }
  }

  lemma MappedFacts(byPrice: LevelMap, ops: seq<BookOp>)
    requires Mapped(byPrice, ops)
    ensures byPrice.Valid() && byPrice in byPrice.Repr
    ensures Quantities(byPrice.levels) == Content(Replay(ops).On(byPrice.side))
    ensures |byPrice.levels| <= byPrice.MaxUsed() == Peak(ops, byPrice.side)
    ensures Sorted(byPrice.side, Replay(ops).On(byPrice.side))
  {
    ReplayOrdered(ops);
    byPrice.DepthBound();
  }

  /** A call leaves the other side alone. */
  lemma MappedOther(byPrice: LevelMap, ops: seq<BookOp>, op: BookOp)
    requires Mapped(byPrice, ops) && op.side != byPrice.side
    ensures Mapped(byPrice, ops + [op])
  {
    ReplaySnoc(ops, op);
    PeakSnoc(ops, op, byPrice.side);
    ReplayDepth(ops, byPrice.side);
  }

  /** What a call makes of the quantities by price. */
  ghost function Change(was: map<u32, u32>, op: BookOp): map<u32, u32> {
    match op
    case Add(_, p, q) => was[p := Inc32(At(was, p), q)]
    case Dec(_, p, q) => if p in was then was[p := Dec32(was[p], q)] else was
    case Drop(_, p, q) => if p !in was then was else if q < was[p] then was[p := was[p] - q] else was - {p}
  }

  /** A call on the levels is that change on their quantities. */
  lemma ApplyChanges(b: Sides, op: BookOp)
    requires b.Ordered()
    ensures Content(Apply(b, op).On(op.side)) == Change(Content(b.On(op.side)), op)
  {
    var s := b.On(op.side);
    match op
    case Add(side, p, q) => AddContent(side, s, p, q);
    case Dec(side, p, q) => DecContent(side, s, p, q);
    case Drop(side, p, q) => DropContent(side, s, p, q);
  }

  /** On its own side a call is shown when the map is what the call makes of the content. */
  lemma MappedOwn(byPrice: LevelMap, ops: seq<BookOp>, op: BookOp, was: map<u32, u32>, maxUsed: nat)
    requires byPrice.Valid() && op.side == byPrice.side
    requires was == Content(Replay(ops).On(byPrice.side)) && Quantities(byPrice.levels) == Change(was, op)
    requires maxUsed == Peak(ops, byPrice.side) && byPrice.MaxUsed() == Max(maxUsed, |byPrice.levels|)
    ensures Mapped(byPrice, ops + [op])
  {
    ReplaySnoc(ops, op);
    PeakSnoc(ops, op, byPrice.side);
    ReplayOrdered(ops);
    ReplayOrdered(ops + [op]);
    ApplyChanges(Replay(ops), op);
    ContentSize(byPrice.side, Replay(ops + [op]).On(byPrice.side));
    assert Quantities(byPrice.levels).Keys == byPrice.levels.Keys;
    assert |Quantities(byPrice.levels).Keys| == |Quantities(byPrice.levels)|;
  }

  /** A partial cancel on the map of the order's side. */
  method ShrinkInMap(ghost byPrice: LevelMap, level: PriceLevel, qty: u32)
    requires byPrice.Valid() && level.price in byPrice.levels && byPrice.levels[level.price] == level
    modifies level
    ensures byPrice.Valid() && byPrice.MaxUsed() == old(byPrice.MaxUsed())
    ensures var was := old(Quantities(byPrice.levels));
            Quantities(byPrice.levels) == was[level.price := Dec32(was[level.price], qty)]
  {
    hide MemoryPool.Valid, LevelMap.Celled;
    level.DecQty(qty);
  }

  // ---- The calls on the map of their side ----

  method AddMapped(byPrice: LevelMap, ghost ops: seq<BookOp>, price: u32, qty: u32) returns (level: PriceLevel)
    requires Mapped(byPrice, ops)
    modifies byPrice.Repr
    ensures Mapped(byPrice, ops + [Add(byPrice.side, price, qty)]) && fresh(byPrice.Repr - old(byPrice.Repr))
    ensures byPrice in byPrice.Repr && price in byPrice.levels && byPrice.levels[price] == level
    ensures forall p :: p in old(byPrice.levels) ==>
              p in byPrice.levels && byPrice.levels[p] == old(byPrice.levels)[p]
  {
    hide Quantities, Content, Replay, Peak, LevelMap.Valid, Sorted, Mapped;
    MappedFacts(byPrice, ops);
    ghost var was, max := Quantities(byPrice.levels), byPrice.MaxUsed();
    level := AddToMap(byPrice, price, qty);
    MappedOwn(byPrice, ops, Add(byPrice.side, price, qty), was, max);
  }

  method RemoveMapped(byPrice: LevelMap, ghost ops: seq<BookOp>, level: PriceLevel, price: u32, qty: u32)
    requires Mapped(byPrice, ops) && price in byPrice.levels && byPrice.levels[price] == level
    modifies byPrice.Repr
    ensures Mapped(byPrice, ops + [Drop(byPrice.side, price, qty)]) && byPrice.Repr == old(byPrice.Repr)
    ensures forall p :: p in old(byPrice.levels) ==>
              || (p == price && qty >= old(level.aggQty))
              || (p in byPrice.levels && byPrice.levels[p] == old(byPrice.levels)[p])
  {
    hide Quantities, Content, Replay, Peak, LevelMap.Valid, Sorted, Mapped;
    MappedFacts(byPrice, ops);
    ghost var was, max := Quantities(byPrice.levels), byPrice.MaxUsed();
    byPrice.KeysOfQuantities();
    RemoveFromMap(byPrice, level, price, qty);
    MappedOwn(byPrice, ops, Drop(byPrice.side, price, qty), was, max);
  }

  method ShrinkMapped(ghost byPrice: LevelMap, ghost ops: seq<BookOp>, level: PriceLevel, qty: u32)
    requires Mapped(byPrice, ops) && level.price in byPrice.levels && byPrice.levels[level.price] == level
    modifies level
    ensures Mapped(byPrice, ops + [Dec(byPrice.side, level.price, qty)])
  {
    hide Quantities, Content, Replay, Peak, LevelMap.Valid, Sorted, Mapped;
    MappedFacts(byPrice, ops);
    ghost var was, max := Quantities(byPrice.levels), byPrice.MaxUsed();
    byPrice.KeysOfQuantities();
    ShrinkInMap(byPrice, level, qty);
    MappedOwn(byPrice, ops, Dec(byPrice.side, level.price, qty), was, max);
  }

  class MapBook {
    const bids: LevelMap
    const asks: LevelMap
    // the calls received so far
    ghost var history: seq<BookOp>

    ghost var Repr: set<object>

    ghost predicate Valid()
      reads this, Repr
      ensures Valid() ==> this in Repr && bids in Repr && asks in Repr
    {
      && this in Repr && bids in Repr && asks in Repr && bids.Repr + asks.Repr <= Repr
      && bids in bids.Repr && asks in asks.Repr
      && this !in bids.Repr && this !in asks.Repr && bids.Repr !! asks.Repr
      && Mapped(bids, history) && Mapped(asks, history) && bids.side == Bid && asks.side == Ask
    }

    constructor ()
      ensures Valid() && fresh(Repr) && history == []
      ensures bids.pool.freeList.nodeSize == 48 && bids.pool.first == 2400
      ensures asks.pool.freeList.nodeSize == 48 && asks.pool.first == 2400
    {
      hide LevelMap.Valid;
      bids := new LevelMap(Bid);
      asks := new LevelMap(Ask);
      history := [];
      new;
      Repr := {this} + bids.Repr + asks.Repr;
    }

    /** The map of a side. */
    function On(side: Side): LevelMap {
      if side == Bid then bids else asks
    }

    function Opposite(side: Side): LevelMap {
      if side == Bid then asks else bids
    }

    /** The order rests on a level of its side, at its own price. */
    ghost predicate Rests(order: Order)
      reads bids, asks, order
    {
      order.pl != null && order.price in On(order.side).levels && On(order.side).levels[order.price] == order.pl
    }

    // In the contracts below: what appears is fresh, and the only level object that can disappear is the
    // order's own, when the order has all of its quantity.

    method AddOrder(order: Order)
      requires Valid() && order !in Repr
      modifies Repr, order`pl
      ensures Valid() && Rests(order)
      ensures fresh(Repr - old(Repr))
      ensures history == old(history) + [Add(order.side, order.price, order.qty)]
      ensures forall p :: p in old(bids.levels) ==> p in bids.levels && bids.levels[p] == old(bids.levels)[p]
      ensures forall p :: p in old(asks.levels) ==> p in asks.levels && asks.levels[p] == old(asks.levels)[p]
    {
      hide LevelMap.Valid, Mapped, Quantities, Content, Replay, Peak, Sorted;
      var byPrice := On(order.side);
      ghost var op := Add(order.side, order.price, order.qty);
      MappedFacts(byPrice, history);
      order.pl := AddMapped(byPrice, history, order.price, order.qty);
      assert Opposite(order.side).levels == old(Opposite(order.side).levels);
      MappedOther(Opposite(order.side), history, op);
      history := history + [op];
      Repr := Repr + byPrice.Repr;
      assert Mapped(bids, history) && Mapped(asks, history);
    }

    /** An order that rests nowhere is left alone. */
    method DeleteOrder(order: Order)
      requires Valid() && order !in Repr && (order.pl != null ==> Rests(order))
      modifies Repr, order
      ensures Valid()
      ensures fresh(Repr - old(Repr))
      ensures forall p :: p in old(bids.levels) ==>
                || (p in bids.levels && bids.levels[p] == old(bids.levels)[p])
                || Emptied(old(bids.levels)[p], old(order.pl), old(order.qty), old(bids.levels[p].aggQty))
      ensures forall p :: p in old(asks.levels) ==>
                || (p in asks.levels && asks.levels[p] == old(asks.levels)[p])
                || Emptied(old(asks.levels)[p], old(order.pl), old(order.qty), old(asks.levels[p].aggQty))
      ensures old(order.pl) == null ==> history == old(history) && unchanged(order)
      ensures old(order.pl) != null ==>
                && history == old(history) + [Drop(old(order.side), old(order.price), old(order.qty))]
                && order.Cleared()
    {
      hide Mapped;
      if order.pl == null {
        return;
      }
      RemoveOrder(order);
    }

    /** The branch of `DeleteOrder` for an order that rests. */
    method RemoveOrder(order: Order)
      requires Valid() && order !in Repr && Rests(order)
      modifies Repr, order
      ensures Valid()
      ensures fresh(Repr - old(Repr))
      ensures forall p :: p in old(bids.levels) ==>
                || (p in bids.levels && bids.levels[p] == old(bids.levels)[p])
                || Emptied(old(bids.levels)[p], old(order.pl), old(order.qty), old(bids.levels[p].aggQty))
      ensures forall p :: p in old(asks.levels) ==>
                || (p in asks.levels && asks.levels[p] == old(asks.levels)[p])
                || Emptied(old(asks.levels)[p], old(order.pl), old(order.qty), old(asks.levels[p].aggQty))
      ensures history == old(history) + [Drop(old(order.side), old(order.price), old(order.qty))]
      ensures order.Cleared()
    {
      hide LevelMap.Valid, Mapped, Quantities, Content, Replay, Peak, Sorted;
      var byPrice := On(order.side);
      ghost var op := Drop(order.side, order.price, order.qty);
      MappedFacts(byPrice, history);
      RemoveMapped(byPrice, history, order.pl, order.price, order.qty);
      MappedOther(Opposite(order.side), history, op);
      history := history + [op];
      order.Clear();
      assert Mapped(bids, history) && Mapped(asks, history);
    }

    /** Fewer shares than the order has shrink it and its level; all of them remove it. */
    method CancelOrder(order: Order, removeQty: u32)
      requires Valid() && order !in Repr && (order.pl != null ==> Rests(order))
      requires removeQty < order.qty ==> order.pl != null
      modifies Repr, order
      ensures Valid()
      ensures fresh(Repr - old(Repr))
      ensures forall p :: p in old(bids.levels) ==>
                || (p in bids.levels && bids.levels[p] == old(bids.levels)[p])
                || Emptied(old(bids.levels)[p], old(order.pl), old(order.qty), old(bids.levels[p].aggQty))
      ensures forall p :: p in old(asks.levels) ==>
                || (p in asks.levels && asks.levels[p] == old(asks.levels)[p])
                || Emptied(old(asks.levels)[p], old(order.pl), old(order.qty), old(asks.levels[p].aggQty))
      ensures removeQty < old(order.qty) ==>
                && bids.levels == old(bids.levels) && asks.levels == old(asks.levels)
                && history == old(history) + [Dec(order.side, order.price, removeQty)]
                && order.qty == old(order.qty) - removeQty && order.pl == old(order.pl)
                && order.side == old(order.side) && order.price == old(order.price)
                && Rests(order)
      ensures removeQty >= old(order.qty) && old(order.pl) == null ==> history == old(history) && unchanged(order)
      ensures removeQty >= old(order.qty) && old(order.pl) != null ==>
                && history == old(history) + [Drop(old(order.side), old(order.price), old(order.qty))]
                && order.Cleared()
    {
      hide Mapped;
      if removeQty < order.qty {
        ShrinkOrder(order, removeQty);
      } else {
        DeleteOrder(order);
      }
    }

    /** The partial branch of `CancelOrder`. */
    method ShrinkOrder(order: Order, removeQty: u32)
      requires Valid() && order !in Repr && Rests(order) && removeQty < order.qty
      modifies Repr, order`qty
      ensures Valid() && Rests(order)
      ensures fresh(Repr - old(Repr))
      ensures bids.levels == old(bids.levels)
      ensures asks.levels == old(asks.levels)
      ensures history == old(history) + [Dec(order.side, order.price, removeQty)]
      ensures order.qty == old(order.qty) - removeQty
    {
      hide LevelMap.Valid, Mapped, Quantities, Content, Replay, Peak, Sorted;
      ghost var byPrice := On(order.side);
      ghost var op := Dec(order.side, order.price, removeQty);
      MappedFacts(byPrice, history);
      order.qty := order.qty - removeQty;
      ShrinkMapped(byPrice, history, order.pl, removeQty);
      MappedOther(Opposite(order.side), history, op);
      history := history + [op];
      assert Mapped(bids, history) && Mapped(asks, history);
    }

    /** The old order's departure and the new one's arrival; when the old one rests nowhere, the arrival alone. */
    method ReplaceOrder(oldOrder: Order, newOrder: Order)
      requires Valid() && oldOrder !in Repr && newOrder !in Repr
      requires newOrder.pl == null && (oldOrder.pl != null ==> Rests(oldOrder))
      modifies Repr, oldOrder, newOrder`pl
      ensures Valid()
      ensures fresh(Repr - old(Repr))
      ensures forall p :: p in old(bids.levels) ==>
                || (p in bids.levels && bids.levels[p] == old(bids.levels)[p])
                || Emptied(old(bids.levels)[p], old(oldOrder.pl), old(oldOrder.qty), old(bids.levels[p].aggQty))
      ensures forall p :: p in old(asks.levels) ==>
                || (p in asks.levels && asks.levels[p] == old(asks.levels)[p])
                || Emptied(old(asks.levels)[p], old(oldOrder.pl), old(oldOrder.qty), old(asks.levels[p].aggQty))
      ensures old(oldOrder.pl) == null ==>
                history == old(history) + [Add(newOrder.side, newOrder.price, newOrder.qty)]
      ensures old(oldOrder.pl) != null ==>
                && history == old(history) + [Drop(old(oldOrder.side), old(oldOrder.price), old(oldOrder.qty)),
                                              Add(newOrder.side, newOrder.price, newOrder.qty)]
                && oldOrder.Cleared()
      ensures Rests(newOrder)
      ensures old(oldOrder.pl) == null && oldOrder != newOrder ==> unchanged(oldOrder)
      ensures newOrder.side == old(newOrder.side) && newOrder.price == old(newOrder.price)
      ensures newOrder.qty == old(newOrder.qty)
    {
      hide Mapped;
      DeleteOrder(oldOrder);
      AddOrder(newOrder);
    }

    // ---- Accessors ----

    method BestBid() returns (best: Pq)
      requires Valid()
      ensures best == Best(Replay(history).bids)
    {
      best := Begin(bids, history);
    }

    method BestAsk() returns (best: Pq)
      requires Valid()
      ensures best == Best(Replay(history).asks)
    {
      best := Begin(asks, history);
    }

    /** The largest number of levels the side ever had at once. */
    method MaxPoolUsed(side: Side) returns (depth: nat)
      requires Valid()
      ensures depth == Peak(history, side)
    {
      depth := On(side).pool.freeList.maxUsed;
    }
  }

  /** The element the iterator meets first. */
  method Begin(byPrice: LevelMap, ghost ops: seq<BookOp>) returns (best: Pq)
    requires Mapped(byPrice, ops)
    ensures best == Best(Replay(ops).On(byPrice.side))
  {
    hide Replay, Peak, LevelMap.Valid, Content, Sorted;
    ghost var s, keys := Replay(ops).On(byPrice.side), byPrice.levels.Keys;
    ReplayOrdered(ops);
    BestIsExtreme(byPrice.side, s);
    byPrice.KeysOfQuantities();
    if byPrice.Empty() {
      assert keys == {};
      assert Quantities(byPrice.levels) == map[];
      return Pq(0, 0);
    }
    HasFirst(byPrice.side, keys);
    var p :| First(byPrice.side, byPrice.levels.Keys, p);
    assert First(byPrice.side, keys, p);
    assert p in Quantities(byPrice.levels);
    assert Best(s).price == p;
    best := Pq(p, byPrice.levels[p].aggQty);
  }
}
