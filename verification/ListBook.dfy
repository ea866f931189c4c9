/**
 The list books. `basic_book` (src/itch/basic_book.cpp) and `mp_book`
 (src/itch/mp_book.cpp) have the same operations; they differ in where their
 lists get their nodes, so here they differ in their constructor.
 */
module ListBooks {
  import opened Arith
  import opened Core
  import opened Ladder
  import opened BookOps
  import opened LevelLists
  import opened MemoryPools
  import opened Memory

  /** sizeof(price_level) and the two pointers of a list node. */
  const LIST_NODE_SIZE: nat := 24

  /** The first level that does not stand before `price`. */
  method FindPlace(list: LevelList, side: Side, price: u32) returns (i: nat)
    ensures i == Rank(side, View(list.nodes), price)
    ensures forall j :: 0 <= j < i ==>
              if side == Bid then list.nodes[j].price > price else list.nodes[j].price < price
    ensures i < |list.nodes| ==>
              if side == Bid then list.nodes[i].price <= price else list.nodes[i].price >= price
  {
    i := 0;
    while i < |list.nodes| && Better(side, list.nodes[i].price, price)
      invariant i <= |list.nodes|
      invariant forall j :: 0 <= j < i ==> Better(side, View(list.nodes)[j].price, price)
    {
      i := i + 1;
    }
  }

  /** The first level with the price. */
  method FindPrice(list: LevelList, price: u32) returns (i: nat)
    ensures i == Find(View(list.nodes), price)
  {
    i := 0;
    while i < |list.nodes| && list.nodes[i].price != price
      invariant i <= |list.nodes|
      invariant forall j :: 0 <= j < i ==> View(list.nodes)[j].price != price
    {
      i := i + 1;
    }
  }

  /** `add_order` on the list of the order's side. */
  method AddToList(list: LevelList, side: Side, price: u32, qty: u32) returns (level: PriceLevel)
    requires list.Valid()
    modifies list.Repr
    ensures list.Valid()
    ensures View(list.nodes) == AddTo(side, old(View(list.nodes)), price, qty)
    ensures level in list.nodes && level.price == price
    ensures forall n :: n in old(list.nodes) ==> n in list.nodes
    ensures fresh(list.Repr - old(list.Repr))
    ensures list.pool != null ==> list.MaxUsed() == Max(old(list.MaxUsed()), |list.nodes|)
  {
    hide View, Rank, AddTo, MemoryPool.Valid, Distinct, InsertAt;
    AddPlace(side, View(list.nodes), price, qty);
    list.DepthBound();
    if list.Empty() {
      // initial price level
      level := list.Emplace(0, price, qty);
    } else {
      var i := FindPlace(list, side, price);
      if i < |list.nodes| && list.nodes[i].price == price {
        // the level exists, adjust its quantity
        level := list.nodes[i];
        list.Increase(level, i, qty);
      } else {
        // a new level, in the middle or at the bottom of the book
        level := list.Emplace(i, price, qty);
      }
    }
  }

  /** Where the list operations have to work to perform `AddTo`. */
  lemma AddPlace(side: Side, s: seq<Level>, price: u32, qty: u32)
    ensures var i := Rank(side, s, price);
            AddTo(side, s, price, qty) ==
            if i < |s| && s[i].price == price then s[i := Level(price, Inc32(s[i].qty, qty))]
            else InsertAt(s, i, Level(price, qty))
  {
    AddByRank(side, s, price, qty);
  }

  /** What `delete_order` does to the list of the order's side: the level shrinks, or goes. */
  method RemoveFromList(list: LevelList, side: Side, level: PriceLevel, price: u32, qty: u32)
    requires list.Valid() && level in list.nodes && level.price == price && Sorted(side, View(list.nodes))
    modifies list.Repr
    ensures list.Valid()
    ensures View(list.nodes) == DropFrom(old(View(list.nodes)), price, qty)
    ensures forall n :: n in list.nodes ==> n in old(list.nodes)
    ensures forall n :: n in old(list.nodes) ==> n in list.nodes || (n == level && qty >= old(level.aggQty))
    ensures list.MaxUsed() == old(list.MaxUsed()) && |list.nodes| <= |old(list.nodes)|
    ensures list.Repr == old(list.Repr)
  {
    hide View, Find, DropFrom, Sorted, MemoryPool.Valid, Distinct, RemoveAt;
    LevelPlace(side, list.nodes, level, qty);
    if qty < level.aggQty {
      ghost var i := list.Decrease(level, qty);
    } else {
      var i := FindPrice(list, price);
      list.Erase(i);
    }
  }

  /** A partial cancel on the list of the order's side: the level shrinks. */
  method ShrinkInList(list: LevelList, ghost side: Side, level: PriceLevel, qty: u32)
    requires list.Valid() && level in list.nodes && Sorted(side, View(list.nodes))
    modifies level
    ensures list.Valid()
    ensures View(list.nodes) == DecFrom(old(View(list.nodes)), level.price, qty)
  {
    hide View, Find, DecFrom, Sorted, MemoryPool.Valid, Distinct;
    LevelPlace(side, list.nodes, level, qty);
    ghost var i := list.Decrease(level, qty);
  }

  /** A level is found by its price, and there `DropFrom` and `DecFrom` work. */
  lemma LevelPlace(side: Side, nodes: seq<PriceLevel>, level: PriceLevel, qty: u32)
    requires level in nodes && Sorted(side, View(nodes))
    ensures var i, s := Find(View(nodes), level.price), View(nodes);
            && i < |s| && nodes[i] == level
            && (forall k :: 0 <= k < |nodes| && nodes[k] == level ==> k == i)
            && DecFrom(s, level.price, qty) == s[i := Level(level.price, Dec32(s[i].qty, qty))]
            && DropFrom(s, level.price, qty) ==
               if qty < s[i].qty then s[i := Level(level.price, Dec32(s[i].qty, qty))] else RemoveAt(s, i)
  {
    hide View;
    forall k | 0 <= k < |nodes| && nodes[k] == level
      ensures k == Find(View(nodes), level.price)
    {
      FindsItself(side, View(nodes), k);
    }
    DecByFind(View(nodes), level.price, qty);
    DropByFind(View(nodes), level.price, qty);
  }

  /** The list is the side's part of the replayed calls, and its pool saw the greatest depth. */
  ghost predicate Shows(list: LevelList, side: Side, ops: seq<BookOp>)
    reads list, list.Repr
  {
    && list.Valid()
    && View(list.nodes) == Replay(ops).On(side)
    && (list.pool != null ==> list.MaxUsed() == Peak(ops, side))
  }

  /** A call leaves the other side alone. */
  lemma ShowsOther(list: LevelList, side: Side, ops: seq<BookOp>, op: BookOp)
    requires Shows(list, side, ops) && op.side != side
    ensures Shows(list, side, ops + [op])
  {
    ReplaySnoc(ops, op);
    PeakSnoc(ops, op, side);
    ReplayDepth(ops, side);
  }

  /** On its own side a call is shown when the list is what `Apply` makes of it. */
  lemma ShowsOwn(list: LevelList, side: Side, ops: seq<BookOp>, op: BookOp, maxUsed: nat)
    requires list.Valid() && op.side == side && View(list.nodes) == Apply(Replay(ops), op).On(side)
    requires list.pool != null ==> maxUsed == Peak(ops, side) && list.MaxUsed() == Max(maxUsed, |list.nodes|)
    ensures Shows(list, side, ops + [op])
  {
    ReplaySnoc(ops, op);
    PeakSnoc(ops, op, side);
  }

  /** What is shown is sorted. */
  lemma ListShown(list: LevelList, side: Side, ops: seq<BookOp>)
    requires Shows(list, side, ops)
    ensures list.Valid() && list in list.Repr
    ensures Sorted(side, View(list.nodes)) && View(list.nodes) == Replay(ops).On(side)
    ensures list.pool != null ==> |list.nodes| <= list.MaxUsed() == Peak(ops, side)
  {
    ReplayOrdered(ops);
    ReplayDepth(ops, side);
  }

  /** The order rests on a level of the list, at its own price. */
  ghost predicate RestsOn(list: LevelList, order: Order)
    reads list, order
  {
    order.pl != null && order.pl in list.nodes && order.pl.price == order.price
  }

  function Other(side: Side): Side {
    if side == Bid then Ask else Bid
  }

  class ListBook {
    const bids: LevelList
    const asks: LevelList
    // the calls received so far
    ghost var history: seq<BookOp>

    ghost var Repr: set<object>

    ghost predicate Valid()
      reads this, Repr
      ensures Valid() ==> this in Repr && bids in Repr && asks in Repr
    {
      && this in Repr && bids in Repr && asks in Repr && bids.Repr + asks.Repr <= Repr
      && bids in bids.Repr && asks in asks.Repr
      && this !in bids.Repr && this !in asks.Repr && bids.Repr !! asks.Repr
      && Shows(bids, Bid, history) && Shows(asks, Ask, history)
    }

    /** `basic_book`: lists with the default allocator. */
    constructor Basic()
      ensures Valid() && fresh(Repr) && history == [] && bids.pool == asks.pool == null
    {
      hide View, Replay;
      bids := new LevelList(null);
      asks := new LevelList(null);
      history := [];
      new;
      Repr := {this} + bids.Repr + asks.Repr;
      NothingShown(bids, Bid);
      NothingShown(asks, Ask);
    }

    /** `mp_book`: lists over a memory pool for each side. */
    constructor Pooled()
      ensures Valid() && fresh(Repr) && history == []
      ensures bids.pool != null && bids.pool.freeList.nodeSize == 24 && bids.pool.first == 1200
      ensures asks.pool != null && asks.pool.freeList.nodeSize == 24 && asks.pool.first == 1200
    {
      hide Shows;
      var b := NewPooledList(Bid);
      var a := NewPooledList(Ask);
      bids, asks, history, Repr := b, a, [], {this} + b.Repr + a.Repr;
    }

    /** The list of a side. */
    function On(side: Side): LevelList {
      if side == Bid then bids else asks
    }

    function Opposite(side: Side): LevelList {
      if side == Bid then asks else bids
    }

    ghost predicate Rests(order: Order)
      reads bids, asks, order
    {
      RestsOn(On(order.side), order)
    }

    // In the contracts below: what appears is fresh, and the only level object that can disappear is the
    // order's own, when the order has all of its quantity.

    method AddOrder(order: Order)
      requires Valid() && order !in Repr
      modifies Repr, order`pl
      ensures Valid() && Rests(order)
      ensures fresh(Repr - old(Repr))
      ensures history == old(history) + [Add(order.side, order.price, order.qty)]
      ensures forall n :: n in old(bids.nodes) ==> n in bids.nodes
      ensures forall n :: n in old(asks.nodes) ==> n in asks.nodes
    {
      hide View, Replay, Peak, LevelList.Valid, AddTo, Sorted, Shows;
      var list := On(order.side);
      ListShown(list, order.side, history);
      ghost var op, max := Add(order.side, order.price, order.qty), list.MaxUsed();
      order.pl := AddToList(list, order.side, order.price, order.qty);
      ShowsOwn(list, order.side, history, op, max);
      ShowsOther(Opposite(order.side), Other(order.side), history, op);
      history := history + [op];
      Repr := Repr + list.Repr;
    }

    /** An order that rests nowhere is left alone. */
    method DeleteOrder(order: Order)
      requires Valid() && order !in Repr && (order.pl != null ==> Rests(order))
      modifies Repr, order
      ensures Valid()
      ensures fresh(Repr - old(Repr))
      ensures forall n :: n in old(bids.nodes) ==>
                n in bids.nodes || Emptied(n, old(order.pl), old(order.qty), old(n.aggQty))
      ensures forall n :: n in old(asks.nodes) ==>
                n in asks.nodes || Emptied(n, old(order.pl), old(order.qty), old(n.aggQty))
      ensures old(order.pl) == null ==> history == old(history) && unchanged(order)
      ensures old(order.pl) != null ==>
                && history == old(history) + [Drop(old(order.side), old(order.price), old(order.qty))]
                && order.Cleared()
    {
      hide Shows;
      if order.pl == null {
        return;
      }
      RemoveOrder(order);
    }

    /** The branch of `DeleteOrder` for an order that rests. */
    method RemoveOrder(order: Order)
      requires Valid() && order !in Repr && Rests(order)
      modifies Repr, order
      ensures Valid()
      ensures fresh(Repr - old(Repr))
      ensures forall n :: n in old(bids.nodes) ==>
                n in bids.nodes || Emptied(n, old(order.pl), old(order.qty), old(n.aggQty))
      ensures forall n :: n in old(asks.nodes) ==>
                n in asks.nodes || Emptied(n, old(order.pl), old(order.qty), old(n.aggQty))
      ensures history == old(history) + [Drop(old(order.side), old(order.price), old(order.qty))]
      ensures order.Cleared()
    {
      hide View, Replay, Peak, LevelList.Valid, DropFrom, Sorted, Shows;
      var list := On(order.side);
      ListShown(list, order.side, history);
      ghost var op, max := Drop(order.side, order.price, order.qty), list.MaxUsed();
      RemoveFromList(list, order.side, order.pl, order.price, order.qty);
      ShowsOwn(list, order.side, history, op, max);
      ShowsOther(Opposite(order.side), Other(order.side), history, op);
      history := history + [op];
      order.Clear();
    }

    /** Fewer shares than the order has shrink it and its level; all of them remove it. */
    method CancelOrder(order: Order, removeQty: u32)
      requires Valid() && order !in Repr && (order.pl != null ==> Rests(order))
      requires removeQty < order.qty ==> order.pl != null
      modifies Repr, order
      ensures Valid()
      ensures fresh(Repr - old(Repr))
      ensures forall n :: n in old(bids.nodes) ==>
                n in bids.nodes || Emptied(n, old(order.pl), old(order.qty), old(n.aggQty))
      ensures forall n :: n in old(asks.nodes) ==>
                n in asks.nodes || Emptied(n, old(order.pl), old(order.qty), old(n.aggQty))
      ensures removeQty < old(order.qty) ==>
                && bids.nodes == old(bids.nodes) && asks.nodes == old(asks.nodes)
                && history == old(history) + [Dec(order.side, order.price, removeQty)]
                && order.qty == old(order.qty) - removeQty && order.pl == old(order.pl)
                && order.side == old(order.side) && order.price == old(order.price)
                && Rests(order)
      ensures removeQty >= old(order.qty) && old(order.pl) == null ==> history == old(history) && unchanged(order)
      ensures removeQty >= old(order.qty) && old(order.pl) != null ==>
                && history == old(history) + [Drop(old(order.side), old(order.price), old(order.qty))]
                && order.Cleared()
    {
      hide Shows;
      if removeQty < order.qty {
        ShrinkOrder(order, removeQty);
      } else {
        DeleteOrder(order);
      }
    }

    /** The partial branch of `CancelOrder`. */
    method ShrinkOrder(order: Order, removeQty: u32)
      requires Valid() && order !in Repr && Rests(order) && removeQty < order.qty
      modifies Repr, order`qty
      ensures Valid() && Rests(order)
      ensures fresh(Repr - old(Repr))
      ensures bids.nodes == old(bids.nodes)
      ensures asks.nodes == old(asks.nodes)
      ensures history == old(history) + [Dec(order.side, order.price, removeQty)]
      ensures order.qty == old(order.qty) - removeQty
    {
      hide View, Replay, Peak, LevelList.Valid, DecFrom, Sorted, Shows;
      var list := On(order.side);
      ListShown(list, order.side, history);
      ghost var op, max := Dec(order.side, order.price, removeQty), list.MaxUsed();
      order.qty := order.qty - removeQty;
      ShrinkInList(list, order.side, order.pl, removeQty);
      ShowsOwn(list, order.side, history, op, max);
      ShowsOther(Opposite(order.side), Other(order.side), history, op);
      history := history + [op];
    }

    /** The old order's departure and the new one's arrival; when the old one rests nowhere, the arrival alone. */
    method ReplaceOrder(oldOrder: Order, newOrder: Order)
      requires Valid() && oldOrder !in Repr && newOrder !in Repr
      requires newOrder.pl == null && (oldOrder.pl != null ==> Rests(oldOrder))
      modifies Repr, oldOrder, newOrder`pl
      ensures Valid()
      ensures fresh(Repr - old(Repr))
      ensures forall n :: n in old(bids.nodes) ==>
                n in bids.nodes || Emptied(n, old(oldOrder.pl), old(oldOrder.qty), old(n.aggQty))
      ensures forall n :: n in old(asks.nodes) ==>
                n in asks.nodes || Emptied(n, old(oldOrder.pl), old(oldOrder.qty), old(n.aggQty))
      ensures old(oldOrder.pl) == null ==>
                history == old(history) + [Add(newOrder.side, newOrder.price, newOrder.qty)]
      ensures old(oldOrder.pl) != null ==>
                && history == old(history) + [Drop(old(oldOrder.side), old(oldOrder.price), old(oldOrder.qty)),
                                              Add(newOrder.side, newOrder.price, newOrder.qty)]
                && oldOrder.Cleared()
      ensures Rests(newOrder)
      ensures old(oldOrder.pl) == null && oldOrder != newOrder ==> unchanged(oldOrder)
      ensures newOrder.side == old(newOrder.side) && newOrder.price == old(newOrder.price)
      ensures newOrder.qty == old(newOrder.qty)
    {
      hide Shows;
      DeleteOrder(oldOrder);
      AddOrder(newOrder);
    }

    // ---- Accessors ----

    method BestBid() returns (best: Pq)
      requires Valid()
      ensures best == Best(Replay(history).bids)
    {
      best := if bids.Empty() then Pq(0, 0) else Pq(bids.nodes[0].price, bids.nodes[0].aggQty);
    }

    method BestAsk() returns (best: Pq)
      requires Valid()
      ensures best == Best(Replay(history).asks)
    {
      best := if asks.Empty() then Pq(0, 0) else Pq(asks.nodes[0].price, asks.nodes[0].aggQty);
    }

    /** With a pool, the largest number of levels the side ever had at once; without one, 0. */
    method MaxBookDepth(side: Side) returns (depth: nat)
      requires Valid()
      ensures depth == if On(side).pool == null then 0 else Peak(history, side)
    {
      var pool := On(side).pool;
      depth := if pool == null then 0 else pool.freeList.maxUsed;
    }
  }

  lemma NothingShown(list: LevelList, side: Side)
    requires list.Valid() && list.nodes == [] && (list.pool != null ==> list.MaxUsed() == 0)
    ensures Shows(list, side, [])
  {
  }

  /** An empty list over a pool for the price levels. */
  method NewPooledList(side: Side) returns (list: LevelList)
    ensures Shows(list, side, []) && list in list.Repr && fresh(list.Repr) && list.nodes == []
    ensures list.pool != null && list.pool.freeList.nodeSize == 24 && list.pool.first == 1200
  {
    hide MemoryPool.Valid;
    assert RoundUpToAlign(LIST_NODE_SIZE) == 24;
    var pool := new MemoryPool(LIST_NODE_SIZE, NUM_PRICE_LEVELS);
    list := new LevelList(pool);
    NothingShown(list, side);
  }
}
