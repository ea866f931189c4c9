/**
 `hashed_book` (src/itch/hashed_book.cpp): the pooled lists of levels, each with
 an index from price to list node that the operations keep in step.
 */
module HashedBooks {
  import opened Arith
  import opened Core
  import opened Ladder
  import opened BookOps
  import opened LevelLists
  import opened MemoryPools
  import opened ListBooks

  /** The index has exactly the prices of the list, and leads to the one node with each price. */
  ghost predicate Indexed(nodes: seq<PriceLevel>, index: map<u32, PriceLevel>) {
    && (forall p :: p in index ==> index[p] in nodes && index[p].price == p)
    && (forall n :: n in nodes ==> n.price in index && index[n.price] == n)
  }

  /** `add_order` on the list and the index of the order's side. */
  method AddIndexed(list: LevelList, index: map<u32, PriceLevel>, side: Side, price: u32, qty: u32)
    returns (level: PriceLevel, index': map<u32, PriceLevel>)
    requires list.Valid() && Indexed(list.nodes, index) && Sorted(side, View(list.nodes))
    modifies list.Repr
    ensures list.Valid() && Indexed(list.nodes, index')
    ensures View(list.nodes) == AddTo(side, old(View(list.nodes)), price, qty)
    ensures level in list.nodes && level.price == price
    ensures forall n :: n in old(list.nodes) ==> n in list.nodes
    ensures fresh(list.Repr - old(list.Repr))
    ensures list.pool != null ==> list.MaxUsed() == Max(old(list.MaxUsed()), |list.nodes|)
  {
    hide View, Rank, AddTo, Sorted, MemoryPool.Valid, Distinct, InsertAt, LevelList.Celled, Indexed;
    AddPlace(side, View(list.nodes), price, qty);
    list.DepthBound();
    ghost var nodes := list.nodes;
    IndexFacts(nodes, index, price);
    if list.Empty() {
      level := list.Emplace(0, price, qty);
      index' := index[price := level];
      IndexGrown(nodes, list.nodes, index, level);
    } else if price !in index {
      // the price is not in the index, therefore not in the book: find out where it should go
      var i := FindPlace(list, side, price);
      PlaceIsNew(side, list.nodes, price);
      level := list.Emplace(i, price, qty);
      index' := index[price := level];
      IndexGrown(nodes, list.nodes, index, level);
    } else {
      level, index' := index[price], index;
      RankOfNode(side, list.nodes, level);
      list.Increase(level, Rank(side, View(list.nodes), price), qty);
    }
  }

  lemma IndexFacts(nodes: seq<PriceLevel>, index: map<u32, PriceLevel>, price: u32)
    requires Indexed(nodes, index)
    ensures price in index ==> index[price] in nodes && index[price].price == price
    ensures price !in index ==> forall n :: n in nodes ==> n.price != price
    ensures nodes == [] ==> price !in index
  {
  }

  /** A price that no level has is ranked in front of a level with another one. */
  lemma PlaceIsNew(side: Side, nodes: seq<PriceLevel>, price: u32)
    requires forall n :: n in nodes ==> n.price != price
    ensures var i := Rank(side, View(nodes), price); i < |nodes| ==> View(nodes)[i].price != price
  {
  }

  /** The index takes up a new level. */
  lemma IndexGrown(nodes: seq<PriceLevel>, nodes': seq<PriceLevel>, index: map<u32, PriceLevel>, level: PriceLevel)
    requires Indexed(nodes, index) && level.price !in index
    requires forall n :: n in nodes' <==> n == level || n in nodes
    ensures Indexed(nodes', index[level.price := level])
  {
  }

  lemma IndexFinds(nodes: seq<PriceLevel>, index: map<u32, PriceLevel>, level: PriceLevel)
    requires Indexed(nodes, index) && level in nodes
    ensures level.price in index && index[level.price] == level
  {
  }

  /** The index lets go of an erased level. */
  lemma IndexShrunk(nodes: seq<PriceLevel>, nodes': seq<PriceLevel>, index: map<u32, PriceLevel>, level: PriceLevel)
    requires Indexed(nodes, index) && level in nodes
    requires forall n :: n in nodes' <==> n != level && n in nodes
    ensures Indexed(nodes', index - {level.price})
  {
  }

  lemma RankOfNode(side: Side, nodes: seq<PriceLevel>, level: PriceLevel)
    requires level in nodes && Sorted(side, View(nodes))
    ensures var i := Rank(side, View(nodes), level.price); i < |nodes| && nodes[i] == level
  {
    hide View;
    var k :| 0 <= k < |nodes| && nodes[k] == level;
    FindsItself(side, View(nodes), k);
  }

  /** What `delete_order` does to the list and the index of the order's side. */
  method RemoveIndexed(list: LevelList, index: map<u32, PriceLevel>, side: Side, level: PriceLevel, qty: u32)
    returns (index': map<u32, PriceLevel>)
    requires list.Valid() && Indexed(list.nodes, index) && level in list.nodes && Sorted(side, View(list.nodes))
    modifies list.Repr
    ensures list.Valid() && Indexed(list.nodes, index')
    ensures View(list.nodes) == DropFrom(old(View(list.nodes)), level.price, qty)
    ensures forall n :: n in list.nodes ==> n in old(list.nodes)
    ensures forall n :: n in old(list.nodes) ==> n in list.nodes || (n == level && qty >= old(level.aggQty))
    ensures list.MaxUsed() == old(list.MaxUsed()) && |list.nodes| <= |old(list.nodes)|
    ensures list.Repr == old(list.Repr)
  {
    hide View, Find, DropFrom, Sorted, MemoryPool.Valid, Distinct, RemoveAt, LevelList.Celled, Indexed;
    LevelPlace(side, list.nodes, level, qty);
    ghost var nodes := list.nodes;
    IndexFinds(nodes, index, level);
    if qty < level.aggQty {
      ghost var i := list.Decrease(level, qty);
      index' := index;
    } else {
      ghost var i := list.EraseNode(index[level.price]);
      index' := index - {level.price};
      IndexShrunk(nodes, list.nodes, index, level);
    }
  }

  class HashedBook {
    const bids: LevelList
    const asks: LevelList
    var bidMap: map<u32, PriceLevel>
    var askMap: map<u32, PriceLevel>
    // the calls received so far
    ghost var history: seq<BookOp>

    ghost var Repr: set<object>

    ghost predicate Valid()
      reads this, Repr
      ensures Valid() ==> this in Repr && bids in Repr && asks in Repr
    {
      && this in Repr && bids in Repr && asks in Repr && bids.Repr + asks.Repr <= Repr
      && bids in bids.Repr && asks in asks.Repr
      && this !in bids.Repr && this !in asks.Repr && bids.Repr !! asks.Repr
      && Shows(bids, Bid, history) && Shows(asks, Ask, history)
      && Indexed(bids.nodes, bidMap) && Indexed(asks.nodes, askMap)
      && bids.pool != null && asks.pool != null
    }

    constructor ()
      ensures Valid() && fresh(Repr) && history == []
      ensures bids.pool != null && bids.pool.freeList.nodeSize == 24 && bids.pool.first == 1200
      ensures asks.pool != null && asks.pool.freeList.nodeSize == 24 && asks.pool.first == 1200
    {
      hide Shows;
      var b := NewPooledList(Bid);
      var a := NewPooledList(Ask);
      bids, asks, bidMap, askMap := b, a, map[], map[];
      history, Repr := [], {this} + b.Repr + a.Repr;
    }

    /** The list of a side. */
    function On(side: Side): LevelList {
      if side == Bid then bids else asks
    }

    function MapOf(side: Side): map<u32, PriceLevel>
      reads this
    {
      if side == Bid then bidMap else askMap
    }

    method SetMap(side: Side, index: map<u32, PriceLevel>)
      modifies this`bidMap, this`askMap
      ensures MapOf(side) == index && MapOf(Other(side)) == old(MapOf(Other(side)))
    {
      if side == Bid {
        bidMap := index;
      } else {
        askMap := index;
      }
    }

    function Opposite(side: Side): LevelList {
      if side == Bid then asks else bids
    }

    ghost predicate Rests(order: Order)
      reads bids, asks, order
    {
      RestsOn(On(order.side), order)
    }

    // In the contracts below: what appears is fresh, and the only level object that can disappear is the
    // order's own, when the order has all of its quantity.

    method AddOrder(order: Order)
      requires Valid() && order !in Repr
      modifies Repr, order`pl
      ensures Valid() && Rests(order)
      ensures fresh(Repr - old(Repr))
      ensures history == old(history) + [Add(order.side, order.price, order.qty)]
      ensures forall n :: n in old(bids.nodes) ==> n in bids.nodes
      ensures forall n :: n in old(asks.nodes) ==> n in asks.nodes
    {
      hide Indexed, View, Replay, Peak, LevelList.Valid, AddTo, Sorted, Shows;
      var list := On(order.side);
      ListShown(list, order.side, history);
      ghost var op, max := Add(order.side, order.price, order.qty), list.MaxUsed();
      var level, index := AddIndexed(list, MapOf(order.side), order.side, order.price, order.qty);
      order.pl := level;
      SetMap(order.side, index);
      ShowsOwn(list, order.side, history, op, max);
      ShowsOther(Opposite(order.side), Other(order.side), history, op);
      history := history + [op];
      Repr := Repr + list.Repr;
    }

    /** An order that rests nowhere is left alone. */
    method DeleteOrder(order: Order)
      requires Valid() && order !in Repr && (order.pl != null ==> Rests(order))
      modifies Repr, order
      ensures Valid()
      ensures fresh(Repr - old(Repr))
      ensures forall n :: n in old(bids.nodes) ==>
                n in bids.nodes || Emptied(n, old(order.pl), old(order.qty), old(n.aggQty))
      ensures forall n :: n in old(asks.nodes) ==>
                n in asks.nodes || Emptied(n, old(order.pl), old(order.qty), old(n.aggQty))
      ensures old(order.pl) == null ==> history == old(history) && unchanged(order)
      ensures old(order.pl) != null ==>
                && history == old(history) + [Drop(old(order.side), old(order.price), old(order.qty))]
                && order.Cleared()
    {
      hide Shows, Indexed;
      if order.pl == null {
        return;
      }
      RemoveOrder(order);
    }

    /** The branch of `DeleteOrder` for an order that rests. */
    method RemoveOrder(order: Order)
      requires Valid() && order !in Repr && Rests(order)
      modifies Repr, order
      ensures Valid()
      ensures fresh(Repr - old(Repr))
      ensures forall n :: n in old(bids.nodes) ==>
                n in bids.nodes || Emptied(n, old(order.pl), old(order.qty), old(n.aggQty))
      ensures forall n :: n in old(asks.nodes) ==>
                n in asks.nodes || Emptied(n, old(order.pl), old(order.qty), old(n.aggQty))
      ensures history == old(history) + [Drop(old(order.side), old(order.price), old(order.qty))]
      ensures order.Cleared()
    {
      hide Indexed, View, Replay, Peak, LevelList.Valid, DropFrom, Sorted, Shows;
      var list := On(order.side);
      ListShown(list, order.side, history);
      ghost var op, max := Drop(order.side, order.price, order.qty), list.MaxUsed();
      var index := RemoveIndexed(list, MapOf(order.side), order.side, order.pl, order.qty);
      SetMap(order.side, index);
      ShowsOwn(list, order.side, history, op, max);
      ShowsOther(Opposite(order.side), Other(order.side), history, op);
      history := history + [op];
      order.Clear();
    }

    /** Fewer shares than the order has shrink it and its level; all of them remove it. */
    method CancelOrder(order: Order, removeQty: u32)
      requires Valid() && order !in Repr && (order.pl != null ==> Rests(order))
      requires removeQty < order.qty ==> order.pl != null
      modifies Repr, order
      ensures Valid()
      ensures fresh(Repr - old(Repr))
      ensures forall n :: n in old(bids.nodes) ==>
                n in bids.nodes || Emptied(n, old(order.pl), old(order.qty), old(n.aggQty))
      ensures forall n :: n in old(asks.nodes) ==>
                n in asks.nodes || Emptied(n, old(order.pl), old(order.qty), old(n.aggQty))
      ensures removeQty < old(order.qty) ==>
                && bids.nodes == old(bids.nodes) && asks.nodes == old(asks.nodes)
                && history == old(history) + [Dec(order.side, order.price, removeQty)]
                && order.qty == old(order.qty) - removeQty && order.pl == old(order.pl)
                && order.side == old(order.side) && order.price == old(order.price)
                && Rests(order)
      ensures removeQty >= old(order.qty) && old(order.pl) == null ==> history == old(history) && unchanged(order)
      ensures removeQty >= old(order.qty) && old(order.pl) != null ==>
                && history == old(history) + [Drop(old(order.side), old(order.price), old(order.qty))]
                && order.Cleared()
    {
      hide Shows, Indexed;
      if removeQty < order.qty {
        ShrinkOrder(order, removeQty);
      } else {
        DeleteOrder(order);
      }
    }

    /** The partial branch of `CancelOrder`. */
    method ShrinkOrder(order: Order, removeQty: u32)
      requires Valid() && order !in Repr && Rests(order) && removeQty < order.qty
      modifies Repr, order`qty
      ensures Valid() && Rests(order)
      ensures fresh(Repr - old(Repr))
      ensures bids.nodes == old(bids.nodes)
      ensures asks.nodes == old(asks.nodes)
      ensures history == old(history) + [Dec(order.side, order.price, removeQty)]
      ensures order.qty == old(order.qty) - removeQty
    {
      hide Indexed, View, Replay, Peak, LevelList.Valid, DecFrom, Sorted, Shows;
      var list := On(order.side);
      ListShown(list, order.side, history);
      ghost var op, max := Dec(order.side, order.price, removeQty), list.MaxUsed();
      order.qty := order.qty - removeQty;
      ShrinkInList(list, order.side, order.pl, removeQty);
      ShowsOwn(list, order.side, history, op, max);
      ShowsOther(Opposite(order.side), Other(order.side), history, op);
      history := history + [op];
    }

    /** The old order's departure and the new one's arrival; when the old one rests nowhere, the arrival alone. */
    method ReplaceOrder(oldOrder: Order, newOrder: Order)
      requires Valid() && oldOrder !in Repr && newOrder !in Repr
      requires newOrder.pl == null && (oldOrder.pl != null ==> Rests(oldOrder))
      modifies Repr, oldOrder, newOrder`pl
      ensures Valid()
      ensures fresh(Repr - old(Repr))
      ensures forall n :: n in old(bids.nodes) ==>
                n in bids.nodes || Emptied(n, old(oldOrder.pl), old(oldOrder.qty), old(n.aggQty))
      ensures forall n :: n in old(asks.nodes) ==>
                n in asks.nodes || Emptied(n, old(oldOrder.pl), old(oldOrder.qty), old(n.aggQty))
      ensures old(oldOrder.pl) == null ==>
                history == old(history) + [Add(newOrder.side, newOrder.price, newOrder.qty)]
      ensures old(oldOrder.pl) != null ==>
                && history == old(history) + [Drop(old(oldOrder.side), old(oldOrder.price), old(oldOrder.qty)),
                                              Add(newOrder.side, newOrder.price, newOrder.qty)]
                && oldOrder.Cleared()
      ensures Rests(newOrder)
      ensures old(oldOrder.pl) == null && oldOrder != newOrder ==> unchanged(oldOrder)
      ensures newOrder.side == old(newOrder.side) && newOrder.price == old(newOrder.price)
      ensures newOrder.qty == old(newOrder.qty)
    {
      hide Shows, Indexed;
      DeleteOrder(oldOrder);
      AddOrder(newOrder);
    }

    // ---- Accessors ----

    method BestBid() returns (best: Pq)
      requires Valid()
      ensures best == Best(Replay(history).bids)
    {
      best := if bids.Empty() then Pq(0, 0) else Pq(bids.nodes[0].price, bids.nodes[0].aggQty);
    }

    method BestAsk() returns (best: Pq)
      requires Valid()
      ensures best == Best(Replay(history).asks)
    {
      best := if asks.Empty() then Pq(0, 0) else Pq(asks.nodes[0].price, asks.nodes[0].aggQty);
    }

    /** The largest number of levels the side ever had at once. */
    method MaxBookDepth(side: Side) returns (depth: nat)
      requires Valid()
      ensures depth == Peak(history, side)
    {
      depth := On(side).pool.freeList.maxUsed;
    }
  }
}
