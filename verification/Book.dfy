/**
 The four interchangeable books behind one interface, whose contracts speak of
 level objects and of the calls received, not of lists or maps.
 */
module Books {
  import opened Core
  import opened Ladder
  import opened BookOps
  import opened Ledger
  import opened MemoryPools
  import opened LevelLists
  import opened LevelMaps
  import opened ListBooks
  import opened HashedBooks
  import opened MapBooks

  /** `Listed` is `basic_book` or `mp_book`, by the constructor of its object. */
  datatype Book = Listed(list: ListBook) | Hashed(hashed: HashedBook) | Tree(tree: MapBook) {
    function Object(): object {
      match this
      case Listed(b) => b
      case Hashed(b) => b
      case Tree(b) => b
    }

    /** The container of a side. */
    function Part(side: Side): object {
      match this
      case Listed(b) => b.On(side)
      case Hashed(b) => b.On(side)
      case Tree(b) => b.On(side)
    }

    /** The pool of a side; the lists of `basic_book` have none. */
    function Pool(side: Side): MemoryPool? {
      match this
      case Listed(b) => b.On(side).pool
      case Hashed(b) => b.On(side).pool
      case Tree(b) => b.On(side).pool
    }

    predicate IsKind(kind: Kind) {
      match kind
      case BasicKind => Listed? && Pool(Bid) == Pool(Ask) == null
      case MpKind => Listed? && Pool(Bid) != null && Pool(Ask) != null
      case HashedKind => Hashed?
      case MapKind => Tree?
    }

    ghost function Repr(): set<object>
      reads Object()
    {
      match this
      case Listed(b) => b.Repr
      case Hashed(b) => b.Repr
      case Tree(b) => b.Repr
    }

    ghost function History(): seq<BookOp>
      reads Object()
    {
      match this
      case Listed(b) => b.history
      case Hashed(b) => b.history
      case Tree(b) => b.history
    }

    ghost predicate Valid()
      reads Object(), Repr()
      ensures Valid() ==> Object() in Repr() && forall side :: Part(side) in Repr()
    {
      match this
      case Listed(b) => b.Valid()
      case Hashed(b) => b.Valid()
      case Tree(b) => b.Valid()
    }

    /** The level objects of a side. */
    ghost function Standing(side: Side): set<PriceLevel>
      reads Part(side)
    {
      match this
      case Listed(b) => set n | n in b.On(side).nodes
      case Hashed(b) => set n | n in b.On(side).nodes
      case Tree(b) => b.On(side).levels.Values
    }

    /** The levels of a side in the order an iterator meets them. */
    ghost function Shown(side: Side): seq<Level>
      reads Part(side), Standing(side)
    {
      match this
      case Listed(b) => View(b.On(side).nodes)
      case Hashed(b) => View(b.On(side).nodes)
      case Tree(b) => InOrder(side, Quantities(b.On(side).levels))
    }

    ghost predicate Rests(order: Order)
      reads order, Part(order.side)
    {
      order.pl != null && order.pl in Standing(order.side) && order.pl.price == order.price
    }

    /** Every book shows what the calls it received make of an empty book. */
    lemma ShowsReplay(side: Side)
      requires Valid()
      ensures Shown(side) == Replay(History()).On(side) && Sorted(side, Shown(side))
    {
      hide View, InOrder, Quantities, Indexed, LevelList.Valid, LevelMap.Valid, Replay, Peak;
      ReplayOrdered(History());
      if Tree? {
        IterationShowsReplay(tree.On(side), tree.history);
      }
    }

    /** Level objects are the book's own, and of one side only. */
    lemma StandingApart()
      requires Valid()
      ensures Standing(Bid) <= Repr() && Standing(Ask) <= Repr() && Standing(Bid) !! Standing(Ask)
    {
      hide View, Quantities, Indexed, Replay, Peak, Sorted, Content;
    }

    /** A level object has the quantity shown at its price. */
    lemma StandingShown(side: Side, level: PriceLevel)
      requires Valid() && level in Standing(side)
      ensures var m := Content(Replay(History()).On(side)); level.price in m && m[level.price] == level.aggQty
    {
      hide View, Indexed, Replay, Peak;
      ShowsReplay(side);
      if Tree? {
        hide Content;
        var levels := tree.On(side).levels;
        var p :| p in levels && levels[p] == level;
        assert Quantities(levels)[p] == level.aggQty;
      } else {
        var nodes := if Listed? then list.On(side).nodes else hashed.On(side).nodes;
        var i :| 0 <= i < |nodes| && nodes[i] == level;
        ContentAt(side, View(nodes), i);
      }
    }

    /** To find an order's level by its price, as the map does, is to find the level it points to. */
    lemma RestsInTree(order: Order)
      requires Valid() && Tree?
      ensures Rests(order) <==> tree.Rests(order)
    {
      hide Quantities, Replay, Peak, Sorted, Content;
    }

    /** Two level objects of a side with one price are one object. */
    lemma OneAtPrice(side: Side, a: PriceLevel, b: PriceLevel)
      requires Valid() && a in Standing(side) && b in Standing(side) && a.price == b.price
      ensures a == b
    {
      hide View, Quantities, Indexed, Replay, Peak, Content;
      ShowsReplay(side);
      if !Tree? {
        var nodes := if Listed? then list.On(side).nodes else hashed.On(side).nodes;
        var i :| 0 <= i < |nodes| && nodes[i] == a;
        var j :| 0 <= j < |nodes| && nodes[j] == b;
        FindsItself(side, View(nodes), i);
        FindsItself(side, View(nodes), j);
      }
    }

    /** The aggregate of a level is the sum of the table at its place, and somebody rests there. */
    lemma StandingSum(l: seq<Slot>, inst: nat, side: Side, level: PriceLevel) returns (k: nat)
      requires Valid() && level in Standing(side)
      requires Agrees(Replay(History()).On(side), l, inst, side) && Positive(l)
      ensures level.aggQty == SumAt(l, Key(inst, side, level.price)) > 0
      ensures k < |l| && OnKey(l[k], Key(inst, side, level.price))
    {
      hide Valid, Standing, History;
      StandingShown(side, level);
      var key := Key(inst, side, level.price);
      k :| 0 <= k < |l| && OnKey(l[k], key);
      SumPart(l, k, AtKey(key));
    }

    /** The pool has a node for each level now, and saw the greatest depth. */
    lemma DepthShown(side: Side)
      requires Valid() && Pool(side) != null
      ensures Pool(side).freeList.used == |Shown(side)| && Pool(side).freeList.maxUsed == Peak(History(), side)
    {
      hide View, Indexed, Replay, Peak, MemoryPool.Valid;
      ShowsReplay(side);
      if Tree? {
        hide Quantities;
        tree.On(side).KeysOfQuantities();
        ContentSize(side, Shown(side));
        assert |Quantities(tree.On(side).levels).Keys| == |Quantities(tree.On(side).levels)|;
      }
    }

    // ---- The interface ----

    method AddOrder(order: Order)
      requires Valid() && order !in Repr()
      modifies Repr(), order`pl
      ensures Valid() && Rests(order) && fresh(Repr() - old(Repr()))
      ensures History() == old(History()) + [Add(order.side, order.price, order.qty)]
      ensures forall o: Order :: old(allocated(o)) && o !in old(Repr()) && o != order && old(Rests(o)) ==> Rests(o)
    {
      hide Shows, Indexed, Mapped;
      match this
      case Listed(b) => b.AddOrder(order);
      case Hashed(b) => b.AddOrder(order);
      case Tree(b) =>
        b.AddOrder(order);
        RestsInTree(order);
    }

    method DeleteOrder(order: Order)
      requires Valid() && order !in Repr() && (order.pl != null ==> Rests(order))
      modifies Repr(), order
      ensures Valid() && fresh(Repr() - old(Repr()))
      ensures forall o: Order :: old(allocated(o)) && o !in old(Repr()) && o != order && old(Rests(o)) ==>
                Rests(o) || Emptied(o.pl, old(order.pl), old(order.qty), old(order.LevelQty()))
      ensures if old(order.pl) == null then History() == old(History()) && unchanged(order)
              else
                && History() == old(History()) + [Drop(old(order.side), old(order.price), old(order.qty))]
                && order.Cleared()
    {
      hide Shows, Indexed, Mapped;
      match this
      case Listed(b) => b.DeleteOrder(order);
      case Hashed(b) => b.DeleteOrder(order);
      case Tree(b) =>
        RestsInTree(order);
        b.DeleteOrder(order);
    }

    method CancelOrder(order: Order, removeQty: u32)
      requires Valid() && order !in Repr() && (order.pl != null ==> Rests(order))
      requires removeQty < order.qty ==> order.pl != null
      modifies Repr(), order
      ensures Valid() && fresh(Repr() - old(Repr()))
      ensures forall o: Order :: old(allocated(o)) && o !in old(Repr()) && o != order && old(Rests(o)) ==>
                Rests(o) || Emptied(o.pl, old(order.pl), old(order.qty), old(order.LevelQty()))
      ensures if removeQty < old(order.qty) then
                && History() == old(History()) + [Dec(order.side, order.price, removeQty)]
                && order.qty == old(order.qty) - removeQty && order.pl == old(order.pl)
                && order.side == old(order.side) && order.price == old(order.price)
                && Rests(order)
              else if old(order.pl) == null then History() == old(History()) && unchanged(order)
              else
                && History() == old(History()) + [Drop(old(order.side), old(order.price), old(order.qty))]
                && order.Cleared()
    {
      hide Shows, Indexed, Mapped;
      match this
      case Listed(b) => b.CancelOrder(order, removeQty);
      case Hashed(b) => b.CancelOrder(order, removeQty);
      case Tree(b) =>
        RestsInTree(order);
        b.CancelOrder(order, removeQty);
        RestsInTree(order);
    }

    method ReplaceOrder(oldOrder: Order, newOrder: Order)
      requires Valid() && oldOrder !in Repr() && newOrder !in Repr()
      requires newOrder.pl == null && (oldOrder.pl != null ==> Rests(oldOrder))
      modifies Repr(), oldOrder, newOrder`pl
      ensures Valid() && fresh(Repr() - old(Repr()))
      ensures forall o: Order ::
                old(allocated(o)) && o !in old(Repr()) && o != oldOrder && o != newOrder && old(Rests(o)) ==>
                Rests(o) || Emptied(o.pl, old(oldOrder.pl), old(oldOrder.qty), old(oldOrder.LevelQty()))
      ensures if old(oldOrder.pl) == null then
                && History() == old(History()) + [Add(newOrder.side, newOrder.price, newOrder.qty)]
                && (oldOrder != newOrder ==> unchanged(oldOrder))
              else
                && History() == old(History()) + [Drop(old(oldOrder.side), old(oldOrder.price), old(oldOrder.qty)),
                                                  Add(newOrder.side, newOrder.price, newOrder.qty)]
                && oldOrder.Cleared()
      ensures Rests(newOrder) && newOrder.side == old(newOrder.side)
      ensures newOrder.price == old(newOrder.price) && newOrder.qty == old(newOrder.qty)
    {
      hide Shows, Indexed, Mapped;
      match this
      case Listed(b) => b.ReplaceOrder(oldOrder, newOrder);
      case Hashed(b) => b.ReplaceOrder(oldOrder, newOrder);
      case Tree(b) =>
        if oldOrder.pl != null {
          RestsInTree(oldOrder);
        }
        b.ReplaceOrder(oldOrder, newOrder);
        RestsInTree(newOrder);
    }

    method BestOn(side: Side) returns (best: Pq)
      requires Valid()
      ensures best == Best(Shown(side))
      ensures forall i :: 0 <= i < |Shown(side)| ==>
                if side == Bid then Shown(side)[i].price <= best.price else Shown(side)[i].price >= best.price
    {
      hide Shows, Indexed, Mapped, View, InOrder, Sorted, Better;
      ShowsReplay(side);
      SortedDescends(side, Shown(side));
      match (this, side)
      case (Listed(b), Bid) => best := b.BestBid();
      case (Listed(b), Ask) => best := b.BestAsk();
      case (Hashed(b), Bid) => best := b.BestBid();
      case (Hashed(b), Ask) => best := b.BestAsk();
      case (Tree(b), Bid) => best := b.BestBid();
      case (Tree(b), Ask) => best := b.BestAsk();
    }
  }

  /** `basic_book`, `mp_book`, `hashed_book` and `map_book`. */
  datatype Kind = BasicKind | MpKind | HashedKind | MapKind

  /** An empty book. */
  method NewBook(kind: Kind) returns (book: Book)
    ensures book.Valid() && fresh(book.Repr()) && book.History() == [] && book.IsKind(kind)
  {
    hide Shows, Indexed, Mapped;
    if kind.BasicKind? {
      var b := new ListBook.Basic();
      book := Listed(b);
    } else if kind.MpKind? {
      var b := new ListBook.Pooled();
      book := Listed(b);
    } else if kind.HashedKind? {
      var b := new HashedBook();
      book := Hashed(b);
    } else {
      var b := new MapBook();
      book := Tree(b);
    }
  }
}
