/**
 The parser (src/itch/parser.hpp): a table of orders, a book of any of the four
 kinds for every instrument, the message handlers and the loop over the bytes of a
 buffer.
 */
module Parsers {
  import opened Core
  import opened Ladder
  import opened BookOps
  import opened Ledger
  import opened Session
  import opened Books
  import opened Wire

  class Parser {
    // indexed by order reference number
    const orders: seq<Order>
    // indexed by stock locate
    const books: seq<Book>
    var msgCount: nat
    // the messages handled so far
    ghost var trace: seq<Msg>
    ghost var Repr: set<object>

    /** A table of `numOrders` unused orders, and an empty book for each of `numInstruments`. */
    constructor (numInstruments: nat, numOrders: nat, kind: Kind)
      ensures Valid() && trace == [] && msgCount == 0 && fresh(Repr)
      ensures |books| == numInstruments && |orders| == numOrders
      ensures forall i :: 0 <= i < |books| ==> books[i].IsKind(kind)
    {
      hide Book.Valid, Book.IsKind, Book.History;
      var bs, booksRepr := NewBooks(numInstruments, kind);
      var os := NewOrders(numOrders);
      books, orders, msgCount, trace := bs, os, 0, [];
      Repr := booksRepr + set o | o in os;
    }

    /** What the handled messages make of the order table. */
    ghost function Table(): seq<Slot>
      reads this
    {
      Run(trace, |orders|)
    }

    /** An order object is what the table says of it. */
    ghost predicate Matches(o: Order, s: Slot)
      reads o, set b | b in books :: b.Part(Bid)
      reads set b | b in books :: b.Part(Ask)
    {
      match s
      case Empty => o.Cleared()
      case Live(inst, side, price, qty) =>
        && o.side == side && o.price == price && o.qty == qty
        && inst < |books| && books[inst].Rests(o)
    }

    /** Orders and books are all different objects. */
    ghost predicate Separate()
      reads `Repr, Repr
    {
      && this !in Repr
      && (forall k :: 0 <= k < |orders| ==> orders[k] in Repr)
      && (forall j, k :: 0 <= j < |orders| && 0 <= k < |orders| && j != k ==> orders[j] != orders[k])
      && (forall i :: 0 <= i < |books| ==> books[i].Object() in Repr && books[i].Repr() <= Repr)
      && (forall i, k :: 0 <= i < |books| && 0 <= k < |orders| ==> orders[k] !in books[i].Repr())
      && (forall i, j :: 0 <= i < |books| && 0 <= j < |books| && i != j ==> books[i].Repr() !! books[j].Repr())
    }

    /** Valid books, and the order objects a table describes. */
    ghost predicate Consistent(l: seq<Slot>)
      reads `Repr, Repr
    {
      && Separate()
      && (forall i :: 0 <= i < |books| ==> books[i].Valid())
      && |l| == |orders|
      && (forall k :: 0 <= k < |orders| ==> Matches(orders[k], l[k]))
    }

    /** The calls each book received are those of the trace. */
    ghost predicate Recorded(tr: seq<Msg>)
      requires Separate()
      reads `Repr, Repr
    {
      forall i :: 0 <= i < |books| ==> books[i].History() == OpsFor(tr, |orders|, i)
    }

    ghost predicate Valid()
      reads this, Repr
    {
      Consistent(Table()) && Accepted(trace, |orders|, |books|) && Recorded(trace)
    }

    /** Two orders on one level: neither has all of its quantity. */
    lemma Shared(i: nat, k: nat)
      requires Valid() && i < |orders| && k < |orders| && i != k
      requires Table()[i].Live? && Table()[k].Live? && orders[i].pl == orders[k].pl
      ensures orders[i].pl != null && orders[i].qty < orders[i].pl.aggQty
    {
      var l, s, t := Table(), Table()[i], Table()[k];
      hide Run, OpsFor, Accepted, Agrees, SumAt, Replay, Peak, Book.Valid, Book.Standing, Book.History;
      books[s.inst].StandingApart();
      books[t.inst].StandingApart();
      RunAgrees(trace, |orders|, |books|, s.inst, s.side);
      var h := books[s.inst].StandingSum(l, s.inst, s.side, orders[i].pl);
      assert OnKey(t, Key(s.inst, s.side, s.price));
      PositiveDepart(l, i);
    }

    /** If the order rests, its level goes with it only when no other order rests there. */
    ghost predicate OnlyUser(l: seq<Slot>, i: nat)
      requires i < |orders| == |l|
      reads orders, set b | b in orders && b.pl != null :: b.pl
    {
      l[i].Live? ==>
        && orders[i].pl != null
        && forall k :: 0 <= k < |orders| && k != i && l[k].Live? && orders[k].pl == orders[i].pl ==>
             orders[i].qty < orders[i].pl.aggQty
    }

    lemma NoneLosesItsLevel(i: nat)
      requires Valid() && i < |orders|
      ensures OnlyUser(Table(), i)
    {
      hide Run, OpsFor, Accepted, Book.Valid, Book.Standing, Book.History, Book.Repr;
      if Table()[i].Live? {
        forall k | 0 <= k < |orders| && k != i && Table()[k].Live? && orders[k].pl == orders[i].pl
          ensures orders[i].qty < orders[i].pl.aggQty
        {
          Shared(i, k);
        }
      }
    }

    // ---- What holds between the orders and the levels, after every message ----

    /**
     An order is live exactly when it points to a level; then that level is now on its side of its
     instrument's book, at its price.
     */
    lemma OrderOnItsLevel(k: nat)
      requires Valid() && k < |orders|
      ensures |Table()| == |orders| && (Table()[k].Live? <==> orders[k].pl != null)
      ensures Table()[k].Empty? ==> orders[k].Cleared()
      ensures Resting(Table()[k]) == orders[k].qty
      ensures var s := Table()[k];
              s.Live? ==>
                && s.inst < |books| && books[s.inst].Rests(orders[k])
                && orders[k].side == s.side && orders[k].price == s.price
                && orders[k].pl in books[s.inst].Standing(s.side) && orders[k].pl.price == s.price
    {
      hide Run, OpsFor, Accepted, Book.Valid, Book.Standing, Book.History, Book.Repr;
      assert Matches(orders[k], Table()[k]);
    }

    /** The fields of every order object are what the table says; where it says nothing, they are cleared. */
    lemma TableFields()
      requires Valid()
      ensures |Table()| == |orders|
      ensures forall k :: 0 <= k < |orders| ==>
                match Table()[k]
                case Empty => orders[k].Cleared()
                case Live(_, side, price, qty) =>
                  && orders[k].side == side && orders[k].price == price && orders[k].qty == qty
                  && orders[k].pl != null && orders[k].pl.price == price
    {
      hide Run, OpsFor, Accepted, Book.Valid, Book.Standing, Book.History, Book.Repr;
      forall k | 0 <= k < |orders|
        ensures match Table()[k]
                case Empty => orders[k].Cleared()
                case Live(_, side, price, qty) =>
                  && orders[k].side == side && orders[k].price == price && orders[k].qty == qty
                  && orders[k].pl != null && orders[k].pl.price == price
      {
        assert Matches(orders[k], Table()[k]);
      }
    }

    /** The orders pointing to a level are those the table has at its place. */
    lemma PointsByKey(inst: nat, side: Side, level: PriceLevel, k: nat)
      requires Valid() && inst < |books| && level in books[inst].Standing(side) && k < |orders|
      ensures k < |Table()| && (orders[k].pl == level <==> OnKey(Table()[k], Key(inst, side, level.price)))
      ensures OnKey(Table()[k], Key(inst, side, level.price)) ==> orders[k].qty == Table()[k].qty
    {
      hide Run, OpsFor, Accepted, Book.Valid, Book.Standing, Book.History;
      var s := Table()[k];
      assert Matches(orders[k], s);
      books[inst].StandingApart();
      if s.Live? {
        books[s.inst].StandingApart();
        if OnKey(s, Key(inst, side, level.price)) {
          books[inst].OneAtPrice(side, orders[k].pl, level);
        }
      }
    }

    /** A level's aggregate is the sum over exactly the orders pointing to it, and there is at least one. */
    lemma LevelIsItsOrders(inst: nat, side: Side, level: PriceLevel)
      requires Valid() && inst < |books| && level in books[inst].Standing(side)
      ensures level.aggQty == SharesOn(orders, level) > 0
      ensures exists k :: 0 <= k < |orders| && orders[k].pl == level
    {
      hide Run, OpsFor, Accepted, Replay, Peak, Agrees, SumAt, SharesOn, Book.Valid, Book.Standing, Book.History;
      var l, key := Table(), Key(inst, side, level.price);
      TableSize();
      forall k | 0 <= k < |orders|
        ensures orders[k].pl == level <==> OnKey(l[k], key)
        ensures OnKey(l[k], key) ==> orders[k].qty == l[k].qty
      {
        PointsByKey(inst, side, level, k);
      }
      SharesOnSum(orders, level, l, key);
      RunAgrees(trace, |orders|, |books|, inst, side);
      var k := books[inst].StandingSum(l, inst, side, level);
      assert orders[k].pl == level;
    }

    /**
     The best price of a side is the extreme price of the live orders, with their total
     quantity; Pq(0, 0) when there is none.
     */
    lemma BestPrice(inst: nat, side: Side)
      requires Valid() && inst < |books|
      ensures var l, best := Table(), Best(books[inst].Shown(side));
              if forall p: u32 :: !Occupied(l, Key(inst, side, p)) then best == Pq(0, 0)
              else
                && Occupied(l, Key(inst, side, best.price))
                && best.qty == SumAt(l, Key(inst, side, best.price))
                && forall p: u32 :: Occupied(l, Key(inst, side, p)) ==>
                   if side == Bid then p <= best.price else p >= best.price
    {
      hide Run, OpsFor, Accepted, Replay, Peak, Sorted, Book.Valid, Book.Standing, Book.Shown, Book.History;
      books[inst].ShowsReplay(side);
      BestOfRun(trace, |orders|, |books|, inst, side);
    }

    /** All the shares resting on a side are in its levels, and nothing else is. */
    lemma SideHoldsItsShares(inst: nat, side: Side)
      requires Valid() && inst < |books|
      ensures LevelTotal(books[inst].Shown(side)) == Sum(Table(), OnSide(inst, side))
    {
      hide Run, OpsFor, Accepted, Replay, Peak, Sorted, Book.Valid, Book.Standing, Book.Shown, Book.History;
      books[inst].ShowsReplay(side);
      SharesOnSide(trace, |orders|, |books|, inst, side);
    }

    /** The pool has a node for each level now, and its statistic is the greatest depth of the whole run. */
    lemma DepthStatistic(inst: nat, side: Side)
      requires Valid() && inst < |books| && books[inst].Pool(side) != null
      ensures var book := books[inst]; var list := book.Pool(side).freeList;
              && list.used == |book.Shown(side)|
              && list.maxUsed == Peak(OpsFor(trace, |orders|, inst), side)
    {
      hide Run, OpsFor, Accepted, Replay, Peak, Sorted, Book.Valid, Book.Standing, Book.Shown, Book.History;
      books[inst].DepthShown(side);
    }

    // ---- What the handlers do to the objects ----

    method PlaceOrder(ghost l: seq<Slot>, locate: nat, oid: nat, side: Side, price: u32, qty: u32)
      requires Consistent(l) && locate < |books| && oid < |orders| && l[oid].Empty?
      modifies `Repr, Repr
      ensures Consistent(l[oid := Live(locate, side, price, qty)]) && fresh(Repr - old(Repr))
      ensures this !in Repr && trace == old(trace) && msgCount == old(msgCount)
      ensures forall i :: 0 <= i < |books| ==>
                books[i].History() == old(books[i].History()) + if i == locate then [Add(side, price, qty)] else []
    {
      hide Book.Object, Book.Part, Book.Repr, Book.Valid, Book.Rests, Book.History;
      var o := orders[oid];
      o.price := price;
      o.qty := qty;
      o.side := side;
      PlaceInBook(l, locate, oid, Live(locate, side, price, qty));
    }

    /** The call on the book, when the order's fields are set to what `y` says. */
    method PlaceInBook(ghost l: seq<Slot>, locate: nat, oid: nat, ghost y: Slot)
      requires Separate() && |l| == |orders| && forall i :: 0 <= i < |books| ==> books[i].Valid()
      requires locate < |books| && oid < |orders| && l[oid].Empty?
      requires forall k :: 0 <= k < |orders| && k != oid ==> Matches(orders[k], l[k])
      requires y == Live(locate, orders[oid].side, orders[oid].price, orders[oid].qty)
      modifies `Repr, Repr
      ensures Consistent(l[oid := y]) && fresh(Repr - old(Repr))
      ensures this !in Repr && trace == old(trace) && msgCount == old(msgCount)
      ensures forall i :: 0 <= i < |books| ==>
                books[i].History() == old(books[i].History()) +
                if i == locate then [Add(y.side, y.price, y.qty)] else []
    {
      hide Book.Object, Book.Part, Book.Repr, Book.Valid, Book.Rests, Book.History;
      var book := books[locate];
      book.AddOrder(orders[oid]);
      Repr := Repr + book.Repr();
      assert forall k :: 0 <= k < |orders| && k != oid ==> Matches(orders[k], l[k]);
      assert forall i :: 0 <= i < |books| ==> books[i].Valid();
      assert Separate();
    }

    method ReduceOrder(ghost l: seq<Slot>, locate: nat, oid: nat, qty: u32)
      requires Consistent(l) && locate < |books| && oid < |orders| && OnlyUser(l, oid)
      requires l[oid].Live? ==> l[oid].inst == locate
      modifies `Repr, Repr
      ensures Consistent(l[oid := Reduced(l[oid], qty)]) && fresh(Repr - old(Repr))
      ensures this !in Repr && trace == old(trace) && msgCount == old(msgCount)
      ensures forall i :: 0 <= i < |books| ==>
                books[i].History() == old(books[i].History()) + if i == locate then ReduceOps(l[oid], qty) else []
    {
      hide Book.Object, Book.Part, Book.Repr, Book.Valid, Book.Rests, Book.History;
      var o, book := orders[oid], books[locate];
      book.CancelOrder(o, qty);
      Repr := Repr + book.Repr();
      assert forall k :: 0 <= k < |orders| && k != oid ==> Matches(orders[k], l[k]);
      assert forall i :: 0 <= i < |books| ==> books[i].Valid();
      assert Separate();
    }

    method RemoveOrder(ghost l: seq<Slot>, locate: nat, oid: nat)
      requires Consistent(l) && locate < |books| && oid < |orders| && OnlyUser(l, oid)
      requires l[oid].Live? ==> l[oid].inst == locate
      modifies `Repr, Repr
      ensures Consistent(l[oid := Empty]) && fresh(Repr - old(Repr))
      ensures this !in Repr && trace == old(trace) && msgCount == old(msgCount)
      ensures forall i :: 0 <= i < |books| ==>
                books[i].History() == old(books[i].History()) + if i == locate then RemoveOps(l[oid]) else []
    {
      hide Book.Object, Book.Part, Book.Valid, Book.Rests, Book.History;
      var o, book := orders[oid], books[locate];
      book.DeleteOrder(o);
      Repr := Repr + book.Repr();
      o.Clear();
      assert forall k :: 0 <= k < |orders| && k != oid ==> Matches(orders[k], l[k]);
      assert forall i :: 0 <= i < |books| ==> books[i].Valid();
      assert Separate();
    }

    /** An order number that is not live leaves the new order on the bid side, where unused orders are. */
    method SwapOrder(ghost l: seq<Slot>, locate: nat, oid: nat, newOid: nat, price: u32, qty: u32)
      requires Consistent(l) && locate < |books| && oid < |orders| && newOid < |orders| && OnlyUser(l, oid)
      requires l[newOid].Empty? && (l[oid].Live? ==> l[oid].inst == locate)
      modifies `Repr, Repr
      ensures Consistent(l[oid := Empty][newOid := Live(locate, SideOf(l[oid]), price, qty)])
      ensures this !in Repr && trace == old(trace) && msgCount == old(msgCount) && fresh(Repr - old(Repr))
      ensures forall i :: 0 <= i < |books| ==>
                books[i].History() == old(books[i].History()) +
                if i == locate then RemoveOps(l[oid]) + [Add(SideOf(l[oid]), price, qty)] else []
    {
      hide Book.Object, Book.Part, Book.Repr, Book.Valid, Book.Rests, Book.History;
      var oldOrder, newOrder := orders[oid], orders[newOid];
      newOrder.side := oldOrder.side;
      newOrder.price := price;
      newOrder.qty := qty;
      SwapInBook(l, locate, oid, newOid, Live(locate, SideOf(l[oid]), price, qty));
    }

    /** The call on the book, when the new order's fields are set to what `y` says. */
    method SwapInBook(ghost l: seq<Slot>, locate: nat, oid: nat, newOid: nat, ghost y: Slot)
      requires Separate() && |l| == |orders| && forall i :: 0 <= i < |books| ==> books[i].Valid()
      requires locate < |books| && oid < |orders| && newOid < |orders| && OnlyUser(l, oid)
      requires forall k :: 0 <= k < |orders| && k != newOid ==> Matches(orders[k], l[k])
      requires l[newOid].Empty? && orders[newOid].pl == null && (l[oid].Live? ==> l[oid].inst == locate)
      requires y == Live(locate, orders[newOid].side, orders[newOid].price, orders[newOid].qty)
      modifies `Repr, Repr
      ensures Consistent(l[oid := Empty][newOid := y]) && fresh(Repr - old(Repr))
      ensures this !in Repr && trace == old(trace) && msgCount == old(msgCount)
      ensures forall i :: 0 <= i < |books| ==>
                books[i].History() == old(books[i].History()) +
                if i == locate then RemoveOps(l[oid]) + [Add(y.side, y.price, y.qty)] else []
    {
      hide Book.Object, Book.Part, Book.Repr, Book.Valid, Book.Rests, Book.History;
      var book := books[locate];
      book.ReplaceOrder(orders[oid], orders[newOid]);
      Repr := Repr + book.Repr();
      assert forall k :: 0 <= k < |orders| && k != oid && k != newOid ==> Matches(orders[k], l[k]);
      assert forall i :: 0 <= i < |books| ==> books[i].Valid();
      assert Separate();
    }

    // ---- Handlers ----

    /** An order arrives; the handlers with and without attribution do the same. */
    method HandleAddOrder(m: Msg)
      requires Valid() && m.AddOrder? && Accepts(Table(), |books|, m)
      modifies this, Repr
      ensures Valid() && trace == old(trace) + [m] && fresh(Repr - old(Repr)) && msgCount == old(msgCount)
      ensures m.oid < |orders| && var o := orders[m.oid];
              o.side == m.side && o.price == m.price && o.qty == m.shares && o.pl != null && o.pl.price == m.price
      ensures forall k :: 0 <= k < |orders| && k != m.oid ==>
                orders[k].side == old(orders[k].side) && orders[k].price == old(orders[k].price)
                && orders[k].qty == old(orders[k].qty)
    {
      hide Consistent, Accepts, Run, OpsFor, Accepted, Step, MsgOps;
      TableFields();
      StepEffect(Table(), |books|, m);
      TraceStep(trace, m, |orders|, |books|);
      AddShape(Table(), |books|, m);
      TableSize();
      PlaceOrder(Table(), m.locate, m.oid, m.side, m.price, m.shares);
      trace := trace + [m];
      TableFields();
    }

    /** A cancel or an execution, with or without a price: to the book they are one. */
    method HandleOrderCancel(m: Msg)
      requires Valid() && (m.OrderCancel? || m.OrderExecuted? || m.OrderExecutedWithPrice?)
      requires Accepts(Table(), |books|, m)
      modifies this, Repr
      ensures Valid() && trace == old(trace) + [m] && fresh(Repr - old(Repr)) && msgCount == old(msgCount)
      ensures m.oid < |orders| && var o := orders[m.oid];
              if m.shares < old(o.qty) then
                && o.side == old(o.side) && o.price == old(o.price) && o.qty == old(o.qty) - m.shares
                && o.pl != null && o.pl.price == o.price
              else o.Cleared()
      ensures forall k :: 0 <= k < |orders| && k != m.oid ==>
                orders[k].side == old(orders[k].side) && orders[k].price == old(orders[k].price)
                && orders[k].qty == old(orders[k].qty)
    {
      hide Consistent, Accepts, Run, OpsFor, Accepted, Step, MsgOps, Reduced, ReduceOps, OnlyUser;
      TableFields();
      StepEffect(Table(), |books|, m);
      TraceStep(trace, m, |orders|, |books|);
      CancelShape(Table(), |books|, m);
      TableSize();
      NoneLosesItsLevel(m.oid);
      ReduceOrder(Table(), m.locate, m.oid, m.shares);
      trace := trace + [m];
      TableFields();
    }

    method HandleOrderDelete(m: Msg)
      requires Valid() && m.OrderDelete? && Accepts(Table(), |books|, m)
      modifies this, Repr
      ensures Valid() && trace == old(trace) + [m] && fresh(Repr - old(Repr)) && msgCount == old(msgCount)
      ensures m.oid < |orders| && orders[m.oid].Cleared()
      ensures forall k :: 0 <= k < |orders| && k != m.oid ==>
                orders[k].side == old(orders[k].side) && orders[k].price == old(orders[k].price)
                && orders[k].qty == old(orders[k].qty)
    {
      hide Consistent, Accepts, Run, OpsFor, Accepted, Step, MsgOps, RemoveOps, OnlyUser;
      TableFields();
      StepEffect(Table(), |books|, m);
      TraceStep(trace, m, |orders|, |books|);
      DeleteShape(Table(), |books|, m);
      TableSize();
      NoneLosesItsLevel(m.oid);
      RemoveOrder(Table(), m.locate, m.oid);
      trace := trace + [m];
      TableFields();
    }

    method HandleOrderReplace(m: Msg)
      requires Valid() && m.OrderReplace? && Accepts(Table(), |books|, m)
      modifies this, Repr
      ensures Valid() && trace == old(trace) + [m] && fresh(Repr - old(Repr)) && msgCount == old(msgCount)
      ensures m.oid < |orders| && m.newOid < |orders| && var o := orders[m.newOid];
              && o.side == old(orders[m.oid].side) && o.price == m.price && o.qty == m.shares
              && o.pl != null && o.pl.price == m.price
      ensures m.oid != m.newOid ==> orders[m.oid].Cleared()
      ensures forall k :: 0 <= k < |orders| && k != m.oid && k != m.newOid ==>
                orders[k].side == old(orders[k].side) && orders[k].price == old(orders[k].price)
                && orders[k].qty == old(orders[k].qty)
    {
      hide Consistent, Accepts, Run, OpsFor, Accepted, Step, MsgOps, RemoveOps, OnlyUser;
      TableFields();
      StepEffect(Table(), |books|, m);
      TraceStep(trace, m, |orders|, |books|);
      ReplaceShape(Table(), |books|, m);
      TableSize();
      NoneLosesItsLevel(m.oid);
      SwapOrder(Table(), m.locate, m.oid, m.newOid, m.price, m.shares);
      trace := trace + [m];
      TableFields();
    }

    /** Everything else leaves orders and books alone. */
    method HandleOther(m: Msg)
      requires Valid() && m.Other? && Accepts(Table(), |books|, m)
      modifies this
      ensures Valid() && trace == old(trace) + [m] && Repr == old(Repr) && msgCount == old(msgCount)
    {
      hide Consistent, Accepts, Run, OpsFor, Accepted;
      TableSize();
      TraceStep(trace, m, |orders|, |books|);
      trace := trace + [m];
    }

    lemma TableSize()
      requires Valid()
      ensures |Table()| == |orders| && this !in Repr
    {
    }

    /** The `switch` over the message type. */
    method Dispatch(m: Msg)
      requires Valid() && Accepts(Table(), |books|, m)
      modifies this, Repr
      ensures Valid() && trace == old(trace) + [m] && fresh(Repr - old(Repr)) && msgCount == old(msgCount)
    {
      hide Valid, Accepts;
      match m
      case AddOrder(_, _, _, _, _) => HandleAddOrder(m);
      case OrderDelete(_, _) => HandleOrderDelete(m);
      case OrderReplace(_, _, _, _, _) => HandleOrderReplace(m);
      case Other(_, _) => HandleOther(m);
      case _ => HandleOrderCancel(m);
    }

    /** Handles messages that come decoded. */
    method Handle(messages: seq<Msg>)
      requires Valid() && Accepted(trace + messages, |orders|, |books|)
      modifies this, Repr
      ensures Valid() && trace == old(trace) + messages && fresh(Repr - old(Repr)) && msgCount == old(msgCount)
    {
      hide Valid, Accepts, Accepted, Run;
      for i := 0 to |messages|
        invariant Valid() && fresh(Repr - old(Repr)) && msgCount == old(msgCount)
        invariant trace == old(trace) + messages[..i]
      {
        assert messages[..i + 1] == messages[..i] + [messages[i]];
        NextAccepted(old(trace), trace, messages[..i], messages[i], messages, |orders|, |books|);
        Dispatch(messages[i]);
      }
    }

    /**
     Dispatches the complete messages at the front of the buffer. An unknown type
     aborts the process: then the messages before it were dispatched.
     */
    method Parse(buf: seq<byte>) returns (bytesProcessed: nat, aborted: bool)
      requires Valid() && Scan(buf).end != Short
      requires Accepted(trace + Scan(buf).msgs, |orders|, |books|)
      modifies this, Repr
      ensures Valid() && trace == old(trace) + Scan(buf).msgs && fresh(Repr - old(Repr))
      ensures msgCount == old(msgCount) + |Scan(buf).msgs|
      ensures bytesProcessed == Scan(buf).used && (aborted <==> Scan(buf).end == UnknownType)
    {
      hide Consistent, Recorded, Accepted, Accepts, Run, Scan, Decode, Known, ReadSize, MsgLen, Then, Front;
      bytesProcessed, aborted := 0, false;
      var rest := buf;
      ghost var done: seq<Msg>, start := [], msgCount;
      ThenNothing(Scan(buf), trace);
      while |rest| > HEADER_SIZE
        invariant Valid() && fresh(Repr - old(Repr))
        invariant trace == old(trace) + done && msgCount == old(msgCount) + |done|
        invariant !aborted && Scan(buf) == Then(Scanned(done, bytesProcessed, NeedMore), Scan(rest))
        decreases |rest|
      {
        var msgLen := MsgLen(rest);
        // not enough bytes for the whole message: read nothing
        if msgLen > |rest| {
          break;
        }
        ScanTurn(rest, done, bytesProcessed);
        if !Known(rest[2]) {
          aborted := true;
          return;
        }
        var m := Decode(rest[..msgLen]);
        NextAccepted(old(trace), trace, done, m, Scan(buf).msgs, |orders|, |books|);
        Dispatch(m);
        TableSize();
        msgCount := msgCount + 1;
        done := done + [m];
        rest := rest[msgLen..];
        bytesProcessed := bytesProcessed + msgLen;
      }
      ScanStops(rest, done, bytesProcessed);
    }
  }

  method NewOrders(n: nat) returns (os: seq<Order>)
    ensures |os| == n && forall k :: 0 <= k < n ==> fresh(os[k]) && os[k].Cleared()
    ensures forall j, k :: 0 <= j < n && 0 <= k < n && j != k ==> os[j] != os[k]
  {
    os := [];
    while |os| < n
      invariant |os| <= n && forall k :: 0 <= k < |os| ==> fresh(os[k]) && os[k].Cleared()
      invariant forall j, k :: 0 <= j < |os| && 0 <= k < |os| && j != k ==> os[j] != os[k]
    {
      var o := new Order();
      os := os + [o];
    }
  }

  method NewBooks(n: nat, kind: Kind) returns (bs: seq<Book>, ghost all: set<object>)
    ensures |bs| == n && fresh(all)
    ensures forall k :: 0 <= k < n ==>
              bs[k].Valid() && bs[k].Repr() <= all && bs[k].History() == [] && bs[k].IsKind(kind)
    ensures forall j, k :: 0 <= j < n && 0 <= k < n && j != k ==> bs[j].Repr() !! bs[k].Repr()
  {
    hide Book.Valid, Book.History, Book.IsKind;
    bs, all := [], {};
    while |bs| < n
      invariant |bs| <= n && fresh(all)
      invariant forall k :: 0 <= k < |bs| ==>
                  bs[k].Valid() && bs[k].Repr() <= all && bs[k].History() == [] && bs[k].IsKind(kind)
      invariant forall j, k :: 0 <= j < |bs| && 0 <= k < |bs| && j != k ==> bs[j].Repr() !! bs[k].Repr()
    {
      var b := NewBook(kind);
      bs, all := bs + [b], all + b.Repr();
    }
  }

  /** The shares of the orders that point to a level. */
  ghost function SharesOn(os: seq<Order>, level: PriceLevel): nat
    reads os
  {
    if os == [] then 0
    else
      var o := os[|os| - 1];
      SharesOn(os[..|os| - 1], level) + if o.pl == level then o.qty else 0
  }

  lemma {:induction false} SharesOnSum(os: seq<Order>, level: PriceLevel, l: seq<Slot>, key: Key)
    requires |l| == |os|
    requires forall k :: 0 <= k < |os| ==>
               if OnKey(l[k], key) then os[k].pl == level && os[k].qty == l[k].qty else os[k].pl != level
    ensures SharesOn(os, level) == SumAt(l, key)
  {
    if os != [] {
      SharesOnSum(os[..|os| - 1], level, l[..|l| - 1], key);
    }
  }

  lemma AddShape(l: seq<Slot>, insts: nat, m: Msg)
    requires m.AddOrder? && Accepts(l, insts, m)
    ensures m.locate < insts && m.oid < |l| && l[m.oid].Empty?
    ensures Step(l, m) == l[m.oid := Live(m.locate, m.side, m.price, m.shares)]
    ensures forall i :: MsgOps(l, m, i) == if i == m.locate then [Add(m.side, m.price, m.shares)] else []
  {
  }

  lemma CancelShape(l: seq<Slot>, insts: nat, m: Msg)
    requires (m.OrderCancel? || m.OrderExecuted? || m.OrderExecutedWithPrice?) && Accepts(l, insts, m)
    ensures m.locate < insts && m.oid < |l| && (l[m.oid].Live? ==> l[m.oid].inst == m.locate)
    ensures Step(l, m) == l[m.oid := Reduced(l[m.oid], m.shares)]
    ensures forall i :: MsgOps(l, m, i) == if i == m.locate then ReduceOps(l[m.oid], m.shares) else []
  {
  }

  lemma DeleteShape(l: seq<Slot>, insts: nat, m: Msg)
    requires m.OrderDelete? && Accepts(l, insts, m)
    ensures m.locate < insts && m.oid < |l| && (l[m.oid].Live? ==> l[m.oid].inst == m.locate)
    ensures Step(l, m) == l[m.oid := Empty]
    ensures forall i :: MsgOps(l, m, i) == if i == m.locate then RemoveOps(l[m.oid]) else []
  {
  }

  lemma ReplaceShape(l: seq<Slot>, insts: nat, m: Msg)
    requires m.OrderReplace? && Accepts(l, insts, m)
    ensures m.locate < insts && m.oid < |l| && m.newOid < |l|
    ensures (l[m.oid].Live? ==> l[m.oid].inst == m.locate) && l[m.newOid].Empty?
    ensures Step(l, m) == l[m.oid := Empty][m.newOid := Live(m.locate, SideOf(l[m.oid]), m.price, m.shares)]
    ensures forall i :: MsgOps(l, m, i) ==
              if i == m.locate then RemoveOps(l[m.oid]) + [Add(SideOf(l[m.oid]), m.price, m.shares)] else []
  {
  }

  /** What one more accepted message does to the table and to the calls on each book. */
  lemma TraceStep(trace: seq<Msg>, m: Msg, n: nat, insts: nat)
    requires Accepted(trace, n, insts) && Accepts(Run(trace, n), insts, m)
    ensures Accepted(trace + [m], n, insts) && Run(trace + [m], n) == Step(Run(trace, n), m)
    ensures |Run(trace + [m], n)| == n
    ensures forall i: nat :: OpsFor(trace + [m], n, i) == OpsFor(trace, n, i) + MsgOps(Run(trace, n), m, i)
    ensures forall i: nat :: OpsFor(trace, n, i) + [] == OpsFor(trace, n, i)
  {
    RunSnoc(trace, m, n, insts);
    RunLength(trace + [m], n);
  }

  lemma ThenNothing(s: Scanned, trace: seq<Msg>)
    ensures s == Then(Scanned([], 0, NeedMore), s)
    ensures trace + [] == trace
  {
    assert [] + s.msgs == s.msgs;
  }

  /** A message in front of the second scan, or at the end of the first. */
  lemma FrontMoves(s: Scanned, m: Msg, n: nat, t: Scanned)
    ensures Then(s, Front(m, n, t)) == Then(Then(s, Front(m, n, Scanned([], 0, s.end))), t)
    ensures Then(s, Front(m, n, Scanned([], 0, s.end))) == Scanned(s.msgs + [m], s.used + n, s.end)
    ensures s.msgs + [m] <= Then(s, Front(m, n, t)).msgs
  {
    assert s.msgs + ([m] + t.msgs) == s.msgs + [m] + t.msgs;
  }

  /** One turn of the loop on what is left of the buffer. */
  lemma ScanTurn(rest: seq<byte>, done: seq<Msg>, used: nat)
    requires Complete(rest)
    ensures var n, s := MsgLen(rest), Scanned(done, used, NeedMore);
            if !Known(rest[2]) then Then(s, Scan(rest)) == Scanned(done, used, UnknownType)
            else if n < ReadSize(rest[2]) then Then(s, Scan(rest)).end == Short
            else
              && rest[..n][2] == rest[2] && n > 0
              && Then(s, Scan(rest)) == Then(Scanned(done + [Decode(rest[..n])], used + n, NeedMore), Scan(rest[n..]))
              && done + [Decode(rest[..n])] <= Then(s, Scan(rest)).msgs
  {
    hide Decode, MsgLen, Complete, ReadSize;
    ScanFirst(rest, []);
    var n := MsgLen(rest);
    if Known(rest[2]) && n >= ReadSize(rest[2]) {
      hide Scan, Then, Front;
      FrontMoves(Scanned(done, used, NeedMore), Decode(rest[..n]), n, Scan(rest[n..]));
    }
  }

  lemma ScanStops(rest: seq<byte>, done: seq<Msg>, used: nat)
    requires !Complete(rest)
    ensures Then(Scanned(done, used, NeedMore), Scan(rest)) == Scanned(done, used, NeedMore)
  {
  }

  lemma {:induction false} AcceptedPrefix(trace: seq<Msg>, more: seq<Msg>, n: nat, insts: nat)
    requires Accepted(trace + more, n, insts)
    ensures Accepted(trace, n, insts)
    decreases |more|
  {
    if more == [] {
      assert trace + more == trace;
    } else {
      var init := more[..|more| - 1];
      assert (trace + more)[..|trace + more| - 1] == trace + init;
      AcceptedPrefix(trace, init, n, insts);
    }
  }

  /** In an accepted run the next message is accepted. */
  lemma NextAccepted(start: seq<Msg>, trace: seq<Msg>, done: seq<Msg>, m: Msg, all: seq<Msg>, n: nat, insts: nat)
    requires trace == start + done && Accepted(start + all, n, insts)
    requires done + [m] <= all
    ensures Accepts(Run(trace, n), insts, m)
    ensures trace + [m] == start + (done + [m])
  {
    var rest := all[|done| + 1..];
    assert start + all == trace + [m] + rest;
    AcceptedPrefix(trace + [m], rest, n, insts);
    RunSnoc(trace, m, n, insts);
  }

  /** Two parsers have the same orders live, on the same levels of books that show the same. */
  ghost predicate SameState(a: Parser, b: Parser)
    reads *
  {
    && |a.orders| == |b.orders| && |a.books| == |b.books| && a.Table() == b.Table()
    && (forall k :: 0 <= k < |a.orders| ==> SameOrder(a.orders[k], b.orders[k]))
    && (forall i :: 0 <= i < |a.books| ==> a.books[i].History() == b.books[i].History())
    && (forall i, side :: 0 <= i < |a.books| ==> a.books[i].Shown(side) == b.books[i].Shown(side))
  }

  /** Alike in every field, down to the level they point to. */
  ghost predicate SameOrder(o: Order, p: Order)
    reads o, p, o.pl, p.pl
  {
    && o.side == p.side && o.price == p.price && o.qty == p.qty && (o.pl == null <==> p.pl == null)
    && (o.pl != null && p.pl != null ==> o.pl.price == p.pl.price && o.pl.aggQty == p.pl.aggQty)
  }

  /** Parsers that handled the same messages are in the same state, whatever the kinds of their books. */
  lemma SameTraceSameState(a: Parser, b: Parser)
    requires a.Valid() && b.Valid() && a.trace == b.trace
    requires |a.orders| == |b.orders| && |a.books| == |b.books|
    ensures SameState(a, b)
  {
    hide Run, OpsFor, Accepted, Replay, Peak, Sorted, Content, Book.Valid, Book.Standing, Book.Shown, Book.History;
    forall k | 0 <= k < |a.orders|
      ensures SameOrder(a.orders[k], b.orders[k])
    {
      a.OrderOnItsLevel(k);
      b.OrderOnItsLevel(k);
      var s := a.Table()[k];
      if s.Live? {
        a.books[s.inst].StandingShown(s.side, a.orders[k].pl);
        b.books[s.inst].StandingShown(s.side, b.orders[k].pl);
      }
    }
    forall i, side | 0 <= i < |a.books|
      ensures a.books[i].Shown(side) == b.books[i].Shown(side)
    {
      a.books[i].ShowsReplay(side);
      b.books[i].ShowsReplay(side);
    }
  }
}
