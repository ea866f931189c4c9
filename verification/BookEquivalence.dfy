/** The four books are interchangeable. */
module BookEquivalence {
  import opened Core
  import opened Ladder
  import opened BookOps
  import opened LevelLists
  import opened LevelMaps
  import opened ListBooks
  import opened HashedBooks
  import opened MapBooks
  import opened Books
  import opened Session
  import opened Parsers

  /** Books of the four kinds that received the same calls show the same levels, in the same order, on both sides. */
  lemma FourBooksAgree(basic: ListBook, pooled: ListBook, hashed: HashedBook, mapped: MapBook)
    requires basic.Valid() && pooled.Valid() && hashed.Valid() && mapped.Valid()
    requires basic.history == pooled.history == hashed.history == mapped.history
    ensures View(basic.bids.nodes) == View(pooled.bids.nodes) == View(hashed.bids.nodes)
            == InOrder(Bid, Quantities(mapped.bids.levels))
    ensures View(basic.asks.nodes) == View(pooled.asks.nodes) == View(hashed.asks.nodes)
            == InOrder(Ask, Quantities(mapped.asks.levels))
  {
    hide View, Quantities, InOrder, LevelList.Valid, LevelMap.Valid, Indexed, Replay, Peak;
    IterationShowsReplay(mapped.bids, mapped.history);
    IterationShowsReplay(mapped.asks, mapped.history);
  }

  /**
   Four-way equivalence. One sequence of order messages drives four order tables, each over books of
   another kind. All that is asked of it is what a feed may send to the abstract table; then all
   four have the same orders live on the same levels, their books received the same calls and show the same.
   */
  method FourTables(messages: seq<Msg>, numInstruments: nat, numOrders: nat)
    returns (basic: Parser, mp: Parser, hashed: Parser, mapped: Parser)
    requires Accepted(messages, numOrders, numInstruments)
    ensures basic.Valid() && mp.Valid() && hashed.Valid() && mapped.Valid()
    ensures basic.trace == mp.trace == hashed.trace == mapped.trace == messages
    ensures forall i :: 0 <= i < numInstruments == |basic.books| ==> basic.books[i].IsKind(BasicKind)
    ensures forall i :: 0 <= i < numInstruments == |mp.books| ==> mp.books[i].IsKind(MpKind)
    ensures forall i :: 0 <= i < numInstruments == |hashed.books| ==> hashed.books[i].IsKind(HashedKind)
    ensures forall i :: 0 <= i < numInstruments == |mapped.books| ==> mapped.books[i].IsKind(MapKind)
    ensures SameState(basic, mp) && SameState(basic, hashed) && SameState(basic, mapped)
  {
    hide Parser.Valid, SameState, Accepted, Book.IsKind;
    basic := new Parser(numInstruments, numOrders, BasicKind);
    mp := new Parser(numInstruments, numOrders, MpKind);
    hashed := new Parser(numInstruments, numOrders, HashedKind);
    mapped := new Parser(numInstruments, numOrders, MapKind);
    assert [] + messages == messages;
    assert basic.Repr !! mp.Repr && basic.Repr !! hashed.Repr && basic.Repr !! mapped.Repr;
    assert mp.Repr !! hashed.Repr && mp.Repr !! mapped.Repr && hashed.Repr !! mapped.Repr;
    basic.Handle(messages);
    mp.Handle(messages);
    hashed.Handle(messages);
    mapped.Handle(messages);
    SameTraceSameState(basic, mp);
    SameTraceSameState(basic, hashed);
    SameTraceSameState(basic, mapped);
  }

  /** Tables in the same state have the same best prices: the extremes of what their books received. */
  lemma SameBest(a: Parser, b: Parser, inst: nat, side: Side)
    requires a.Valid() && b.Valid() && SameState(a, b) && inst < |a.books|
    ensures Best(a.books[inst].Shown(side)) == Best(b.books[inst].Shown(side))
            == Best(Replay(OpsFor(b.trace, |b.orders|, inst)).On(side))
  {
    hide Book.Valid, Book.Standing, Book.Shown, Book.History, Replay, OpsFor, Run, Accepted;
    b.books[inst].ShowsReplay(side);
  }

  /** The books may have received the orders in different sequence: if only orders arrived, they still agree. */
  lemma ArrivalOrderDoesNotShow(a: ListBook, b: ListBook)
    requires a.Valid() && b.Valid()
    requires multiset(a.history) == multiset(b.history) && forall op :: op in multiset(a.history) ==> op.Add?
    ensures View(a.bids.nodes) == View(b.bids.nodes) && View(a.asks.nodes) == View(b.asks.nodes)
  {
    hide View, LevelList.Valid, Replay, Peak;
    ArrivalOrder(a.history, b.history);
  }

  /** The prices in the hashed book's index are exactly the prices of its levels. */
  lemma IndexAgrees(hashed: HashedBook)
    requires hashed.Valid()
    ensures hashed.bidMap.Keys == Content(Replay(hashed.history).bids).Keys
    ensures hashed.askMap.Keys == Content(Replay(hashed.history).asks).Keys
  {
    hide LevelList.Valid, Replay, Peak;
    ReplayOrdered(hashed.history);
    IndexKeys(Bid, hashed.bids.nodes, hashed.bidMap);
    IndexKeys(Ask, hashed.asks.nodes, hashed.askMap);
  }

  lemma IndexKeys(side: Side, nodes: seq<PriceLevel>, index: map<u32, PriceLevel>)
    requires Indexed(nodes, index) && Sorted(side, View(nodes))
    ensures index.Keys == Content(View(nodes)).Keys
  {
    hide View;
    var s := View(nodes);
    forall p | p in index
      ensures p in Content(s)
    {
      var k :| 0 <= k < |nodes| && nodes[k] == index[p];
      FindsItself(side, s, k);
    }
    forall p | p in Content(s)
      ensures p in index
    {
      var k := PriceAt(s, p);
      assert nodes[k] in nodes;
    }
  }

  lemma {:induction false} PriceAt(s: seq<Level>, p: u32) returns (k: nat)
    requires p in Content(s)
    ensures k < |s| && s[k].price == p
  {
    if s[0].price == p {
      k := 0;
    } else {
      k := PriceAt(s[1..], p);
      k := k + 1;
    }
  }
}
