/**
 One side of a book as a value: the price levels from best to worst. What the
 four book classes do to a side is specified by `AddTo`, `DecFrom` and `DropFrom`, and
 each of these is characterised on the price-to-quantity map of the side.
 */
module Ladder {
  import opened Core

  datatype Level = Level(price: u32, qty: u32)

  /** Price `p` stands before price `q`: bids descend, asks ascend. */
  predicate Better(side: Side, p: u32, q: u32) {
    if side == Bid then p > q else p < q
  }

  predicate Sorted(side: Side, s: seq<Level>) {
    |s| <= 1 || (Better(side, s[0].price, s[1].price) && Sorted(side, s[1..]))
  }

  /** An order of quantity `q` arrives at price `p`. */
  function AddTo(side: Side, s: seq<Level>, p: u32, q: u32): seq<Level> {
    if s == [] || Better(side, p, s[0].price) then [Level(p, q)] + s
    else if s[0].price == p then [Level(p, Inc32(s[0].qty, q))] + s[1..]
    else [s[0]] + AddTo(side, s[1..], p, q)
  }

  /** Quantity `q` leaves the level at `p`; the level stays. */
  function DecFrom(s: seq<Level>, p: u32, q: u32): seq<Level> {
    if s == [] then s
    else if s[0].price == p then [Level(p, Dec32(s[0].qty, q))] + s[1..]
    else [s[0]] + DecFrom(s[1..], p, q)
  }

  /** An order of quantity `q` leaves the level at `p`, and the level goes with it unless it holds more. */
  function DropFrom(s: seq<Level>, p: u32, q: u32): seq<Level> {
    if s == [] then s
    else if s[0].price == p then (if q < s[0].qty then [Level(p, s[0].qty - q)] else []) + s[1..]
    else [s[0]] + DropFrom(s[1..], p, q)
  }

  /** The head of the side, as `best_bid` and `best_ask` report it. */
  function Best(s: seq<Level>): Pq {
    if s == [] then Pq(0, 0) else Pq(s[0].price, s[0].qty)
  }

  // ---- The map a side stands for ----

  function Content(s: seq<Level>): map<u32, u32> {
    if s == [] then map[] else Content(s[1..])[s[0].price := s[0].qty]
  }

  /** The quantity a map holds at a price, 0 when it has no such level. */
  function At(m: map<u32, u32>, p: u32): u32 {
    if p in m then m[p] else 0
  }

  /** Every price of a sorted side stands behind whatever stands before its head. */
  lemma {:induction false} HeadFirst(side: Side, s: seq<Level>, p: u32)
    requires Sorted(side, s)
    requires s == [] || Better(side, p, s[0].price)
    ensures forall r :: r in Content(s) ==> Better(side, p, r)
  {
    if |s| > 0 {
      HeadFirst(side, s[1..], p);
    }
  }

  lemma {:induction false} AddContent(side: Side, s: seq<Level>, p: u32, q: u32)
    requires Sorted(side, s)
    ensures Sorted(side, AddTo(side, s, p, q))
    ensures Content(AddTo(side, s, p, q)) == Content(s)[p := Inc32(At(Content(s), p), q)]
  {
    var t := AddTo(side, s, p, q);
    if s == [] || Better(side, p, s[0].price) {
      HeadFirst(side, s, p);
      assert t[1..] == s;
    } else if s[0].price == p {
      assert t[1..] == s[1..];
    } else {
      AddContent(side, s[1..], p, q);
      assert t[1..] == AddTo(side, s[1..], p, q);
    }
  }

  lemma {:induction false} DecContent(side: Side, s: seq<Level>, p: u32, q: u32)
    requires Sorted(side, s)
    ensures Sorted(side, DecFrom(s, p, q)) && |DecFrom(s, p, q)| == |s|
    ensures forall i :: 0 <= i < |s| ==> DecFrom(s, p, q)[i].price == s[i].price
    ensures Content(DecFrom(s, p, q)) ==
            (if p in Content(s) then Content(s)[p := Dec32(Content(s)[p], q)] else Content(s))
  {
    if s != [] {
      DecContent(side, s[1..], p, q);
      assert DecFrom(s, p, q)[1..] == if s[0].price == p then s[1..] else DecFrom(s[1..], p, q);
    }
  }

  lemma {:induction false} DropContent(side: Side, s: seq<Level>, p: u32, q: u32)
    requires Sorted(side, s)
    ensures Sorted(side, DropFrom(s, p, q))
    ensures forall r :: (s == [] || Better(side, r, s[0].price)) ==>
              DropFrom(s, p, q) == [] || Better(side, r, DropFrom(s, p, q)[0].price)
    ensures Content(DropFrom(s, p, q)) ==
            (if p !in Content(s) then Content(s)
             else if q < Content(s)[p] then Content(s)[p := Content(s)[p] - q]
             else Content(s) - {p})
  {
    if s != [] {
      DropContent(side, s[1..], p, q);
      var t := DropFrom(s, p, q);
      if s[0].price == p {
        HeadFirst(side, s[1..], p);
        if q < s[0].qty {
          assert t[1..] == s[1..];
        } else {
          assert t == s[1..];
        }
      } else {
        assert t[1..] == DropFrom(s[1..], p, q);
      }
    }
  }

  lemma {:induction false} ContentSize(side: Side, s: seq<Level>)
    requires Sorted(side, s)
    ensures |Content(s)| == |s|
  {
    if s != [] {
      HeadFirst(side, s[1..], s[0].price);
      ContentSize(side, s[1..]);
    }
  }

  /** The price of a non-empty map that stands before all its others. */
  predicate First(side: Side, m: set<u32>, p: u32) {
    p in m && forall q :: q in m && q != p ==> Better(side, p, q)
  }

  lemma OnlyEmpty(s: seq<Level>)
    ensures Content(s) == map[] <==> s == []
  {
    if s != [] {
      assert s[0].price in Content(s);
    }
  }

  /** A sorted side is determined by its map: no two sorted sides hold the same levels. */
  lemma {:induction false} SortedUnique(side: Side, s: seq<Level>, t: seq<Level>)
    requires Sorted(side, s) && Sorted(side, t)
    requires Content(s) == Content(t)
    ensures s == t
  {
    if s == [] || t == [] {
      OnlyEmpty(s);
      OnlyEmpty(t);
    } else {
      BestIsExtreme(side, s);
      BestIsExtreme(side, t);
      HeadFirst(side, s[1..], s[0].price);
      HeadFirst(side, t[1..], t[0].price);
      assert Content(s[1..]) == Content(s) - {s[0].price};
      assert Content(t[1..]) == Content(t) - {t[0].price};
      SortedUnique(side, s[1..], t[1..]);
    }
  }

  /** The head of a sorted side is its extreme price, with the quantity the map holds there. */
  lemma BestIsExtreme(side: Side, s: seq<Level>)
    requires Sorted(side, s)
    ensures Content(s) == map[] ==> s == [] && Best(s) == Pq(0, 0)
    ensures Content(s) != map[] ==>
              && Best(s).price in Content(s)
              && Best(s).qty == Content(s)[Best(s).price]
              && forall p :: p in Content(s) && p != Best(s).price ==> Better(side, Best(s).price, p)
    ensures forall p :: p in Content(s) ==> if side == Bid then p <= Best(s).price else p >= Best(s).price
  {
    if s != [] {
      assert s[0].price in Content(s);
      HeadFirst(side, s[1..], s[0].price);
    }
  }

  /** A sorted side of bids descends, one of asks ascends, and the best is the highest bid or the lowest ask. */
  lemma {:induction false} SortedDescends(side: Side, s: seq<Level>)
    requires Sorted(side, s)
    ensures forall i, j :: 0 <= i < j < |s| ==>
              if side == Bid then s[i].price > s[j].price else s[i].price < s[j].price
    ensures forall i :: 0 <= i < |s| ==>
              if side == Bid then s[i].price <= Best(s).price else s[i].price >= Best(s).price
  {
    if s != [] {
      SortedDescends(side, s[1..]);
      HeadFirst(side, s[1..], s[0].price);
      forall j | 0 < j < |s|
        ensures if side == Bid then s[0].price > s[j].price else s[0].price < s[j].price
      {
        ContentAt(side, s[1..], j - 1);
      }
      forall i, j | 0 <= i < j < |s|
        ensures if side == Bid then s[i].price > s[j].price else s[i].price < s[j].price
      {
        if i > 0 {
          assert s[i] == s[1..][i - 1] && s[j] == s[1..][j - 1];
        }
      }
    }
  }

  /** Two additions can be exchanged. Nothing is asked of the sums: wrap-around commutes as well. */
  lemma AddsCommute(side: Side, s: seq<Level>, p: u32, q: u32, p': u32, q': u32)
    requires Sorted(side, s)
    ensures AddTo(side, AddTo(side, s, p, q), p', q') == AddTo(side, AddTo(side, s, p', q'), p, q)
  {
    AddContent(side, s, p, q);
    AddContent(side, s, p', q');
    var t, t' := AddTo(side, s, p, q), AddTo(side, s, p', q');
    AddContent(side, t, p', q');
    AddContent(side, t', p, q);
    UpdatesCommute(Content(s), p, q, p', q');
    SortedUnique(side, AddTo(side, t, p', q'), AddTo(side, t', p, q));
  }

  lemma UpdatesCommute(m: map<u32, u32>, p: u32, q: u32, p': u32, q': u32)
    ensures var n, n' := m[p := Inc32(At(m, p), q)], m[p' := Inc32(At(m, p'), q')];
            n[p' := Inc32(At(n, p'), q')] == n'[p := Inc32(At(n', p), q)]
  {
  }

  // ---- The same operations by position, as the list books perform them ----

  /** The first level that does not stand before price `p`. */
  function Rank(side: Side, s: seq<Level>, p: u32): (i: nat)
    ensures i <= |s|
    ensures forall j :: 0 <= j < i ==> Better(side, s[j].price, p)
    ensures i < |s| ==> !Better(side, s[i].price, p)
  {
    if s == [] || !Better(side, s[0].price, p) then 0 else 1 + Rank(side, s[1..], p)
  }

  /** The first level with price `p`, or the length when there is none. */
  function Find(s: seq<Level>, p: u32): (i: nat)
    ensures i <= |s|
    ensures forall j :: 0 <= j < i ==> s[j].price != p
    ensures i < |s| ==> s[i].price == p
  {
    if s == [] || s[0].price == p then 0 else 1 + Find(s[1..], p)
  }

  /** `AddTo` by position: the quantity grows, or a level is put in front of the ranked one. */
  function AddAt(s: seq<Level>, i: nat, p: u32, q: u32): seq<Level>
    requires i <= |s|
  {
    if i < |s| && s[i].price == p then s[i := Level(p, Inc32(s[i].qty, q))]
    else s[..i] + [Level(p, q)] + s[i..]
  }

  lemma AddAtTail(s: seq<Level>, i: nat, p: u32, q: u32)
    requires i < |s|
    ensures AddAt(s, i + 1, p, q) == [s[0]] + AddAt(s[1..], i, p, q)
  {
    var t := s[1..];
    if i == |t| || t[i].price != p {
      assert s[..i + 1] == [s[0]] + t[..i];
      assert s[i + 1..] == t[i..];
    }
  }

  lemma {:induction false} AddByRank(side: Side, s: seq<Level>, p: u32, q: u32)
    ensures AddTo(side, s, p, q) == AddAt(s, Rank(side, s, p), p, q)
  {
    if s != [] && Better(side, s[0].price, p) {
      AddByRank(side, s[1..], p, q);
      AddAtTail(s, Rank(side, s[1..], p), p, q);
    } else {
      assert s[..0] == [] && s[0..] == s;
    }
  }

  /** `DropFrom` by position. */
  function DropAt(s: seq<Level>, i: nat, p: u32, q: u32): seq<Level>
    requires i < |s|
  {
    if q < s[i].qty then s[i := Level(p, s[i].qty - q)] else s[..i] + s[i + 1..]
  }

  lemma DropAtTail(s: seq<Level>, i: nat, p: u32, q: u32)
    requires i + 1 < |s|
    ensures DropAt(s, i + 1, p, q) == [s[0]] + DropAt(s[1..], i, p, q)
  {
    var t := s[1..];
    if q >= t[i].qty {
      assert s[..i + 1] == [s[0]] + t[..i];
      assert s[i + 2..] == t[i + 1..];
    }
  }

  lemma {:induction false} DecByFind(s: seq<Level>, p: u32, q: u32)
    ensures var i := Find(s, p);
            DecFrom(s, p, q) == if i < |s| then s[i := Level(p, Dec32(s[i].qty, q))] else s
  {
    if s != [] && s[0].price != p {
      DecByFind(s[1..], p, q);
    }
  }

  lemma {:induction false} DropByFind(s: seq<Level>, p: u32, q: u32)
    ensures var i := Find(s, p); DropFrom(s, p, q) == if i < |s| then DropAt(s, i, p, q) else s
  {
    if s != [] && s[0].price != p {
      var i := Find(s[1..], p);
      DropByFind(s[1..], p, q);
      if i < |s[1..]| {
        DropAtTail(s, i, p, q);
      }
    }
  }

  /** In a sorted side the level at position `k` is the one its price finds. */
  lemma {:induction false} FindsItself(side: Side, s: seq<Level>, k: nat)
    requires Sorted(side, s) && k < |s|
    ensures Find(s, s[k].price) == k && Rank(side, s, s[k].price) == k && s[k].price in Content(s)
  {
    if k > 0 {
      FindsItself(side, s[1..], k - 1);
      HeadFirst(side, s[1..], s[0].price);
    }
  }

  /** A level's quantity is what the content has at its price. */
  lemma {:induction false} ContentAt(side: Side, s: seq<Level>, i: nat)
    requires Sorted(side, s) && i < |s|
    ensures s[i].price in Content(s) && Content(s)[s[i].price] == s[i].qty
  {
    if i > 0 {
      HeadFirst(side, s[1..], s[0].price);
      ContentAt(side, s[1..], i - 1);
    }
  }
}
