/**
 The order table as a value, the messages that change it, and the agreement
 between the table and the levels of a book: the levels of one side of one
 instrument are the sums of the live orders, grouped by price.
 */
module Ledger {
  import opened Core
  import opened Ladder

  /** What the table holds under one order reference number. */
  datatype Slot = Empty | Live(inst: nat, side: Side, price: u32, qty: u32)

  /** A level's place: instrument, side and price. */
  datatype Key = Key(inst: nat, side: Side, price: u32)

  predicate OnKey(s: Slot, k: Key) {
    s.Live? && s.inst == k.inst && s.side == k.side && s.price == k.price
  }

  function Resting(s: Slot): u32 {
    if s.Live? then s.qty else 0
  }

  // ---- Sums over the table ----

  function Sum(l: seq<Slot>, f: Slot -> nat): nat {
    if l == [] then 0 else Sum(l[..|l| - 1], f) + f(l[|l| - 1])
  }

  function AtKey(k: Key): Slot -> nat {
    (s: Slot) => if OnKey(s, k) then s.qty else 0
  }

  /** The quantity all live orders have at one place. */
  function SumAt(l: seq<Slot>, k: Key): nat {
    Sum(l, AtKey(k))
  }

  ghost predicate Occupied(l: seq<Slot>, k: Key) {
    exists i :: 0 <= i < |l| && OnKey(l[i], k)
  }

  /** Some order other than `i` rests at `k`. */
  ghost predicate OthersOn(l: seq<Slot>, i: nat, k: Key) {
    exists j :: 0 <= j < |l| && j != i && OnKey(l[j], k)
  }

  /** Changing one slot changes the sum by that slot's share. */
  lemma {:induction false} SumChange(l: seq<Slot>, i: nat, y: Slot, f: Slot -> nat)
    requires i < |l|
    ensures Sum(l[i := y], f) + f(l[i]) == Sum(l, f) + f(y)
  {
    var n := |l| - 1;
    if i == n {
      assert l[i := y][..n] == l[..n];
    } else {
      SumChange(l[..n], i, y, f);
      assert l[i := y][..n] == l[..n][i := y];
    }
  }

  lemma {:induction false} SumPart(l: seq<Slot>, i: nat, f: Slot -> nat)
    requires i < |l|
    ensures f(l[i]) <= Sum(l, f)
  {
    if i < |l| - 1 {
      SumPart(l[..|l| - 1], i, f);
    }
  }

  lemma {:induction false} SumZero(l: seq<Slot>, f: Slot -> nat)
    requires forall i :: 0 <= i < |l| ==> f(l[i]) == 0
    ensures Sum(l, f) == 0
  {
    if l != [] {
      SumZero(l[..|l| - 1], f);
    }
  }

  lemma {:induction false} SumAdds(l: seq<Slot>, f: Slot -> nat, g: Slot -> nat, h: Slot -> nat)
    requires forall s :: h(s) == f(s) + g(s)
    ensures Sum(l, h) == Sum(l, f) + Sum(l, g)
  {
    if l != [] {
      SumAdds(l[..|l| - 1], f, g, h);
    }
  }

  lemma SumAtChange(l: seq<Slot>, i: nat, y: Slot, k: Key)
    requires i < |l|
    ensures SumAt(l[i := y], k) + AtKey(k)(l[i]) == SumAt(l, k) + AtKey(k)(y)
    ensures OthersOn(l[i := y], i, k) <==> OthersOn(l, i, k)
    ensures Occupied(l, k) <==> OnKey(l[i], k) || OthersOn(l, i, k)
    ensures Occupied(l[i := y], k) <==> OnKey(y, k) || OthersOn(l, i, k)
  {
    SumChange(l, i, y, AtKey(k));
    var l' := l[i := y];
    if j :| 0 <= j < |l| && j != i && OnKey(l[j], k) {
      assert OnKey(l'[j], k);
    }
    if j :| 0 <= j < |l'| && j != i && OnKey(l'[j], k) {
      assert OnKey(l[j], k);
    }
    assert OnKey(y, k) ==> OnKey(l'[i], k);
  }

  lemma VacantSum(l: seq<Slot>, k: Key)
    requires !Occupied(l, k)
    ensures SumAt(l, k) == 0
  {
    SumZero(l, AtKey(k));
  }

  // ---- Agreement of a side with the table ----

  /** The side's levels are exactly the occupied prices, each with the sum of its live orders. */
  ghost predicate Agrees(s: seq<Level>, l: seq<Slot>, inst: nat, side: Side) {
    && Sorted(side, s)
    && (forall p: u32 :: p in Content(s) <==> Occupied(l, Key(inst, side, p)))
    && (forall p: u32 :: p in Content(s) ==> Content(s)[p] == SumAt(l, Key(inst, side, p)))
  }

  /** The table leaves no freedom: at most one list of levels agrees with it. */
  lemma AgreesUnique(s: seq<Level>, t: seq<Level>, l: seq<Slot>, inst: nat, side: Side)
    requires Agrees(s, l, inst, side) && Agrees(t, l, inst, side)
    ensures s == t
  {
    SortedUnique(side, s, t);
  }

  /** A change that stays away from this side of this instrument keeps the agreement. */
  lemma ElsewhereAgrees(s: seq<Level>, l: seq<Slot>, i: nat, y: Slot, inst: nat, side: Side)
    requires Agrees(s, l, inst, side) && i < |l|
    requires l[i].Live? ==> l[i].inst != inst || l[i].side != side
    requires y.Live? ==> y.inst != inst || y.side != side
    ensures Agrees(s, l[i := y], inst, side)
  {
    forall p: u32
      ensures SumAt(l[i := y], Key(inst, side, p)) == SumAt(l, Key(inst, side, p))
      ensures Occupied(l[i := y], Key(inst, side, p)) == Occupied(l, Key(inst, side, p))
    {
      SumAtChange(l, i, y, Key(inst, side, p));
    }
  }

  /** Adding an order keeps the agreement exactly when the level's sum fits in 32 bits. */
  lemma ArriveAgrees(s: seq<Level>, l: seq<Slot>, i: nat, inst: nat, side: Side, p: u32, q: u32)
    requires Agrees(s, l, inst, side) && i < |l| && l[i].Empty?
    ensures Agrees(AddTo(side, s, p, q), l[i := Live(inst, side, p, q)], inst, side)
            <==> SumAt(l, Key(inst, side, p)) + q < MODULUS
  {
    var y := Live(inst, side, p, q);
    AddContent(side, s, p, q);
    forall r: u32
      ensures SumAt(l[i := y], Key(inst, side, r)) ==
              SumAt(l, Key(inst, side, r)) + if r == p then q else 0
      ensures Occupied(l[i := y], Key(inst, side, r)) <==> r == p || Occupied(l, Key(inst, side, r))
    {
      SumAtChange(l, i, y, Key(inst, side, r));
    }
    if p !in Content(s) {
      VacantSum(l, Key(inst, side, p));
    }
    assert p in Content(AddTo(side, s, p, q));
  }

  /**
   Removing an order keeps the agreement unless it takes away the whole sum of a
   level on which other orders (then all of quantity zero) still rest.
   */
  lemma DepartAgrees(s: seq<Level>, l: seq<Slot>, i: nat)
    requires i < |l| && l[i].Live?
    requires Agrees(s, l, l[i].inst, l[i].side)
    ensures var k := Key(l[i].inst, l[i].side, l[i].price);
            Agrees(DropFrom(s, l[i].price, l[i].qty), l[i := Empty], l[i].inst, l[i].side)
            <==> !(OthersOn(l, i, k) && SumAt(l, k) == l[i].qty)
  {
    var Live(inst, side, p, q) := l[i];
    var k := Key(inst, side, p);
    DropContent(side, s, p, q);
    assert OnKey(l[i], k);
    SumPart(l, i, AtKey(k));
    forall r: u32
      ensures SumAt(l[i := Empty], Key(inst, side, r)) ==
              SumAt(l, Key(inst, side, r)) - if r == p then q else 0
      ensures Occupied(l[i := Empty], Key(inst, side, r)) <==>
              if r == p then OthersOn(l, i, k) else Occupied(l, Key(inst, side, r))
    {
      SumAtChange(l, i, Empty, Key(inst, side, r));
    }
    assert p in Content(s);
    if !Occupied(l[i := Empty], k) {
      VacantSum(l[i := Empty], k);
    }
    assert p in Content(DropFrom(s, p, q)) <==> q < SumAt(l, k);
  }

  /** Taking `q` shares, fewer than it has, from a resting order keeps the agreement. */
  lemma ShrinkAgrees(s: seq<Level>, l: seq<Slot>, i: nat, q: u32)
    requires i < |l| && l[i].Live? && q < l[i].qty
    requires Agrees(s, l, l[i].inst, l[i].side)
    ensures Agrees(DecFrom(s, l[i].price, q), l[i := l[i].(qty := l[i].qty - q)], l[i].inst, l[i].side)
  {
    var Live(inst, side, p, was) := l[i];
    var y := l[i].(qty := was - q);
    var k := Key(inst, side, p);
    DecContent(side, s, p, q);
    assert OnKey(l[i], k);
    SumPart(l, i, AtKey(k));
    forall r: u32
      ensures SumAt(l[i := y], Key(inst, side, r)) ==
              SumAt(l, Key(inst, side, r)) - if r == p then q else 0
      ensures Occupied(l[i := y], Key(inst, side, r)) <==> Occupied(l, Key(inst, side, r))
    {
      SumAtChange(l, i, y, Key(inst, side, r));
    }
    assert p in Content(s);
  }

  /** An order entered over a live one with shares leaves these shares in the old level: never an agreement. */
  lemma ReuseDisagrees(s: seq<Level>, l: seq<Slot>, i: nat, y: Slot)
    requires i < |l| && l[i].Live? && l[i].qty > 0 && y.Live?
    requires Agrees(s, l, l[i].inst, l[i].side)
    ensures var here := y.inst == l[i].inst && y.side == l[i].side;
            !Agrees(if here then AddTo(y.side, s, y.price, y.qty) else s, l[i := y], l[i].inst, l[i].side)
  {
    var Live(inst, side, p, q) := l[i];
    var k := Key(inst, side, p);
    assert OnKey(l[i], k);
    assert p in Content(s) && Content(s)[p] == SumAt(l, k);
    SumAtChange(l, i, y, k);
    AddContent(side, s, y.price, y.qty);
  }

  /** When every live order has shares, an order never takes a level away from another one. */
  ghost predicate Positive(l: seq<Slot>) {
    forall i :: 0 <= i < |l| && l[i].Live? ==> l[i].qty > 0
  }

  lemma PositiveDepart(l: seq<Slot>, i: nat)
    requires Positive(l) && i < |l| && l[i].Live?
    ensures var k := Key(l[i].inst, l[i].side, l[i].price);
            OthersOn(l, i, k) <==> SumAt(l, k) > l[i].qty
  {
    var k := Key(l[i].inst, l[i].side, l[i].price);
    SumAtChange(l, i, Empty, k);
    var l' := l[i := Empty];
    if j :| 0 <= j < |l| && j != i && OnKey(l[j], k) {
      assert l'[j] == l[j];
      SumPart(l', j, AtKey(k));
    } else {
      VacantSum(l', k);
    }
  }

  /** The failing family of `DepartAgrees` is real: a zero-share order loses its level to a deletion. */
  lemma ZeroShareOrderLosesItsLevel()
    ensures var l := [Live(1, Bid, 100, 5), Live(1, Bid, 100, 0)];
            && Agrees([Level(100, 5)], l, 1, Bid)
            && DropFrom([Level(100, 5)], 100, 5) == []
            && Occupied(l[0 := Empty], Key(1, Bid, 100))
  {
    var none: seq<Slot> := [Empty, Empty];
    var one := none[0 := Live(1, Bid, 100, 5)];
    var l := [Live(1, Bid, 100, 5), Live(1, Bid, 100, 0)];
    assert l == one[1 := Live(1, Bid, 100, 0)];
    forall p: u32
      ensures SumAt(none, Key(1, Bid, p)) == 0
    {
      VacantSum(none, Key(1, Bid, p));
    }
    ArriveAgrees([], none, 0, 1, Bid, 100, 5);
    SumAtChange(none, 0, Live(1, Bid, 100, 5), Key(1, Bid, 100));
    ArriveAgrees([Level(100, 5)], one, 1, 1, Bid, 100, 0);
    assert OnKey(l[0 := Empty][1], Key(1, Bid, 100));
  }

  /** So is that of `ArriveAgrees`: with one more share the level shows none, while 2^32 rest on it. */
  lemma SumWrapsToZero()
    ensures var l := [Live(1, Bid, 100, 0xFFFF_FFFF), Empty];
            var l' := l[1 := Live(1, Bid, 100, 1)];
            && Agrees([Level(100, 0xFFFF_FFFF)], l, 1, Bid)
            && AddTo(Bid, [Level(100, 0xFFFF_FFFF)], 100, 1) == [Level(100, 0)]
            && SumAt(l', Key(1, Bid, 100)) == MODULUS
            && !Agrees([Level(100, 0)], l', 1, Bid)
  {
    var none: seq<Slot> := [Empty, Empty];
    var k, y := Key(1, Bid, 100), Live(1, Bid, 100, 0xFFFF_FFFF);
    var l := [y, Empty];
    assert l == none[0 := y];
    forall p: u32
      ensures SumAt(none, Key(1, Bid, p)) == 0
    {
      VacantSum(none, Key(1, Bid, p));
    }
    ArriveAgrees([], none, 0, 1, Bid, 100, 0xFFFF_FFFF);
    SumAtChange(none, 0, y, k);
    SumAtChange(l, 1, Live(1, Bid, 100, 1), k);
    ArriveAgrees([Level(100, 0xFFFF_FFFF)], l, 1, 1, Bid, 100, 1);
  }

  // ---- A message with the wrong locate ----

  /** The first level with the price is gone. */
  function Erased(s: seq<Level>, p: u32): seq<Level> {
    var i := Find(s, p);
    if i < |s| then s[..i] + s[i + 1..] else s
  }

  /**
   What the deletion of an order at price `p` with `q` shares does to the levels of its side when the
   message names another instrument: the order's own level is lowered through its pointer, or else
   a level is looked for, by price, in the book that is named. (When there is none, the map book does
   nothing and what the others do is undefined.)
   */
  function DeletedElsewhere(own: seq<Level>, named: seq<Level>, p: u32, q: u32): (seq<Level>, seq<Level>) {
    var i := Find(own, p);
    if i < |own| && q < own[i].qty then (DecFrom(own, p, q), named) else (own, Erased(named, p))
  }

  /** Both books agree with the table afterwards exactly when the order has less than its level's aggregate. */
  lemma WrongLocateAgrees(own: seq<Level>, named: seq<Level>, l: seq<Slot>, i: nat, locate: nat)
    requires i < |l| && l[i].Live? && l[i].inst != locate && Positive(l)
    requires Agrees(own, l, l[i].inst, l[i].side) && Agrees(named, l, locate, l[i].side)
    ensures var Live(inst, side, p, q) := l[i];
            var (own', named') := DeletedElsewhere(own, named, p, q);
            Agrees(own', l[i := Empty], inst, side) && Agrees(named', l[i := Empty], locate, side)
            <==> q < SumAt(l, Key(inst, side, p))
  {
    hide Positive, DecFrom, Erased;
    var Live(inst, side, p, q) := l[i];
    assert OnKey(l[i], Key(inst, side, p));
    LevelOf(side, own, p);
    if q < SumAt(l, Key(inst, side, p)) {
      LoweredAgrees(own, l, i);
      ElsewhereAgrees(named, l, i, Empty, locate, side);
    } else {
      LeftBehindDisagrees(own, l, i);
    }
  }

  lemma LoweredAgrees(s: seq<Level>, l: seq<Slot>, i: nat)
    requires i < |l| && l[i].Live? && Positive(l) && Agrees(s, l, l[i].inst, l[i].side)
    requires l[i].qty < SumAt(l, Key(l[i].inst, l[i].side, l[i].price))
    ensures Agrees(DecFrom(s, l[i].price, l[i].qty), l[i := Empty], l[i].inst, l[i].side)
  {
    var Live(inst, side, p, q) := l[i];
    assert OnKey(l[i], Key(inst, side, p));
    LevelOf(side, s, p);
    DepartAgrees(s, l, i);
    DropByFind(s, p, q);
    DecByFind(s, p, q);
  }

  lemma LeftBehindDisagrees(s: seq<Level>, l: seq<Slot>, i: nat)
    requires i < |l| && l[i].Live? && Positive(l) && Agrees(s, l, l[i].inst, l[i].side)
    requires l[i].qty >= SumAt(l, Key(l[i].inst, l[i].side, l[i].price))
    ensures !Agrees(s, l[i := Empty], l[i].inst, l[i].side)
  {
    var k := Key(l[i].inst, l[i].side, l[i].price);
    assert OnKey(l[i], k);
    assert l[i].price in Content(s);
    PositiveDepart(l, i);
    SumAtChange(l, i, Empty, k);
  }

  lemma {:induction false} LevelOf(side: Side, s: seq<Level>, p: u32)
    requires Sorted(side, s) && p in Content(s)
    ensures var i := Find(s, p); i < |s| && s[i] == Level(p, Content(s)[p])
  {
    if s[0].price != p {
      LevelOf(side, s[1..], p);
      var i := Find(s[1..], p);
      assert s[i + 1] == s[1..][i];
    }
  }

  /** A whole-level deletion of instrument 1, sent to instrument 2, takes the level of 2 and leaves that of 1. */
  lemma WrongLocateErasesWrongLevel()
    ensures var l := [Live(1, Bid, 100, 5), Live(2, Bid, 100, 7)];
            && Agrees([Level(100, 5)], l, 1, Bid) && Agrees([Level(100, 7)], l, 2, Bid)
            && DeletedElsewhere([Level(100, 5)], [Level(100, 7)], 100, 5) == ([Level(100, 5)], [])
            && !Agrees([Level(100, 5)], l[0 := Empty], 1, Bid) && !Agrees([], l[0 := Empty], 2, Bid)
  {
    var none: seq<Slot> := [Empty, Empty];
    var x, y := Live(1, Bid, 100, 5), Live(2, Bid, 100, 7);
    var one, l := none[0 := x], [x, y];
    assert l == one[1 := y];
    forall inst: nat, p: u32
      ensures SumAt(none, Key(inst, Bid, p)) == 0
    {
      VacantSum(none, Key(inst, Bid, p));
    }
    ArriveAgrees([], none, 0, 1, Bid, 100, 5);
    ElsewhereAgrees([Level(100, 5)], one, 1, y, 1, Bid);
    ElsewhereAgrees([], none, 0, x, 2, Bid);
    SumAtChange(none, 0, x, Key(2, Bid, 100));
    ArriveAgrees([], one, 1, 2, Bid, 100, 7);
    var s, t := [Level(100, 5)], [Level(100, 7)];
    assert Find(s, 100) == 0 && Find(t, 100) == 0;
    assert t[..0] + t[1..] == [];
    assert 100 in Content(s);
    assert !Occupied(l[0 := Empty], Key(1, Bid, 100));
    assert OnKey(l[0 := Empty][1], Key(2, Bid, 100));
  }

  // ---- Totals ----

  function InPrices(inst: nat, side: Side, ps: set<u32>): Slot -> nat {
    (s: Slot) => if s.Live? && s.inst == inst && s.side == side && s.price in ps then s.qty else 0
  }

  function OnSide(inst: nat, side: Side): Slot -> nat {
    (s: Slot) => if s.Live? && s.inst == inst && s.side == side then s.qty else 0
  }

  function LevelTotal(s: seq<Level>): nat {
    if s == [] then 0 else s[0].qty + LevelTotal(s[1..])
  }

  lemma {:induction false} SumSame(l: seq<Slot>, f: Slot -> nat, g: Slot -> nat)
    requires forall i :: 0 <= i < |l| ==> f(l[i]) == g(l[i])
    ensures Sum(l, f) == Sum(l, g)
  {
    if l != [] {
      SumSame(l[..|l| - 1], f, g);
    }
  }

  /** Levels with distinct prices and the right sums add up to the orders at those prices. */
  lemma {:induction false} LevelTotalByPrice(s: seq<Level>, l: seq<Slot>, inst: nat, side: Side)
    requires Sorted(side, s)
    requires forall p: u32 :: p in Content(s) ==> Content(s)[p] == SumAt(l, Key(inst, side, p))
    ensures LevelTotal(s) == Sum(l, InPrices(inst, side, Content(s).Keys))
  {
    if s == [] {
      SumZero(l, InPrices(inst, side, Content(s).Keys));
    } else {
      var p, t := s[0].price, s[1..];
      HeadFirst(side, t, p);
      assert p in Content(s) && p !in Content(t);
      assert Content(s).Keys == Content(t).Keys + {p};
      LevelTotalByPrice(t, l, inst, side);
      SumAdds(l, InPrices(inst, side, Content(t).Keys), AtKey(Key(inst, side, p)),
              InPrices(inst, side, Content(s).Keys));
    }
  }

  /** Nothing is lost between table and book: the levels of a side total its resting shares. */
  lemma SideTotal(s: seq<Level>, l: seq<Slot>, inst: nat, side: Side)
    requires Agrees(s, l, inst, side)
    ensures LevelTotal(s) == Sum(l, OnSide(inst, side))
  {
    LevelTotalByPrice(s, l, inst, side);
    forall i | 0 <= i < |l|
      ensures InPrices(inst, side, Content(s).Keys)(l[i]) == OnSide(inst, side)(l[i])
    {
      if l[i].Live? && l[i].inst == inst && l[i].side == side {
        assert OnKey(l[i], Key(inst, side, l[i].price));
        assert Occupied(l, Key(inst, side, l[i].price));
      }
    }
    SumSame(l, InPrices(inst, side, Content(s).Keys), OnSide(inst, side));
  }
}
