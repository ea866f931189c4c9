/**
 Whole runs of order messages: what each message does to the order table, which
 book calls it makes, and what holds after every run the feed may produce.
 */
module Session {
  import opened Core
  import opened Ladder
  import opened BookOps
  import opened Ledger

  /**
   A decoded message; `Other` stands for the types that leave table and books alone. It has
   the locate only where the handler looks the instrument up.
   */
  datatype Msg =
    | AddOrder(locate: nat, oid: nat, side: Side, shares: u32, price: u32)
    | OrderCancel(locate: nat, oid: nat, shares: u32)
    | OrderExecuted(locate: nat, oid: nat, shares: u32)
    | OrderExecutedWithPrice(locate: nat, oid: nat, shares: u32)
    | OrderDelete(locate: nat, oid: nat)
    | OrderReplace(locate: nat, oid: nat, newOid: nat, shares: u32, price: u32)
    | Other(kind: nat, instrument: Option)

  datatype Option = None | Some(locate: nat)

  /**
   What a feed over `insts` instruments may send when the table is `l`. A cancel,
   execution or deletion may name a number that rests nowhere: the books return
   without effect then. It may also take more shares than rest: the order goes. The
   replacement of a number that rests nowhere enters an order on the bid side, as the
   table's unused orders are bids.
   */
  predicate Accepts(l: seq<Slot>, insts: nat, m: Msg) {
    match m
    case Other(_, instrument) => instrument.Some? ==> instrument.locate < insts
    case AddOrder(locate, oid, side, shares, price) =>
      && locate < insts && oid < |l| && l[oid].Empty? && shares > 0
      && SumAt(l, Key(locate, side, price)) + shares < MODULUS
    case OrderReplace(locate, oid, newOid, shares, price) =>
      && locate < insts && oid < |l| && newOid < |l| && (l[oid].Live? ==> l[oid].inst == locate)
      && l[newOid].Empty? && shares > 0
      && SumAt(l[oid := Empty], Key(locate, SideOf(l[oid]), price)) + shares < MODULUS
    case _ =>
      && m.locate < insts && m.oid < |l| && (l[m.oid].Live? ==> l[m.oid].inst == m.locate)
  }

  /** The side an order object has; unused and cleared ones are bids. */
  function SideOf(s: Slot): Side {
    if s.Live? then s.side else Bid
  }

  /** The slot after `shares` were cancelled or executed. */
  function Reduced(s: Slot, shares: u32): Slot {
    if s.Live? && shares < s.qty then s.(qty := s.qty - shares) else Empty
  }

  function Step(l: seq<Slot>, m: Msg): seq<Slot> {
    match m
    case Other(_, _) => l
    case AddOrder(locate, oid, side, shares, price) =>
      if oid < |l| then l[oid := Live(locate, side, price, shares)] else l
    case OrderReplace(locate, oid, newOid, shares, price) =>
      if oid < |l| && newOid < |l|
      then l[oid := Empty][newOid := Live(locate, SideOf(l[oid]), price, shares)] else l
    case OrderDelete(locate, oid) => if oid < |l| then l[oid := Empty] else l
    case _ => if m.oid < |l| then l[m.oid := Reduced(l[m.oid], m.shares)] else l
  }

  function RemoveOps(s: Slot): seq<BookOp> {
    if s.Live? then [Drop(s.side, s.price, s.qty)] else []
  }

  function ReduceOps(s: Slot, qty: u32): seq<BookOp> {
    if s.Live? && qty < s.qty then [Dec(s.side, s.price, qty)] else RemoveOps(s)
  }

  /** The calls message `m` makes on the book of instrument `inst`. */
  function MsgOps(l: seq<Slot>, m: Msg, inst: nat): seq<BookOp> {
    if m.Other? || m.locate != inst then []
    else if m.AddOrder? then [Add(m.side, m.price, m.shares)]
    else if m.oid >= |l| then []
    else if m.OrderDelete? then RemoveOps(l[m.oid])
    else if m.OrderReplace? then RemoveOps(l[m.oid]) + [Add(SideOf(l[m.oid]), m.price, m.shares)]
    else ReduceOps(l[m.oid], m.shares)
  }

  /** What an accepted message does to the table, kind by kind. */
  lemma StepEffect(l: seq<Slot>, insts: nat, m: Msg)
    requires Accepts(l, insts, m)
    ensures |Step(l, m)| == |l|
    ensures m.Other? ==> Step(l, m) == l
    ensures !m.Other? ==>
              && m.oid < |l|
              && forall k :: 0 <= k < |l| && k != m.oid && !(m.OrderReplace? && k == m.newOid) ==> Step(l, m)[k] == l[k]
    ensures m.AddOrder? ==> Step(l, m)[m.oid] == Live(m.locate, m.side, m.price, m.shares)
    ensures m.OrderDelete? ==> Step(l, m)[m.oid] == Empty
    ensures m.OrderCancel? || m.OrderExecuted? || m.OrderExecutedWithPrice? ==>
              var s := l[m.oid];
              Step(l, m)[m.oid] == if s.Live? && m.shares < s.qty then Live(s.inst, s.side, s.price, s.qty - m.shares)
                                   else Empty
    ensures m.OrderReplace? ==>
              && m.newOid < |l| && (m.newOid != m.oid ==> Step(l, m)[m.oid] == Empty)
              && Step(l, m)[m.newOid] ==
                 Live(m.locate, if l[m.oid].Live? then l[m.oid].side else Bid, m.price, m.shares)
  {
  }

  /** And the calls it makes, all on the book of its own instrument. */
  lemma CallEffect(l: seq<Slot>, insts: nat, m: Msg)
    requires Accepts(l, insts, m)
    ensures m.Other? ==> forall inst :: MsgOps(l, m, inst) == []
    ensures !m.Other? ==> m.oid < |l| && forall inst :: inst != m.locate ==> MsgOps(l, m, inst) == []
    ensures m.AddOrder? ==> MsgOps(l, m, m.locate) == [Add(m.side, m.price, m.shares)]
    ensures m.OrderDelete? ==>
              var s := l[m.oid]; MsgOps(l, m, m.locate) == if s.Live? then [Drop(s.side, s.price, s.qty)] else []
    ensures m.OrderCancel? || m.OrderExecuted? || m.OrderExecutedWithPrice? ==>
              var s := l[m.oid];
              MsgOps(l, m, m.locate) ==
              if s.Empty? then []
              else if m.shares < s.qty then [Dec(s.side, s.price, m.shares)] else [Drop(s.side, s.price, s.qty)]
    ensures m.OrderReplace? ==>
              var s := l[m.oid];
              MsgOps(l, m, m.locate) ==
              if s.Live? then [Drop(s.side, s.price, s.qty), Add(s.side, m.price, m.shares)]
              else [Add(Bid, m.price, m.shares)]
  {
  }

  /** What is accepted, kind by kind. */
  lemma AcceptsWhen(l: seq<Slot>, insts: nat, m: Msg)
    ensures m.AddOrder? ==>
              (Accepts(l, insts, m) <==>
                 && m.locate < insts && m.oid < |l| && l[m.oid].Empty? && m.shares > 0
                 && SumAt(l, Key(m.locate, m.side, m.price)) + m.shares < 0x1_0000_0000)
    ensures m.OrderReplace? ==>
              (Accepts(l, insts, m) <==>
                 && m.locate < insts && m.oid < |l| && m.newOid < |l| && m.shares > 0
                 && (l[m.oid].Empty? || l[m.oid].inst == m.locate) && l[m.newOid].Empty?
                 && var side := if l[m.oid].Live? then l[m.oid].side else Bid;
                    SumAt(l[m.oid := Empty], Key(m.locate, side, m.price)) + m.shares < 0x1_0000_0000)
    ensures m.OrderCancel? || m.OrderExecuted? || m.OrderExecutedWithPrice? || m.OrderDelete? ==>
              (Accepts(l, insts, m) <==>
                 m.locate < insts && m.oid < |l| && (l[m.oid].Empty? || l[m.oid].inst == m.locate))
    ensures m.Other? ==> (Accepts(l, insts, m) <==> m.instrument == None || m.instrument.locate < insts)
  {
  }

  function Blank(n: nat): seq<Slot> {
    seq(n, _ => Empty)
  }

  /** The table of `n` slots after a run. */
  function Run(trace: seq<Msg>, n: nat): seq<Slot> {
    if trace == [] then Blank(n) else Step(Run(trace[..|trace| - 1], n), trace[|trace| - 1])
  }

  predicate Accepted(trace: seq<Msg>, n: nat, insts: nat) {
    trace != [] ==>
      && Accepted(trace[..|trace| - 1], n, insts)
      && Accepts(Run(trace[..|trace| - 1], n), insts, trace[|trace| - 1])
  }

  /** All calls a run makes on one instrument's book. */
  function OpsFor(trace: seq<Msg>, n: nat, inst: nat): seq<BookOp> {
    if trace == [] then []
    else
      var front := trace[..|trace| - 1];
      OpsFor(front, n, inst) + MsgOps(Run(front, n), trace[|trace| - 1], inst)
  }

  lemma RunSnoc(trace: seq<Msg>, m: Msg, n: nat, insts: nat)
    ensures Run(trace + [m], n) == Step(Run(trace, n), m)
    ensures Accepted(trace + [m], n, insts) <==> Accepted(trace, n, insts) && Accepts(Run(trace, n), insts, m)
    ensures forall inst :: OpsFor(trace + [m], n, inst) == OpsFor(trace, n, inst) + MsgOps(Run(trace, n), m, inst)
  {
    assert (trace + [m])[..|trace|] == trace;
  }

  lemma {:induction false} RunLength(trace: seq<Msg>, n: nat)
    ensures |Run(trace, n)| == n
  {
    if trace != [] {
      RunLength(trace[..|trace| - 1], n);
    }
  }

  // ---- One message ----

  ghost predicate BookAgrees(ops: seq<BookOp>, l: seq<Slot>, inst: nat, side: Side) {
    Agrees(Replay(ops).On(side), l, inst, side)
  }

  lemma Arrival(ops: seq<BookOp>, l: seq<Slot>, i: nat, y: Slot, inst: nat, side: Side)
    requires BookAgrees(ops, l, inst, side) && i < |l| && l[i].Empty? && y.Live?
    requires SumAt(l, Key(y.inst, y.side, y.price)) + y.qty < MODULUS
    ensures BookAgrees(ops + (if y.inst == inst then [Add(y.side, y.price, y.qty)] else []), l[i := y], inst, side)
  {
    ReplaySnoc(ops, Add(y.side, y.price, y.qty));
    assert ops + [] == ops;
    if y.inst == inst && y.side == side {
      ArriveAgrees(Replay(ops).On(side), l, i, inst, side, y.price, y.qty);
    } else {
      ElsewhereAgrees(Replay(ops).On(side), l, i, y, inst, side);
    }
  }

  lemma Departure(ops: seq<BookOp>, l: seq<Slot>, i: nat, inst: nat, side: Side)
    requires BookAgrees(ops, l, inst, side) && i < |l| && l[i].Live? && Positive(l)
    ensures BookAgrees(ops + (if l[i].inst == inst then [Drop(l[i].side, l[i].price, l[i].qty)] else []),
                       l[i := Empty], inst, side)
  {
    ReplaySnoc(ops, Drop(l[i].side, l[i].price, l[i].qty));
    assert ops + [] == ops;
    if l[i].inst == inst && l[i].side == side {
      PositiveDepart(l, i);
      DepartAgrees(Replay(ops).On(side), l, i);
    } else {
      ElsewhereAgrees(Replay(ops).On(side), l, i, Empty, inst, side);
    }
  }

  lemma Shrinkage(ops: seq<BookOp>, l: seq<Slot>, i: nat, q: u32, inst: nat, side: Side)
    requires BookAgrees(ops, l, inst, side) && i < |l| && l[i].Live? && q < l[i].qty
    ensures BookAgrees(ops + (if l[i].inst == inst then [Dec(l[i].side, l[i].price, q)] else []),
                       l[i := l[i].(qty := l[i].qty - q)], inst, side)
  {
    ReplaySnoc(ops, Dec(l[i].side, l[i].price, q));
    assert ops + [] == ops;
    if l[i].inst == inst && l[i].side == side {
      ShrinkAgrees(Replay(ops).On(side), l, i, q);
    } else {
      ElsewhereAgrees(Replay(ops).On(side), l, i, l[i].(qty := l[i].qty - q), inst, side);
    }
  }

  /** Departure of what is at slot `i`, if anything is, in a message to instrument `locate`. */
  lemma Vacated(ops: seq<BookOp>, l: seq<Slot>, i: nat, locate: nat, inst: nat, side: Side)
    requires BookAgrees(ops, l, inst, side) && i < |l| && Positive(l)
    requires l[i].Live? ==> l[i].inst == locate
    ensures BookAgrees(ops + (if locate == inst then RemoveOps(l[i]) else []), l[i := Empty], inst, side)
    ensures Positive(l[i := Empty])
  {
    if l[i].Live? {
      Departure(ops, l, i, inst, side);
    } else {
      assert ops + [] == ops && l[i := Empty] == l;
    }
  }

  lemma ReplaceAgrees(ops: seq<BookOp>, l: seq<Slot>, insts: nat, m: Msg, inst: nat, side: Side)
    requires m.OrderReplace?
    requires Positive(l) && Accepts(l, insts, m) && BookAgrees(ops, l, inst, side)
    ensures BookAgrees(ops + MsgOps(l, m, inst), Step(l, m), inst, side)
  {
    hide BookAgrees, Positive, RemoveOps;
    var y := Live(m.locate, SideOf(l[m.oid]), m.price, m.shares);
    Vacated(ops, l, m.oid, m.locate, inst, side);
    var ops' := ops + if m.locate == inst then RemoveOps(l[m.oid]) else [];
    Arrival(ops', l[m.oid := Empty], m.newOid, y, inst, side);
    if m.locate == inst {
      assert ops + MsgOps(l, m, inst) == ops' + [Add(y.side, m.price, m.shares)];
    } else {
      assert ops + MsgOps(l, m, inst) == ops' + [];
    }
  }

  predicate Reduces(m: Msg) {
    m.OrderCancel? || m.OrderExecuted? || m.OrderExecutedWithPrice? || m.OrderDelete?
  }

  /** The order named by a reducing message loses everything it has. */
  predicate TakesAll(s: Slot, m: Msg)
    requires Reduces(m)
  {
    s.Live? && (m.OrderDelete? || m.shares >= s.qty)
  }

  lemma ReduceShape(l: seq<Slot>, insts: nat, m: Msg, inst: nat)
    requires Reduces(m) && Accepts(l, insts, m)
    ensures var s := l[m.oid];
            if s.Empty? then Step(l, m) == l && MsgOps(l, m, inst) == []
            else if TakesAll(s, m) then
              && Step(l, m) == l[m.oid := Empty]
              && MsgOps(l, m, inst) == if s.inst == inst then [Drop(s.side, s.price, s.qty)] else []
            else
              && Step(l, m) == l[m.oid := s.(qty := s.qty - m.shares)]
              && MsgOps(l, m, inst) == if s.inst == inst then [Dec(s.side, s.price, m.shares)] else []
  {
  }

  lemma ReduceAgrees(ops: seq<BookOp>, l: seq<Slot>, insts: nat, m: Msg, inst: nat, side: Side)
    requires Reduces(m) && Positive(l) && Accepts(l, insts, m) && BookAgrees(ops, l, inst, side)
    ensures BookAgrees(ops + MsgOps(l, m, inst), Step(l, m), inst, side)
  {
    hide BookAgrees, Positive, Step, MsgOps;
    ReduceShape(l, insts, m, inst);
    if l[m.oid].Empty? {
      assert ops + [] == ops;
    } else if TakesAll(l[m.oid], m) {
      Departure(ops, l, m.oid, inst, side);
    } else {
      Shrinkage(ops, l, m.oid, m.shares, inst, side);
    }
  }

  /** Every accepted message keeps every side of every book in agreement with the table. */
  lemma StepAgrees(ops: seq<BookOp>, l: seq<Slot>, insts: nat, m: Msg, inst: nat, side: Side)
    requires Positive(l) && Accepts(l, insts, m) && BookAgrees(ops, l, inst, side)
    ensures BookAgrees(ops + MsgOps(l, m, inst), Step(l, m), inst, side)
  {
    if m.Other? {
      assert ops + [] == ops;
    } else if m.AddOrder? {
      Arrival(ops, l, m.oid, Live(m.locate, m.side, m.price, m.shares), inst, side);
    } else if m.OrderReplace? {
      ReplaceAgrees(ops, l, insts, m, inst, side);
    } else {
      ReduceAgrees(ops, l, insts, m, inst, side);
    }
  }

  lemma StepPositive(l: seq<Slot>, insts: nat, m: Msg)
    requires Positive(l) && Accepts(l, insts, m)
    ensures Positive(Step(l, m)) && |Step(l, m)| == |l|
  {
  }

  // ---- Whole runs ----

  /** After every accepted run each side of each book is the group-by-price of the live orders. */
  lemma {:induction false} RunAgrees(trace: seq<Msg>, n: nat, insts: nat, inst: nat, side: Side)
    requires Accepted(trace, n, insts)
    ensures Positive(Run(trace, n)) && |Run(trace, n)| == n
    ensures BookAgrees(OpsFor(trace, n, inst), Run(trace, n), inst, side)
  {
    if trace == [] {
      assert forall p: u32 :: !Occupied(Blank(n), Key(inst, side, p));
    } else {
      var front, m := trace[..|trace| - 1], trace[|trace| - 1];
      RunAgrees(front, n, insts, inst, side);
      StepPositive(Run(front, n), insts, m);
      StepAgrees(OpsFor(front, n, inst), Run(front, n), insts, m, inst, side);
    }
  }

  /** All books agree with the table after one more message. */
  ghost predicate StillAgree(trace: seq<Msg>, m: Msg, n: nat) {
    forall inst, side :: BookAgrees(OpsFor(trace + [m], n, inst), Run(trace + [m], n), inst, side)
  }

  /** An order with shares can be entered exactly under an unused number, and where the sum stays below 2^32. */
  lemma AddNeedsUnusedNumber(trace: seq<Msg>, m: Msg, n: nat, insts: nat)
    requires Accepted(trace, n, insts) && m.AddOrder? && m.oid < n && m.shares > 0
    ensures |Run(trace, n)| == n
    ensures var l := Run(trace, n);
            StillAgree(trace, m, n)
            <==> l[m.oid].Empty? && SumAt(l, Key(m.locate, m.side, m.price)) + m.shares < MODULUS
  {
    var l := Run(trace, n);
    RunSnoc(trace, m, n, insts);
    RunAgrees(trace, n, insts, m.locate, m.side);
    var inst := if l[m.oid].Live? then l[m.oid].inst else m.locate;
    var side := if l[m.oid].Live? then l[m.oid].side else m.side;
    RunAgrees(trace, n, insts, inst, side);
    EnteredAgrees(OpsFor(trace, n, inst), l, m.oid, Live(m.locate, m.side, m.price, m.shares), inst, side);
    forall inst', side' | l[m.oid].Empty? && SumAt(l, Key(m.locate, m.side, m.price)) + m.shares < MODULUS
      ensures BookAgrees(OpsFor(trace + [m], n, inst'), Run(trace + [m], n), inst', side')
    {
      RunAgrees(trace, n, insts, inst', side');
      Arrival(OpsFor(trace, n, inst'), l, m.oid, Live(m.locate, m.side, m.price, m.shares), inst', side');
    }
  }

  /** Where an order is entered over slot `i`, in the book it enters or that of the order it covers. */
  lemma EnteredAgrees(ops: seq<BookOp>, l: seq<Slot>, i: nat, y: Slot, inst: nat, side: Side)
    requires BookAgrees(ops, l, inst, side) && Positive(l) && i < |l| && y.Live?
    requires if l[i].Live? then inst == l[i].inst && side == l[i].side else inst == y.inst && side == y.side
    ensures var more := if y.inst == inst then [Add(y.side, y.price, y.qty)] else [];
            BookAgrees(ops + more, l[i := y], inst, side)
            <==> l[i].Empty? && SumAt(l, Key(y.inst, y.side, y.price)) + y.qty < MODULUS
  {
    ReplaySnoc(ops, Add(y.side, y.price, y.qty));
    assert ops + [] == ops;
    if l[i].Live? {
      ReuseDisagrees(Replay(ops).On(side), l, i, y);
    } else {
      ArriveAgrees(Replay(ops).On(side), l, i, inst, side, y.price, y.qty);
    }
  }

  /** The same for the new number of a replacement, when it is not that of the live order itself. */
  lemma ReplaceNeedsUnusedNumber(trace: seq<Msg>, m: Msg, n: nat, insts: nat)
    requires Accepted(trace, n, insts) && m.OrderReplace? && m.oid < n && m.newOid < n && m.shares > 0
    requires |Run(trace, n)| == n
    requires Run(trace, n)[m.oid].Live? ==> Run(trace, n)[m.oid].inst == m.locate && m.oid != m.newOid
    ensures var l := Run(trace, n);
            StillAgree(trace, m, n)
            <==> l[m.newOid].Empty?
                 && SumAt(l[m.oid := Empty], Key(m.locate, SideOf(l[m.oid]), m.price)) + m.shares < MODULUS
  {
    hide BookAgrees, Positive, Accepted, RemoveOps;
    var l := Run(trace, n);
    var y, l' := Live(m.locate, SideOf(l[m.oid]), m.price, m.shares), l[m.oid := Empty];
    RunSnoc(trace, m, n, insts);
    var inst := if l[m.newOid].Live? then l[m.newOid].inst else m.locate;
    var side := if l[m.newOid].Live? then l[m.newOid].side else y.side;
    forall inst, side
      ensures BookAgrees(DropOps(trace, m, n, inst), l', inst, side) && Positive(l')
      ensures OpsFor(trace + [m], n, inst) ==
              DropOps(trace, m, n, inst) + if y.inst == inst then [Add(y.side, y.price, y.qty)] else []
    {
      RunAgrees(trace, n, insts, inst, side);
      Vacated(OpsFor(trace, n, inst), l, m.oid, m.locate, inst, side);
    }
    EnteredAgrees(DropOps(trace, m, n, inst), l', m.newOid, y, inst, side);
    forall inst', side' | l'[m.newOid].Empty? && SumAt(l', Key(m.locate, y.side, m.price)) + m.shares < MODULUS
      ensures BookAgrees(OpsFor(trace + [m], n, inst'), Run(trace + [m], n), inst', side')
    {
      Arrival(DropOps(trace, m, n, inst'), l', m.newOid, y, inst', side');
    }
  }

  /** The calls up to the departure of the order that is replaced. */
  function DropOps(trace: seq<Msg>, m: Msg, n: nat, inst: nat): seq<BookOp>
    requires m.OrderReplace? && m.oid < |Run(trace, n)|
  {
    OpsFor(trace, n, inst) + if m.locate == inst then RemoveOps(Run(trace, n)[m.oid]) else []
  }

  /** The best price is the extreme live price with its total quantity, and Pq(0, 0) when no order lives. */
  lemma BestOfRun(trace: seq<Msg>, n: nat, insts: nat, inst: nat, side: Side)
    requires Accepted(trace, n, insts)
    ensures var l, best := Run(trace, n), Best(Replay(OpsFor(trace, n, inst)).On(side));
            if forall p: u32 :: !Occupied(l, Key(inst, side, p)) then best == Pq(0, 0)
            else
              && Occupied(l, Key(inst, side, best.price))
              && best.qty == SumAt(l, Key(inst, side, best.price))
              && forall p: u32 :: Occupied(l, Key(inst, side, p)) ==>
                   if side == Bid then p <= best.price else p >= best.price
  {
    RunAgrees(trace, n, insts, inst, side);
    var s := Replay(OpsFor(trace, n, inst)).On(side);
    BestIsExtreme(side, s);
    if p: u32 :| Occupied(Run(trace, n), Key(inst, side, p)) {
      assert p in Content(s);
    } else {
      assert Content(s) == map[];
    }
  }

  // ---- Conservation of shares ----

  /** What happened to the shares entered under one reference number. */
  datatype Tally = Tally(added: nat, executed: nat, cancelled: nat, dropped: nat)

  function Min(a: nat, b: nat): nat {
    if a < b then a else b
  }

  /** Shares removed beyond those resting do not exist and are not counted. */
  function Count(t: Tally, l: seq<Slot>, m: Msg, oid: nat): Tally
    requires oid < |l|
  {
    var had := Resting(l[oid]);
    match m
    case Other(_, _) => t
    case AddOrder(_, o, _, shares, _) => if o == oid then t.(added := t.added + shares) else t
    case OrderCancel(_, o, shares) => if o == oid then t.(cancelled := t.cancelled + Min(shares, had)) else t
    case OrderExecuted(_, o, shares) => if o == oid then t.(executed := t.executed + Min(shares, had)) else t
    case OrderExecutedWithPrice(_, o, shares) => if o == oid then t.(executed := t.executed + Min(shares, had)) else t
    case OrderDelete(_, o) => if o == oid then t.(dropped := t.dropped + had) else t
    case OrderReplace(_, o, newOid, shares, _) =>
      var t' := if o == oid then t.(dropped := t.dropped + had) else t;
      if newOid == oid then t'.(added := t'.added + shares) else t'
  }

  /** A message moves the shares it takes from what rests to the column of its kind, and nothing else. */
  lemma CountEffect(t: Tally, l: seq<Slot>, insts: nat, m: Msg, oid: nat)
    requires Accepts(l, insts, m) && oid < |l|
    ensures |Step(l, m)| == |l|
    ensures var t', now := Count(t, l, m, oid), Resting(Step(l, m)[oid]);
            && (m.OrderCancel? ==> t' == t.(cancelled := t.cancelled + Resting(l[oid]) - now))
            && (m.OrderExecuted? || m.OrderExecutedWithPrice? ==>
                  t' == t.(executed := t.executed + Resting(l[oid]) - now))
            && (m.OrderDelete? ==> t' == t.(dropped := t.dropped + Resting(l[oid]) - now))
            && (m.AddOrder? ==> t' == t.(added := t.added + now - Resting(l[oid])))
            && (m.OrderReplace? && oid != m.newOid ==> t' == t.(dropped := t.dropped + Resting(l[oid]) - now))
            && (m.OrderReplace? && oid == m.newOid ==> t' == t.(added := t.added + now))
            && (m.Other? ==> t' == t)
  {
  }

  function TallyOf(trace: seq<Msg>, n: nat, oid: nat): Tally
    requires oid < n
  {
    if trace == [] then Tally(0, 0, 0, 0)
    else
      var front := trace[..|trace| - 1];
      RunLength(front, n);
      Count(TallyOf(front, n, oid), Run(front, n), trace[|trace| - 1], oid)
  }

  /** Every share ever added was executed, cancelled, dropped, or still rests. */
  lemma {:induction false} SharesConserved(trace: seq<Msg>, n: nat, insts: nat, oid: nat)
    requires Accepted(trace, n, insts) && oid < n
    ensures |Run(trace, n)| == n
    ensures var t := TallyOf(trace, n, oid);
            t.added == t.executed + t.cancelled + t.dropped + Resting(Run(trace, n)[oid])
  {
    RunLength(trace, n);
    if trace != [] {
      SharesConserved(trace[..|trace| - 1], n, insts, oid);
    }
  }

  /** The levels of a side always total the shares resting on it. */
  lemma SharesOnSide(trace: seq<Msg>, n: nat, insts: nat, inst: nat, side: Side)
    requires Accepted(trace, n, insts)
    ensures LevelTotal(Replay(OpsFor(trace, n, inst)).On(side)) == Sum(Run(trace, n), OnSide(inst, side))
  {
    RunAgrees(trace, n, insts, inst, side);
    SideTotal(Replay(OpsFor(trace, n, inst)).On(side), Run(trace, n), inst, side);
  }
}
