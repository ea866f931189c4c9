/**
 An encoder for the wire format, written from the field layout alone: the inverse
 that `Decode` and `Scan` are measured against.
 */
module Encoding {
  import opened Core
  import opened Session
  import opened Wire

  function Bytes16(n: nat): (b: seq<byte>)
    requires n < 0x1_0000
    ensures |b| == 2
  {
    [n / 0x100, n % 0x100]
  }

  function Bytes32(n: u32): (b: seq<byte>)
    ensures |b| == 4
  {
    Bytes16(n / 0x1_0000) + Bytes16(n % 0x1_0000)
  }

  function Bytes64(n: nat): (b: seq<byte>)
    requires n < 0x1_0000_0000_0000_0000
    ensures |b| == 8
  {
    Bytes32(n / 0x1_0000_0000) + Bytes32(n % 0x1_0000_0000)
  }

  lemma Read16(pre: seq<byte>, n: nat, post: seq<byte>)
    requires n < 0x1_0000
    ensures Word16(pre + Bytes16(n) + post, |pre|) == n
  {
  }

  lemma Read32(pre: seq<byte>, n: u32, post: seq<byte>)
    ensures Word32(pre + Bytes32(n) + post, |pre|) == n
  {
    hide Word16, Bytes16;
    var hi, lo := n / 0x1_0000, n % 0x1_0000;
    var b := pre + Bytes32(n) + post;
    Read16(pre, hi, Bytes16(lo) + post);
    Read16(pre + Bytes16(hi), lo, post);
    assert b == pre + Bytes16(hi) + (Bytes16(lo) + post);
    assert b == pre + Bytes16(hi) + Bytes16(lo) + post;
  }

  lemma Read64(pre: seq<byte>, n: nat, post: seq<byte>)
    requires n < 0x1_0000_0000_0000_0000
    ensures Word64(pre + Bytes64(n) + post, |pre|) == n
  {
    hide Word32, Bytes32;
    var hi, lo := n / 0x1_0000_0000, n % 0x1_0000_0000;
    var b := pre + Bytes64(n) + post;
    Read32(pre, hi, Bytes32(lo) + post);
    Read32(pre + Bytes32(hi), lo, post);
    assert b == pre + Bytes32(hi) + (Bytes32(lo) + post);
    assert b == pre + Bytes32(hi) + Bytes32(lo) + post;
  }

  function Zeros(n: nat): (b: seq<byte>)
    ensures |b| == n
  {
    seq(n, _ => 0)
  }

  /** Length field, type, locate; tracking number and timestamp are zero. */
  function Header(size: nat, t: byte, locate: nat): (b: seq<byte>)
    requires 2 <= size < 0x1_0000 && locate < 0x1_0000
    ensures |b| == HEADER_SIZE
  {
    Bytes16(size - 2) + [t] + Bytes16(locate) + Zeros(8)
  }

  predicate IsOid(oid: nat) {
    oid < 0x1_0000_0000_0000_0000
  }

  /** A message with the attribution it is sent with; only an added order has one, of four bytes. */
  datatype Sent = Sent(msg: Msg, mpid: seq<byte>)

  /** The message fits its fields. */
  predicate Encodable(w: Sent) {
    var m := w.msg;
    && (w.mpid == [] || (m.AddOrder? && |w.mpid| == 4))
    && match m
       case Other(kind, instrument) =>
         && kind < 256 && IsOtherType(kind) && (instrument.Some? <==> FindsInstrument(kind))
         && (instrument.Some? ==> instrument.locate < 0x1_0000)
       case OrderReplace(locate, oid, newOid, _, _) => locate < 0x1_0000 && IsOid(oid) && IsOid(newOid)
       case _ => m.locate < 0x1_0000 && IsOid(m.oid)
  }

  function AddType(mpid: seq<byte>): byte {
    if mpid == [] then ADD_ORDER else ADD_ORDER_WITH_MPID
  }

  function LocateOf(instrument: Option): nat {
    if instrument.Some? then instrument.locate else 0
  }

  function Encode(w: Sent): seq<byte>
    requires Encodable(w)
  {
    match w.msg
    case AddOrder(locate, oid, side, shares, price) =>
      Header(38 + |w.mpid|, AddType(w.mpid), locate) + Bytes64(oid) + [if side == Bid then BUY else SELL]
      + Bytes32(shares) + Zeros(8) + Bytes32(price) + w.mpid
    case OrderExecuted(locate, oid, shares) =>
      Header(33, ORDER_EXECUTED, locate) + Bytes64(oid) + Bytes32(shares) + Zeros(8)
    case OrderExecutedWithPrice(locate, oid, shares) =>
      Header(38, ORDER_EXECUTED_WITH_PRICE, locate) + Bytes64(oid) + Bytes32(shares) + Zeros(13)
    case OrderCancel(locate, oid, shares) =>
      Header(25, ORDER_CANCEL, locate) + Bytes64(oid) + Bytes32(shares)
    case OrderDelete(locate, oid) =>
      Header(21, ORDER_DELETE, locate) + Bytes64(oid)
    case OrderReplace(locate, oid, newOid, shares, price) =>
      Header(37, ORDER_REPLACE, locate) + Bytes64(oid) + Bytes64(newOid) + Bytes32(shares) + Bytes32(price)
    case Other(kind, instrument) =>
      Header(ReadSize(kind), kind, LocateOf(instrument)) + Zeros(ReadSize(kind) - HEADER_SIZE)
  }

  /** The header says how long the message is and what it is, whatever follows it. */
  lemma HeaderRead(size: nat, t: byte, locate: nat, post: seq<byte>)
    requires 2 <= size < 0x1_0000 && locate < 0x1_0000 && |post| > 0
    ensures var b := Header(size, t, locate) + post; MsgLen(b) == size && b[2] == t && Word16(b, 3) == locate
  {
    var b := Header(size, t, locate) + post;
    var tail := [t] + Bytes16(locate) + Zeros(8) + post;
    Read16([], size - 2, tail);
    assert b == [] + Bytes16(size - 2) + tail;
    var pre := Bytes16(size - 2) + [t];
    Read16(pre, locate, Zeros(8) + post);
    assert b == pre + Bytes16(locate) + (Zeros(8) + post);
  }

  /** A complete message of a known type, of the size its handler reads. */
  predicate WellFormed(b: seq<byte>) {
    Complete(b) && MsgLen(b) == |b| && Known(b[2]) && |b| >= ReadSize(b[2])
  }

  lemma Regroup(a: seq<byte>, b: seq<byte>, c: seq<byte>, d: seq<byte>, e: seq<byte>, f: seq<byte>, g: seq<byte>)
    ensures a + b + c + d + e + f + g == a + b + (c + d + e + f + g)
    ensures a + b + c + d + e + f + g == a + (b + c + d + e + f + g)
    ensures a + b + c + d + e + f + g == a + b + c + d + (e + f + g)
  {
    assert d + e + f + g == d + (e + f + g);
    assert c + d + e + f + g == c + d + (e + f + g);
    assert a + b + c + d + e + f + g == a + b + c + d + (e + f + g);
    assert a + b + c + d + (e + f + g) == a + b + (c + d + (e + f + g));
    assert a + b + (c + d + e + f + g) == a + (b + (c + d + e + f + g));
    assert b + c + d + e + f + g == b + (c + d + e + f + g);
  }

  lemma AddFields(w: Sent)
    requires w.msg.AddOrder? && Encodable(w)
    ensures var b, m := Encode(w), w.msg;
            && |b| == 38 + |w.mpid| && b[21] == (if m.side == Bid then BUY else SELL)
            && Word64(b, 13) == m.oid && Word32(b, 22) == m.shares && Word32(b, 34) == m.price
  {
    var m := w.msg;
    var b, h := Encode(w), Header(38 + |w.mpid|, AddType(w.mpid), m.locate);
    var s := [if m.side == Bid then BUY else SELL];
    var oid, shares, price := Bytes64(m.oid), Bytes32(m.shares), Bytes32(m.price);
    hide Header, Bytes64, Bytes32, Zeros, Word32, Word64, AddType;
    Regroup(h, oid, s, shares, Zeros(8), price, w.mpid);
    Read64(h, m.oid, s + shares + Zeros(8) + price + w.mpid);
    Read32(h + oid + s, m.shares, Zeros(8) + price + w.mpid);
    Read32(h + oid + s + shares + Zeros(8), m.price, w.mpid);
  }

  /** With attribution or without. */
  lemma AddRoundTrip(w: Sent)
    requires w.msg.AddOrder? && Encodable(w)
    ensures WellFormed(Encode(w)) && Decode(Encode(w)) == w.msg
  {
    AddFields(w);
    var m, t := w.msg, AddType(w.mpid);
    var s := [if m.side == Bid then BUY else SELL];
    var post := Bytes64(m.oid) + s + Bytes32(m.shares) + Zeros(8) + Bytes32(m.price) + w.mpid;
    hide Header, Bytes64, Bytes32, Zeros, Word16, Word32, Word64, MsgLen;
    HeaderRead(38 + |w.mpid|, t, m.locate, post);
    assert Encode(w) == Header(38 + |w.mpid|, t, m.locate) + post;
  }

  lemma Regroup4(a: seq<byte>, b: seq<byte>, c: seq<byte>, d: seq<byte>)
    ensures a + b + c + d == a + (b + c + d) == a + b + (c + d)
  {
    assert b + c + d == b + (c + d);
    assert a + b + c + d == a + b + (c + d);
    assert a + b + (c + d) == a + (b + (c + d));
  }

  /** The shape shared by executions and cancels: header, number, shares, filler. */
  lemma ReduceFields(size: nat, t: byte, locate: nat, oid: nat, shares: u32, post: seq<byte>)
    requires 25 <= size < 0x1_0000 && |post| == size - 25 && locate < 0x1_0000 && IsOid(oid)
    ensures var b := Header(size, t, locate) + Bytes64(oid) + Bytes32(shares) + post;
            && |b| == size == MsgLen(b) && b[2] == t && Word16(b, 3) == locate
            && Word64(b, 13) == oid && Word32(b, 21) == shares
  {
    var h, o, s := Header(size, t, locate), Bytes64(oid), Bytes32(shares);
    var b := h + o + s + post;
    hide Header, Bytes64, Bytes32, Word16, Word32, Word64, MsgLen;
    Regroup4(h, o, s, post);
    HeaderRead(size, t, locate, o + s + post);
    Read64(h, oid, s + post);
    Read32(h + o, shares, post);
  }

  lemma ReplaceRoundTrip(w: Sent)
    requires w.msg.OrderReplace? && Encodable(w)
    ensures WellFormed(Encode(w)) && Decode(Encode(w)) == w.msg
  {
    var m := w.msg;
    var b, h := Encode(w), Header(37, ORDER_REPLACE, m.locate);
    var oid, newOid, shares, price := Bytes64(m.oid), Bytes64(m.newOid), Bytes32(m.shares), Bytes32(m.price);
    hide Header, Bytes64, Bytes32, Word16, Word32, Word64, MsgLen;
    HeaderRead(37, ORDER_REPLACE, m.locate, oid + newOid + shares + price);
    assert b == h + (oid + newOid + shares + price);
    Read64(h, m.oid, newOid + shares + price);
    assert b == h + oid + (newOid + shares + price);
    Read64(h + oid, m.newOid, shares + price);
    assert b == h + oid + newOid + (shares + price);
    Read32(h + oid + newOid, m.shares, price);
    Read32(h + oid + newOid + shares, m.price, []);
    assert b == h + oid + newOid + shares + price + [];
  }

  /** Every message that fits its fields is read back from its encoding. */
  lemma RoundTrip(w: Sent)
    requires Encodable(w)
    ensures WellFormed(Encode(w)) && Decode(Encode(w)) == w.msg
  {
    hide Encode, Decode, WellFormed, Encodable;
    match w.msg
    case AddOrder(_, _, _, _, _) => AddRoundTrip(w);
    case OrderReplace(_, _, _, _, _) => ReplaceRoundTrip(w);
    case OrderDelete(_, _) => DeleteRoundTrip(w);
    case Other(_, _) => OtherRoundTrip(w);
    case _ => ReduceRoundTrip(w);
  }

  lemma OtherRoundTrip(w: Sent)
    requires w.msg.Other? && Encodable(w)
    ensures WellFormed(Encode(w)) && Decode(Encode(w)) == w.msg
  {
    var kind: byte := w.msg.kind;
    var size := ReadSize(kind);
    hide Header, Word16, MsgLen, ReadSize, Zeros, Fields, Total, IsOtherType, IsOrderType, Decode, FindsInstrument;
    HeaderRead(size, kind, LocateOf(w.msg.instrument), Zeros(size - HEADER_SIZE));
    DecodeOther(Encode(w));
  }

  lemma DecodeOther(b: seq<byte>)
    requires |b| > HEADER_SIZE && IsOtherType(b[2]) && |b| >= ReadSize(b[2])
    ensures Decode(b) == Other(b[2], if FindsInstrument(b[2]) then Some(Word16(b, 3)) else None)
  {
    hide ReadSize, Word16, Word32, Word64;
  }

  lemma ReduceRoundTrip(w: Sent)
    requires (w.msg.OrderExecuted? || w.msg.OrderExecutedWithPrice? || w.msg.OrderCancel?) && Encodable(w)
    ensures WellFormed(Encode(w)) && Decode(Encode(w)) == w.msg
  {
    var m := w.msg;
    hide Header, Bytes64, Bytes32, Zeros, Word16, Word32, Word64, MsgLen;
    if m.OrderExecuted? {
      ReduceFields(33, ORDER_EXECUTED, m.locate, m.oid, m.shares, Zeros(8));
    } else if m.OrderExecutedWithPrice? {
      ReduceFields(38, ORDER_EXECUTED_WITH_PRICE, m.locate, m.oid, m.shares, Zeros(13));
    } else {
      assert Encode(w) + [] == Encode(w);
      ReduceFields(25, ORDER_CANCEL, m.locate, m.oid, m.shares, []);
    }
  }

  lemma DeleteRoundTrip(w: Sent)
    requires w.msg.OrderDelete? && Encodable(w)
    ensures WellFormed(Encode(w)) && Decode(Encode(w)) == w.msg
  {
    var m := w.msg;
    hide Header, Bytes64, Word16, Word32, Word64, MsgLen;
    HeaderRead(21, ORDER_DELETE, m.locate, Bytes64(m.oid));
    Read64(Header(21, ORDER_DELETE, m.locate), m.oid, []);
    assert Encode(w) + [] == Encode(w);
  }

  function EncodeAll(ws: seq<Sent>): seq<byte>
    requires forall w :: w in ws ==> Encodable(w)
  {
    if ws == [] then [] else Encode(ws[0]) + EncodeAll(ws[1..])
  }

  function Messages(ws: seq<Sent>): seq<Msg> {
    if ws == [] then [] else [ws[0].msg] + Messages(ws[1..])
  }

  /** A stream of encoded messages is scanned to exactly those messages, and consumed whole. */
  lemma {:induction false} StreamRoundTrip(ws: seq<Sent>)
    requires forall w :: w in ws ==> Encodable(w)
    ensures Scan(EncodeAll(ws)) == Scanned(Messages(ws), |EncodeAll(ws)|, NeedMore)
  {
    if ws != [] {
      var a, b := Encode(ws[0]), EncodeAll(ws[1..]);
      RoundTrip(ws[0]);
      StreamRoundTrip(ws[1..]);
      hide Encode, Decode, Complete, MsgLen, Scan, Encodable, ReadSize;
      ScanFirst(a, b);
      WholeMessage(a, b);
    }
  }

  lemma WholeMessage(a: seq<byte>, b: seq<byte>)
    requires WellFormed(a)
    ensures a[..MsgLen(a)] == a && a[MsgLen(a)..] + b == b
  {
    assert a[|a|..] == [];
    assert [] + b == b;
  }
}
