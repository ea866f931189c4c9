/**
 The wire format: length-prefixed big-endian messages (src/protocol/itch/itch.cppgen.json,
 after the sections "Add Order Message" and "Modify Order Messages" of Nasdaq
 TotalView-ITCH 5.0) and the framing of src/itch/parser.hpp.
 */
module Wire {
  import opened Core
  import opened Session

  type byte = n: nat | n < 256

  /** `sizeof(header)`: length, type, locate, tracking number, timestamp. */
  const HEADER_SIZE: nat := 13

  // ---- Big-endian words ----

  function Join16(b0: nat, b1: nat): nat {
    b0 * 0x100 + b1
  }

  function Word16(b: seq<byte>, at: nat): (w: nat)
    requires at + 2 <= |b|
    ensures w < 0x1_0000
  {
    Join16(b[at], b[at + 1])
  }

  function Word32(b: seq<byte>, at: nat): u32
    requires at + 4 <= |b|
  {
    Word16(b, at) * 0x1_0000 + Word16(b, at + 2)
  }

  function Word64(b: seq<byte>, at: nat): nat
    requires at + 8 <= |b|
  {
    var hi: nat, lo: nat := Word32(b, at), Word32(b, at + 4);
    hi * 0x1_0000_0000 + lo
  }

  // ---- Message types ----

  const ADD_ORDER: byte := 65               // 'A'
  const ADD_ORDER_WITH_MPID: byte := 70     // 'F'
  const ORDER_EXECUTED: byte := 69          // 'E'
  const ORDER_EXECUTED_WITH_PRICE: byte := 67 // 'C'
  const ORDER_CANCEL: byte := 88            // 'X'
  const ORDER_DELETE: byte := 68            // 'D'
  const ORDER_REPLACE: byte := 85           // 'U'
  const BUY: byte := 66                     // 'B'
  const SELL: byte := 83                    // 'S'

  // The types whose handlers leave the order table alone.
  const SYSTEM_EVENT: byte := 83            // 'S'
  const STOCK_DIRECTORY: byte := 82         // 'R'
  const STOCK_TRADING_ACTION: byte := 72    // 'H'
  const REG_SHO_RESTRICTION: byte := 89     // 'Y'
  const MARKET_PARTICIPANT_POSITION: byte := 76 // 'L'
  const MWCB_DECLINE_LEVEL: byte := 86      // 'V'
  const MWCB_STATUS: byte := 87             // 'W'
  const IPO_QUOTING_PERIOD_UPDATE: byte := 75 // 'K'
  const LULD_AUCTION_COLLAR: byte := 74     // 'J'
  const OPERATIONAL_HALT: byte := 104       // 'h'
  const TRADE_NON_CROSS: byte := 80         // 'P'
  const TRADE_CROSS: byte := 81             // 'Q'
  const BROKEN_TRADE: byte := 66            // 'B'
  const NOII: byte := 73                    // 'I'

  predicate IsOtherType(t: byte) {
    || t == SYSTEM_EVENT || t == STOCK_DIRECTORY || t == STOCK_TRADING_ACTION || t == REG_SHO_RESTRICTION
    || t == MARKET_PARTICIPANT_POSITION || t == MWCB_DECLINE_LEVEL || t == MWCB_STATUS
    || t == IPO_QUOTING_PERIOD_UPDATE || t == LULD_AUCTION_COLLAR || t == OPERATIONAL_HALT
    || t == TRADE_NON_CROSS || t == TRADE_CROSS || t == BROKEN_TRADE || t == NOII
  }

  /** Its handler looks up the instrument of the locate, though not its book. */
  predicate FindsInstrument(t: byte) {
    || t == STOCK_DIRECTORY || t == STOCK_TRADING_ACTION || t == OPERATIONAL_HALT
    || t == TRADE_NON_CROSS || t == TRADE_CROSS
  }

  predicate IsOrderType(t: byte) {
    || t == ADD_ORDER || t == ADD_ORDER_WITH_MPID || t == ORDER_EXECUTED || t == ORDER_EXECUTED_WITH_PRICE
    || t == ORDER_CANCEL || t == ORDER_DELETE || t == ORDER_REPLACE
  }

  /** The `switch` has a case for it. */
  predicate Known(t: byte) {
    IsOrderType(t) || IsOtherType(t)
  }

  /** The widths of the packed fields behind the header; of the halt message without its two codes. */
  function Fields(t: byte): seq<nat>
    requires Known(t)
  {
    if t == ADD_ORDER then [8, 1, 4, 8, 4]
    else if t == ADD_ORDER_WITH_MPID then [8, 1, 4, 8, 4, 4]
    else if t == ORDER_EXECUTED then [8, 4, 8]
    else if t == ORDER_EXECUTED_WITH_PRICE then [8, 4, 8, 1, 4]
    else if t == ORDER_CANCEL then [8, 4]
    else if t == ORDER_DELETE then [8]
    else if t == ORDER_REPLACE then [8, 8, 4, 4]
    else if t == SYSTEM_EVENT then [1]
    else if t == STOCK_DIRECTORY then [8, 1, 1, 4, 1, 1, 2, 1, 1, 1, 1, 1, 4, 1]
    else if t == STOCK_TRADING_ACTION then [8, 1, 1, 4]
    else if t == REG_SHO_RESTRICTION then [8, 1]
    else if t == MARKET_PARTICIPANT_POSITION then [4, 8, 1, 1, 1]
    else if t == MWCB_DECLINE_LEVEL then [8, 8, 8]
    else if t == MWCB_STATUS then [1]
    else if t == IPO_QUOTING_PERIOD_UPDATE then [8, 4, 1, 4]
    else if t == LULD_AUCTION_COLLAR then [8, 4, 4, 4, 4]
    else if t == OPERATIONAL_HALT then [8]
    else if t == TRADE_NON_CROSS then [8, 1, 4, 8, 4, 8]
    else if t == TRADE_CROSS then [8, 8, 4, 8, 1]
    else if t == BROKEN_TRADE then [8]
    else [8, 8, 1, 8, 4, 4, 4, 1, 1]
  }

  function Total(widths: seq<nat>): nat {
    if widths == [] then 0 else widths[0] + Total(widths[1..])
  }

  /** The size of the structure a message's handler reads. */
  function ReadSize(t: byte): (n: nat)
    requires Known(t)
    ensures HEADER_SIZE < n <= 52
  {
    if t == ADD_ORDER then 38
    else if t == ADD_ORDER_WITH_MPID then 42
    else if t == ORDER_EXECUTED then 33
    else if t == ORDER_EXECUTED_WITH_PRICE then 38
    else if t == ORDER_CANCEL then 25
    else if t == ORDER_DELETE then 21
    else if t == ORDER_REPLACE then 37
    else if t == SYSTEM_EVENT then 14
    else if t == STOCK_DIRECTORY then 41
    else if t == STOCK_TRADING_ACTION then 27
    else if t == REG_SHO_RESTRICTION then 22
    else if t == MARKET_PARTICIPANT_POSITION then 28
    else if t == MWCB_DECLINE_LEVEL then 37
    else if t == MWCB_STATUS then 14
    else if t == IPO_QUOTING_PERIOD_UPDATE then 30
    else if t == LULD_AUCTION_COLLAR then 37
    else if t == OPERATIONAL_HALT then 21
    else if t == TRADE_NON_CROSS then 46
    else if t == TRADE_CROSS then 42
    else if t == BROKEN_TRADE then 21
    else 52
  }

  lemma FieldTotals()
    ensures Total([8, 1, 4, 8, 4]) == 25
    ensures Total([8, 1, 4, 8, 4, 4]) == 29
    ensures Total([8, 4, 8]) == 20
    ensures Total([8, 4, 8, 1, 4]) == 25
    ensures Total([8, 4]) == 12
    ensures Total([8]) == 8
    ensures Total([8, 8, 4, 4]) == 24
    ensures Total([1]) == 1
    ensures Total([8, 1, 1, 4]) == 14
    ensures Total([8, 1]) == 9
    ensures Total([4, 8, 1, 1, 1]) == 15
    ensures Total([8, 8, 8]) == 24
    ensures Total([8, 4, 1, 4]) == 17
    ensures Total([8, 4, 4, 4, 4]) == 24
    ensures Total([8, 1, 4, 8, 4, 8]) == 33
    ensures Total([8, 8, 4, 8, 1]) == 29
    ensures Total([8, 8, 1, 8, 4, 4, 4, 1, 1]) == 39
  {
  }

  lemma DirectoryTotal()
    ensures Total([8, 1, 1, 4, 1, 1, 2, 1, 1, 1, 1, 1, 4, 1]) == 28
  {
    assert Total([2, 1, 1, 1, 1, 1, 4, 1]) == 12;
    assert [8, 1, 1, 4, 1, 1, 2, 1, 1, 1, 1, 1, 4, 1][6..] == [2, 1, 1, 1, 1, 1, 4, 1];
  }

  /** Every structure is its header and its packed fields. */
  lemma StructSizes(t: byte)
    requires Known(t)
    ensures ReadSize(t) == HEADER_SIZE + Total(Fields(t))
  {
    hide Total;
    FieldTotals();
    DirectoryTotal();
  }

  /** Where field `i` behind the header starts. */
  function Offset(t: byte, i: nat): nat
    requires Known(t) && i <= |Fields(t)|
  {
    HEADER_SIZE + Total(Fields(t)[..i])
  }

  /** The places `Decode` reads are those of the packed fields. */
  lemma DecodedPlaces()
    ensures Total([2, 1, 2, 2, 6]) == HEADER_SIZE
    ensures Offset(ADD_ORDER, 1) == 21 && Offset(ADD_ORDER, 2) == 22 && Offset(ADD_ORDER, 4) == 34
    ensures forall i :: 0 <= i <= 4 ==> Offset(ADD_ORDER_WITH_MPID, i) == Offset(ADD_ORDER, i)
    ensures Offset(ORDER_EXECUTED, 1) == Offset(ORDER_EXECUTED_WITH_PRICE, 1) == Offset(ORDER_CANCEL, 1) == 21
    ensures Offset(ORDER_REPLACE, 1) == 21 && Offset(ORDER_REPLACE, 2) == 29 && Offset(ORDER_REPLACE, 3) == 33
  {
    forall i | 0 <= i <= 4
      ensures Fields(ADD_ORDER_WITH_MPID)[..i] == Fields(ADD_ORDER)[..i]
    {
    }
    assert Fields(ADD_ORDER)[..1] == [8];
    assert Fields(ADD_ORDER)[..2] == [8, 1];
    assert Fields(ADD_ORDER)[..4] == [8, 1, 4, 8];
    assert Fields(ORDER_EXECUTED)[..1] == Fields(ORDER_EXECUTED_WITH_PRICE)[..1] == Fields(ORDER_CANCEL)[..1] == [8];
    assert Fields(ORDER_REPLACE)[..1] == [8];
    assert Fields(ORDER_REPLACE)[..2] == [8, 8];
    assert Fields(ORDER_REPLACE)[..3] == [8, 8, 4];
  }

  function Decode(b: seq<byte>): Msg
    requires |b| > HEADER_SIZE && Known(b[2]) && |b| >= ReadSize(b[2])
  {
    var t, locate := b[2], Word16(b, 3);
    if t == ADD_ORDER || t == ADD_ORDER_WITH_MPID then
      AddOrder(locate, Word64(b, 13), if b[21] == BUY then Bid else Ask, Word32(b, 22), Word32(b, 34))
    else if t == ORDER_EXECUTED then OrderExecuted(locate, Word64(b, 13), Word32(b, 21))
    else if t == ORDER_EXECUTED_WITH_PRICE then OrderExecutedWithPrice(locate, Word64(b, 13), Word32(b, 21))
    else if t == ORDER_CANCEL then OrderCancel(locate, Word64(b, 13), Word32(b, 21))
    else if t == ORDER_DELETE then OrderDelete(locate, Word64(b, 13))
    else if t == ORDER_REPLACE then OrderReplace(locate, Word64(b, 13), Word64(b, 21), Word32(b, 29), Word32(b, 33))
    else Other(t, if FindsInstrument(t) then Some(locate) else None)
  }

  // ---- Framing ----

  /** `msg_len`, a 16-bit word: the length field counts the bytes after itself. */
  function MsgLen(b: seq<byte>): nat
    requires |b| > HEADER_SIZE
  {
    (Word16(b, 0) + 2) % 0x1_0000
  }

  /** The loop goes on: more than a header is there, and the whole message is. */
  predicate Complete(b: seq<byte>) {
    |b| > HEADER_SIZE && MsgLen(b) <= |b|
  }

  /** How the framing loop comes to an end. `Short`: a message shorter than what its handler reads. */
  datatype Ending = NeedMore | UnknownType | Short

  /** The messages dispatched, the bytes consumed, and the ending. */
  datatype Scanned = Scanned(msgs: seq<Msg>, used: nat, end: Ending)

  function Scan(b: seq<byte>): (r: Scanned)
    ensures r.used <= |b|
  {
    if !Complete(b) then Scanned([], 0, NeedMore)
    else if !Known(b[2]) then Scanned([], 0, UnknownType)
    else if MsgLen(b) < ReadSize(b[2]) then Scanned([], 0, Short)
    else
      var n := MsgLen(b);
      var rest := Scan(b[n..]);
      Scanned([Decode(b[..n])] + rest.msgs, n + rest.used, rest.end)
  }

  /** Nothing complete is left behind, and less than 2^16 - 1 bytes are. */
  lemma {:induction false} ScanMaximal(b: seq<byte>)
    requires Scan(b).end == NeedMore
    ensures !Complete(Left(b)) && |Left(b)| <= 65534
  {
    if Complete(b) {
      var n := MsgLen(b);
      ScanMaximal(b[n..]);
      assert b[Scan(b).used..] == b[n..][Scan(b[n..]).used..];
    } else {
      assert b[0..] == b;
    }
  }

  /** What is there does not depend on what follows. */
  lemma FrameOfPrefix(a: seq<byte>, b: seq<byte>)
    requires Complete(a)
    ensures |a| > HEADER_SIZE && MsgLen(a) <= |a|
    ensures Complete(a + b) && MsgLen(a + b) == MsgLen(a) && (a + b)[2] == a[2]
    ensures MsgLen(a) > 0 ==> (a + b)[..MsgLen(a)] == a[..MsgLen(a)] && (a + b)[MsgLen(a)..] == a[MsgLen(a)..] + b
  {
  }

  /** One message of `n` bytes in front of a scan. */
  function Front(m: Msg, n: nat, s: Scanned): Scanned {
    Scanned([m] + s.msgs, n + s.used, s.end)
  }

  /** One scan after another. */
  function Then(s: Scanned, t: Scanned): Scanned {
    Scanned(s.msgs + t.msgs, s.used + t.used, t.end)
  }

  /** The bytes a scan leaves. */
  function Left(b: seq<byte>): seq<byte> {
    b[Scan(b).used..]
  }

  /** The first message is scanned, or refused, without regard to what follows. */
  lemma ScanFirst(a: seq<byte>, b: seq<byte>)
    requires Complete(a)
    ensures |a| > HEADER_SIZE && MsgLen(a) <= |a|
    ensures var n := MsgLen(a);
            if Known(a[2]) && n >= ReadSize(a[2]) then
              && 0 < n
              && Scan(a) == Front(Decode(a[..n]), n, Scan(a[n..]))
              && Scan(a + b) == Front(Decode(a[..n]), n, Scan(a[n..] + b))
              && Left(a) == Left(a[n..])
            else Scan(a).end != NeedMore && Scan(a + b) == Scan(a)
  {
    hide Decode, MsgLen, Complete;
    FrameOfPrefix(a, b);
    var n := MsgLen(a);
    if Known(a[2]) && n >= ReadSize(a[2]) {
      assert a[n..][Scan(a[n..]).used..] == a[Scan(a).used..];
    }
  }

  lemma FrontThen(m: Msg, n: nat, s: Scanned, t: Scanned)
    ensures Front(m, n, Then(s, t)) == Then(Front(m, n, s), t) && Front(m, n, s).end == s.end
  {
    assert [m] + (s.msgs + t.msgs) == [m] + s.msgs + t.msgs;
  }

  /** Scanning in two parts: the first part, then the bytes it left together with the second part. */
  lemma {:induction false} ScanAppend(a: seq<byte>, b: seq<byte>)
    ensures Scan(a + b) == if Scan(a).end == NeedMore then Then(Scan(a), Scan(Left(a) + b)) else Scan(a)
  {
    if !Complete(a) {
      assert Left(a) == a;
      assert [] + Scan(a + b).msgs == Scan(a + b).msgs;
    } else {
      hide Decode, Known, ReadSize, MsgLen, Complete, Scan, Front, Then, Left;
      ScanFirst(a, b);
      var n := MsgLen(a);
      if Known(a[2]) && n >= ReadSize(a[2]) {
        ScanAppend(a[n..], b);
        FrontThen(Decode(a[..n]), n, Scan(a[n..]), Scan(Left(a) + b));
      }
    }
  }

  // ---- The format in letters and bytes ----

  /** The value of bytes in network order. */
  function BigEndian(b: seq<byte>): nat {
    if b == [] then 0 else BigEndian(b[..|b| - 1]) * 256 + b[|b| - 1]
  }

  function Weight(n: nat): nat {
    if n == 0 then 1 else Weight(n - 1) * 256
  }

  lemma {:induction false} BigEndianSplit(b: seq<byte>, k: nat)
    requires k <= |b|
    ensures BigEndian(b) == BigEndian(b[..k]) * Weight(|b| - k) + BigEndian(b[k..])
  {
    var n := |b| - 1;
    if k == |b| {
      assert b[..k] == b;
    } else {
      BigEndianSplit(b[..n], k);
      assert b[..n][..k] == b[..k] && b[k..][..n - k] == b[..n][k..];
      TimesByte(BigEndian(b[..k]), Weight(n - k), BigEndian(b[..n][k..]));
    }
  }

  lemma TimesByte(x: nat, w: nat, y: nat)
    ensures (x * w + y) * 256 == x * (w * 256) + y * 256
  {
  }

  lemma BigEndian16(b: seq<byte>)
    requires |b| == 2
    ensures BigEndian(b) == Word16(b, 0)
  {
    assert b[..1][..0] == [];
    assert BigEndian(b[..1]) == b[0];
  }

  lemma BigEndian32(b: seq<byte>)
    requires |b| == 4
    ensures BigEndian(b) == Word32(b, 0)
  {
    BigEndianSplit(b, 2);
    BigEndian16(b[..2]);
    BigEndian16(b[2..]);
    assert Weight(2) == Weight(1) * 256;
    assert Weight(1) == 256;
  }

  lemma BigEndian64(b: seq<byte>)
    requires |b| == 8
    ensures BigEndian(b) == Word64(b, 0)
  {
    hide Word32, BigEndian;
    BigEndianSplit(b, 4);
    BigEndian32(b[..4]);
    BigEndian32(b[4..]);
    WordAt(b, 0);
    WordAt(b, 4);
    assert b[0..4] == b[..4] && b[4..8] == b[4..];
    assert Weight(4) == Weight(3) * 256;
    assert Weight(3) == Weight(2) * 256;
    assert Weight(2) == Weight(1) * 256;
    assert Weight(1) == 256;
  }

  lemma WordAt(b: seq<byte>, at: nat)
    ensures at + 2 <= |b| ==> Word16(b, at) == Word16(b[at..at + 2], 0)
    ensures at + 4 <= |b| ==> Word32(b, at) == Word32(b[at..at + 4], 0)
    ensures at + 8 <= |b| ==> Word64(b, at) == Word64(b[at..at + 8], 0)
  {
  }

  /** The decoder's words are read in network order. */
  lemma BigEndianWords(b: seq<byte>, at: nat)
    ensures at + 2 <= |b| ==> Word16(b, at) == BigEndian(b[at..at + 2])
    ensures at + 4 <= |b| ==> Word32(b, at) == BigEndian(b[at..at + 4])
    ensures at + 8 <= |b| ==> Word64(b, at) == BigEndian(b[at..at + 8])
  {
    hide Word16, Word32, Word64, BigEndian;
    WordAt(b, at);
    if at + 2 <= |b| {
      BigEndian16(b[at..at + 2]);
    }
    if at + 4 <= |b| {
      BigEndian32(b[at..at + 4]);
    }
    if at + 8 <= |b| {
      BigEndian64(b[at..at + 8]);
    }
  }

  /** The letters the `switch` has a case for. */
  lemma KnownLetters(t: byte)
    ensures Known(t) <==> t as char in "ADUEXIFPLCQYHRSJKVWhB"
  {
  }

  /** When the loop goes on, and by how much. */
  lemma FramedBy(b: seq<byte>)
    ensures |b| > 13 ==> MsgLen(b) == (BigEndian(b[..2]) + 2) % 65536
    ensures Complete(b) <==> |b| > 13 && (BigEndian(b[..2]) + 2) % 65536 <= |b|
  {
    hide BigEndian, Word16;
    if |b| > 13 {
      BigEndianWords(b, 0);
      assert b[0..2] == b[..2];
    }
  }

  /** The sizes of the structures, letter by letter. */
  lemma LetterSizes(t: byte)
    requires Known(t)
    ensures ReadSize(t) ==
            match t as char
            case 'A' => 38 case 'F' => 42 case 'E' => 33 case 'C' => 38 case 'X' => 25 case 'D' => 21 case 'U' => 37
            case 'S' => 14 case 'R' => 41 case 'H' => 27 case 'Y' => 22 case 'L' => 28 case 'V' => 37 case 'W' => 14
            case 'K' => 30 case 'J' => 37 case 'h' => 21 case 'P' => 46 case 'Q' => 42 case 'B' => 21 case _ => 52
  {
  }

  /** What the letters and bytes of a message mean. */
  lemma DecodedFrom(b: seq<byte>)
    requires |b| > 13 && Known(b[2]) && |b| >= ReadSize(b[2])
    ensures b[2] as char in "ACDEFUX" ==> |b| >= 21
    ensures var m, t, locate := Decode(b), b[2] as char, BigEndian(b[3..5]);
            && (t in "AF" ==>
                  && |b| >= 38 && m.AddOrder? && m.locate == locate && m.oid == BigEndian(b[13..21])
                  && (m.side == Bid <==> b[21] as char == 'B')
                  && m.shares == BigEndian(b[22..26]) && m.price == BigEndian(b[34..38]))
            && (t == 'E' ==>
                  && |b| >= 33 && m.OrderExecuted? && m.locate == locate && m.oid == BigEndian(b[13..21])
                  && m.shares == BigEndian(b[21..25]))
            && (t == 'C' ==>
                  && |b| >= 38 && m.OrderExecutedWithPrice? && m.locate == locate && m.oid == BigEndian(b[13..21])
                  && m.shares == BigEndian(b[21..25]))
            && (t == 'X' ==>
                  && |b| >= 25 && m.OrderCancel? && m.locate == locate && m.oid == BigEndian(b[13..21])
                  && m.shares == BigEndian(b[21..25]))
            && (t == 'D' ==> m.OrderDelete? && m.locate == locate && m.oid == BigEndian(b[13..21]))
            && (t == 'U' ==>
                  && |b| >= 37 && m.OrderReplace? && m.locate == locate && m.oid == BigEndian(b[13..21])
                  && m.newOid == BigEndian(b[21..29])
                  && m.shares == BigEndian(b[29..33]) && m.price == BigEndian(b[33..37]))
            && (t !in "ACDEFUX" ==> m == Other(b[2], if t in "RHhPQ" then Some(locate) else None))
  {
    hide BigEndian, Word16, Word32, Word64, ReadSize;
    LetterSizes(b[2]);
    BigEndianWords(b, 3);
    BigEndianWords(b, 13);
    BigEndianWords(b, 21);
    BigEndianWords(b, 22);
    BigEndianWords(b, 29);
    BigEndianWords(b, 33);
    BigEndianWords(b, 34);
  }

  // ---- Termination ----

  /**
   The loop takes another turn: a complete message is there, and its type does not abort the
   process. Whether the message is as long as its structure makes no difference to the framing.
   */
  predicate Running(b: seq<byte>) {
    Complete(b) && Known(b[2])
  }

  /** One turn of the loop, dispatch aside: the bytes that remain. */
  function Turn(b: seq<byte>): seq<byte> {
    if Running(b) then b[MsgLen(b)..] else b
  }

  function Turns(b: seq<byte>, k: nat): seq<byte> {
    if k == 0 then b else Turns(Turn(b), k - 1)
  }

  /** While it runs, the loop reaches no message with length field 65534, whose 16-bit `msg_len` is 0. */
  predicate NeverStuck(b: seq<byte>) {
    Running(b) ==> MsgLen(b) != 0 && NeverStuck(b[MsgLen(b)..])
  }

  lemma {:induction false} StuckForever(b: seq<byte>, k: nat)
    requires !NeverStuck(b)
    ensures Running(Turns(b, k))
    decreases |b|, k
  {
    if k > 0 {
      if MsgLen(b) == 0 {
        assert b[0..] == b;
        StuckForever(b, k - 1);
      } else {
        StuckForever(Turn(b), k - 1);
      }
    }
  }

  lemma {:induction false} Stops(b: seq<byte>) returns (k: nat)
    requires NeverStuck(b)
    ensures !Running(Turns(b, k))
  {
    if Running(b) {
      k := Stops(b[MsgLen(b)..]);
      k := k + 1;
    } else {
      k := 0;
    }
  }

  /** The loop ends exactly when it meets no message of a known type whose length field is 65534. */
  lemma LoopEnds(b: seq<byte>)
    ensures NeverStuck(b) <==> exists k :: !Running(Turns(b, k))
  {
    if NeverStuck(b) {
      var k := Stops(b);
      assert !Running(Turns(b, k));
    } else {
      forall k: nat
        ensures Running(Turns(b, k))
      {
        StuckForever(b, k);
      }
    }
  }

  lemma ZeroLength(b: seq<byte>)
    requires |b| > HEADER_SIZE
    ensures MsgLen(b) == 0 <==> Word16(b, 0) == 65534
  {
  }

  /** An add message with that length keeps the loop going forever. */
  lemma StuckBuffer()
    ensures var b := [255, 254, ADD_ORDER, 0, 0, 0, 0, 0, 0, 0, 0, 0, 0, 0];
            Word16(b, 0) == 65534 && forall k :: Running(Turns(b, k))
  {
    var b: seq<byte> := [255, 254, ADD_ORDER, 0, 0, 0, 0, 0, 0, 0, 0, 0, 0, 0];
    ZeroLength(b);
    assert Running(b);
    forall k: nat
      ensures Running(Turns(b, k))
    {
      StuckForever(b, k);
    }
  }

  /** Where `Scan` comes to the end of the messages or to an unknown type, the loop ends. */
  lemma {:induction false} ScanNeverStuck(b: seq<byte>)
    requires Scan(b).end != Short
    ensures NeverStuck(b)
  {
    if Running(b) {
      ScanNeverStuck(b[MsgLen(b)..]);
    }
  }

  /** ... and the last turn leaves exactly what `Scan` leaves. */
  lemma {:induction false} ScanIsWhereItStops(b: seq<byte>) returns (k: nat)
    requires Scan(b).end != Short
    ensures !Running(Turns(b, k)) && Turns(b, k) == Left(b) && k == |Scan(b).msgs|
  {
    if Running(b) {
      var n := MsgLen(b);
      k := ScanIsWhereItStops(b[n..]);
      k := k + 1;
      assert b[n..][Scan(b[n..]).used..] == b[Scan(b).used..];
    } else {
      k := 0;
      assert b[0..] == b;
    }
  }
}
