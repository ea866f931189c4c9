/**
 The file reader (src/file_reader/file_reader.hpp): a plain file is parsed at
 once, a compressed one chunk by chunk as the decompressor yields it.
 */
module FileReaders {
  import opened Session
  import opened Wire
  import opened Parsers
  import opened ByteBuffers

  const BUFFER_SIZE: nat := 10 * 1024 * 1024

  /** What the decompressor does in one call: yields up to `n` bytes, or reports corrupt input. */
  datatype Chunk = Give(n: nat) | Corrupt

  datatype Ret = Ok | StreamEnd | Failure

  /**
   The decompressor, as an arbitrary source of chunks. It stores no more than
   there is room for; it may yield nothing for as long as it has plans; after
   that it is greedy, and having no room for what remains is a failure.
   */
  class Inflater {
    // the whole decompressed stream
    const data: seq<byte>
    const plan: seq<Chunk>
    var calls: nat
    var totalOut: nat

    constructor (data: seq<byte>, plan: seq<Chunk>)
      ensures this.data == data && this.plan == plan && calls == totalOut == 0
    {
      this.data, this.plan, calls, totalOut := data, plan, 0, 0;
    }

    /** Stores the next bytes in `dst[at..at + room]`. */
    method Inflate(dst: array<byte>, at: nat, room: nat) returns (ret: Ret)
      requires at + room <= dst.Length && totalOut <= |data|
      modifies this, dst
      ensures old(totalOut) <= totalOut <= |data| && totalOut - old(totalOut) <= room
      ensures dst[..at] == old(dst[..at])
      ensures dst[at..at + (totalOut - old(totalOut))] == data[old(totalOut)..totalOut]
      ensures calls == old(calls) + 1
      ensures ret == StreamEnd ==> totalOut == |data|
      ensures ret == Ok && |plan| <= old(calls) ==> old(totalOut) < totalOut
      ensures ret == Failure ==> totalOut == old(totalOut)
      ensures ret == Failure ==>
                (old(calls) < |plan| && plan[old(calls)] == Corrupt) || (room == 0 && |plan| <= old(calls))
    {
      var left := |data| - totalOut;
      var n := if calls >= |plan| then left else if plan[calls].Give? then plan[calls].n else 0;
      var failed := calls < |plan| && plan[calls] == Corrupt;
      calls := calls + 1;
      if n > left { n := left; }
      if n > room { n := room; }
      forall i | 0 <= i < n {
        dst[at + i] := data[totalOut + i];
      }
      ghost var stored := dst[at..at + n];
      assert forall k :: 0 <= k < n ==> stored[k] == data[totalOut + k];
      assert stored == data[totalOut..totalOut + n];
      totalOut := totalOut + n;
      ret :=
        if failed then Failure
        else if totalOut == |data| && calls >= |plan| then StreamEnd
        else if n == 0 && calls > |plan| then Failure
        else Ok;
    }
  }

  /** How a file was processed. `Aborted`: the parser met an unknown type and ended the process. */
  datatype Outcome = Finished | InflateFailed | Aborted

  class FileReader {
    var shiftCount: nat
    var inflateCount: nat
    var byteCount: nat

    constructor ()
      ensures shiftCount == inflateCount == byteCount == 0
    {
      shiftCount, inflateCount, byteCount := 0, 0, 0;
    }

    /** The whole file in one piece. */
    method ProcessRaw(parser: Parser, data: seq<byte>) returns (outcome: Outcome)
      requires parser.Valid() && this !in parser.Repr && Wellformed(parser.trace, data, |parser.orders|, |parser.books|)
      modifies this, parser, parser.Repr
      ensures parser.Valid() && fresh(parser.Repr - old(parser.Repr))
      ensures outcome == if Scan(data).end == UnknownType then Aborted else Finished
      ensures parser.trace == old(parser.trace) + Scan(data).msgs
      ensures parser.msgCount == old(parser.msgCount) + |Scan(data).msgs|
      ensures outcome == Finished ==> byteCount == old(byteCount) + Scan(data).used
    {
      hide Parser.Valid, Scan;
      var processed, aborted := parser.Parse(data);
      if aborted {
        return Aborted;
      }
      byteCount := byteCount + processed;
      outcome := Finished;
    }

    /** The next chunk goes into the buffer, behind what is unread. */
    method Refill(buf: ByteBuffer, inflater: Inflater) returns (ret: Ret)
      requires buf.Valid() && buf.BytesLeft() > 0 && inflater.totalOut <= |inflater.data|
      modifies `inflateCount, inflater, buf`wptr, buf.buf
      ensures buf.Valid() && old(inflater.totalOut) <= inflater.totalOut <= |inflater.data|
      ensures ret != Failure ==>
                buf.Unread() == old(buf.Unread()) + inflater.data[old(inflater.totalOut)..inflater.totalOut]
      ensures ret == Failure ==>
                inflater.totalOut == old(inflater.totalOut) && old(inflater.calls) < |inflater.plan|
                && inflater.plan[old(inflater.calls)] == Corrupt
      ensures ret == StreamEnd ==> inflater.totalOut == |inflater.data|
      ensures ret == Ok && |inflater.plan| <= old(inflater.calls) ==> old(inflater.totalOut) < inflater.totalOut
      ensures inflater.calls == old(inflater.calls) + 1 && inflateCount == old(inflateCount) + 1
    {
      var before := inflater.totalOut;
      inflateCount := inflateCount + 1;
      ret := inflater.Inflate(buf.buf, buf.wptr, buf.BytesLeft());
      if ret != Failure {
        assert buf.buf[..buf.wptr][buf.rptr..] == buf.buf[buf.rptr..buf.wptr];
        buf.BytesWritten(inflater.totalOut - before);
      }
    }

    /** The parser takes what it can from the buffer; what it leaves moves to the front. */
    method ParseUnread(parser: Parser, buf: ByteBuffer) returns (aborted: bool)
      requires parser.Valid() && buf.Valid() && this !in parser.Repr && buf !in parser.Repr && buf.buf !in parser.Repr
      requires Wellformed(parser.trace, buf.Unread(), |parser.orders|, |parser.books|)
      modifies `shiftCount, `byteCount, parser, parser.Repr, buf, buf.buf
      ensures parser.Valid() && fresh(parser.Repr - old(parser.Repr))
      ensures !aborted ==> shiftCount == old(shiftCount) + 1
      ensures var t := Scan(old(buf.Unread()));
              && parser.trace == old(parser.trace) + t.msgs
              && parser.msgCount == old(parser.msgCount) + |t.msgs|
              && (aborted <==> t.end == UnknownType)
              && (!aborted ==>
                    && buf.Valid() && buf.rptr == 0 && buf.Unread() == Left(old(buf.Unread()))
                    && byteCount == old(byteCount) + t.used)
    {
      hide Parser.Valid, Scan, Accepted;
      var unread := buf.buf[buf.rptr..buf.wptr];
      assert unread == buf.Unread() && Left(unread) == unread[Scan(unread).used..];
      hide ByteBuffer.Unread, Left;
      var bytesProcessed;
      bytesProcessed, aborted := parser.Parse(unread);
      if !aborted {
        buf.BytesRead(bytesProcessed);
        var shifted := buf.Shift();
        shiftCount := shiftCount + 1;
        byteCount := byteCount + bytesProcessed;
      }
    }

    /**
     Chunk by chunk. However the decompressor splits the stream, the parser gets to
     the state `ProcessRaw` takes it to.
     */
    method ProcessGz(parser: Parser, inflater: Inflater) returns (outcome: Outcome, ghost tail: seq<byte>)
      requires parser.Valid() && this !in parser.Repr && inflater !in parser.Repr
      requires inflater.calls == inflater.totalOut == 0
      requires Wellformed(parser.trace, inflater.data, |parser.orders|, |parser.books|)
      modifies this, inflater, parser, parser.Repr
      ensures parser.Valid() && fresh(parser.Repr - old(parser.Repr))
      ensures inflater.totalOut <= |inflater.data|
      ensures Corrupt !in inflater.plan ==>
                outcome == if Scan(inflater.data).end == UnknownType then Aborted else Finished
      ensures var s := Scan(if outcome == InflateFailed then inflater.data[..inflater.totalOut] else inflater.data);
              && parser.trace == old(parser.trace) + s.msgs
              && parser.msgCount == old(parser.msgCount) + |s.msgs|
              && (outcome == Aborted <==> s.end == UnknownType)
              && (outcome != Aborted ==> byteCount == old(byteCount) + s.used)
      ensures outcome == Finished ==>
                && tail == Left(inflater.data)
                && shiftCount - old(shiftCount) == inflateCount - old(inflateCount) == inflater.calls
    {
      hide Parser.Valid, Scan, Left, Then, Accepted, Wellformed;
      var buf := new ByteBuffer(BUFFER_SIZE);
      var ret := Ok;
      ghost var data, start := inflater.data, parser.trace;
      tail := [];
      NothingYet(data);
      while ret != StreamEnd
        invariant parser.Valid() && fresh(parser.Repr - old(parser.Repr))
        invariant this !in parser.Repr && inflater !in parser.Repr && buf !in parser.Repr && buf.buf !in parser.Repr
        invariant buf.Valid() && buf.rptr == 0 && buf.buf.Length == BUFFER_SIZE
        invariant inflater.totalOut <= |data| && ret != Failure && (ret == StreamEnd ==> inflater.totalOut == |data|)
        invariant shiftCount - old(shiftCount) == inflateCount - old(inflateCount) == inflater.calls
        invariant Scan(data[..inflater.totalOut]).end == NeedMore
        invariant buf.Unread() == Left(data[..inflater.totalOut])
        invariant parser.trace == start + Scan(data[..inflater.totalOut]).msgs
        invariant parser.msgCount == old(parser.msgCount) + |Scan(data[..inflater.totalOut]).msgs|
        invariant byteCount == old(byteCount) + Scan(data[..inflater.totalOut]).used
        decreases ret == Ok,
                  if inflater.calls < |inflater.plan| then |inflater.plan| - inflater.calls else 0,
                  |data| - inflater.totalOut
      {
        ghost var done := data[..inflater.totalOut];
        RoomLeft(done);
        ret := Refill(buf, inflater);
        if ret == Failure {
          return InflateFailed, [];
        }
        ghost var chunk := data[|done|..inflater.totalOut];
        assert data[..inflater.totalOut] == done + chunk;
        NextChunk(start, parser.trace, data, done, chunk, |parser.orders|, |parser.books|);
        var aborted := ParseUnread(parser, buf);
        if aborted {
          return Aborted, [];
        }
      }
      assert data[..|data|] == data;
      tail := buf.Unread();
      outcome := Finished;
    }
  }

  /**
   One stream read both ways, by two readers into two parsers that are in step: they are in
   step again, however the decompressor splits the stream.
   */
  method BothWays(rawReader: FileReader, gzReader: FileReader, raw: Parser, gz: Parser, inflater: Inflater)
    returns (rawOutcome: Outcome, gzOutcome: Outcome, ghost tail: seq<byte>)
    requires raw.Valid() && gz.Valid() && raw.trace == gz.trace && raw.msgCount == gz.msgCount
    requires |raw.orders| == |gz.orders| && |raw.books| == |gz.books|
    requires raw != gz && rawReader != gzReader && raw.Repr !! gz.Repr
    requires {raw, gz, rawReader, gzReader, inflater} !! raw.Repr + gz.Repr
    requires inflater.calls == inflater.totalOut == 0 && Corrupt !in inflater.plan
    requires Wellformed(raw.trace, inflater.data, |raw.orders|, |raw.books|)
    modifies rawReader, gzReader, inflater, raw, gz, raw.Repr, gz.Repr
    ensures raw.Valid() && gz.Valid() && SameState(raw, gz)
    ensures raw.trace == gz.trace == old(raw.trace) + Scan(inflater.data).msgs && raw.msgCount == gz.msgCount
    ensures rawOutcome == gzOutcome == if Scan(inflater.data).end == UnknownType then Aborted else Finished
    ensures rawOutcome == Finished ==>
              && tail == Left(inflater.data)
              && rawReader.byteCount - old(rawReader.byteCount) == Scan(inflater.data).used
              && gzReader.byteCount - old(gzReader.byteCount) == Scan(inflater.data).used
  {
    hide Parser.Valid, Scan, Left, SameState, Wellformed;
    rawOutcome := rawReader.ProcessRaw(raw, inflater.data);
    gzOutcome, tail := gzReader.ProcessGz(gz, inflater);
    SameTraceSameState(raw, gz);
  }

  /** The stream continues an accepted run, and no message is shorter than what its handler reads. */
  ghost predicate Wellformed(trace: seq<Msg>, data: seq<byte>, n: nat, insts: nat) {
    Scan(data).end != Short && Accepted(trace + Scan(data).msgs, n, insts)
  }

  /** After every shift at least 10420226 of the 10485760 bytes are free for the next chunk. */
  lemma RoomLeft(done: seq<byte>)
    requires Scan(done).end == NeedMore
    ensures BUFFER_SIZE == 10485760 && BUFFER_SIZE - |Left(done)| >= 10420226
  {
    ScanMaximal(done);
  }

  lemma NothingYet(data: seq<byte>)
    ensures data[..0] == [] && Scan([]) == Scanned([], 0, NeedMore) && Left([]) == []
    ensures forall trace: seq<Msg> :: trace + [] == trace
  {
  }

  /** The bytes left in the end do not depend on where the stream was split. */
  lemma LeftAppend(a: seq<byte>, b: seq<byte>)
    requires Scan(a).end == NeedMore
    ensures Left(a + b) == Left(Left(a) + b)
  {
    hide Scan;
    var u := Left(a);
    var i, j := Scan(a).used, Scan(u + b).used;
    assert Scan(a + b).used == i + j by { ScanAppend(a, b); }
    DropTwice(a, b, i, j, u);
  }

  lemma DropTwice(a: seq<byte>, b: seq<byte>, i: nat, j: nat, u: seq<byte>)
    requires i <= |a| && u == a[i..] && j <= |u + b|
    ensures (a + b)[i + j..] == (u + b)[j..]
  {
  }

  /** One more chunk: what `Parse` will be given and what that makes of the bytes inflated so far. */
  lemma NextChunk(start: seq<Msg>, trace: seq<Msg>, data: seq<byte>, done: seq<byte>, chunk: seq<byte>,
                  n: nat, insts: nat)
    requires Wellformed(start, data, n, insts) && done + chunk <= data
    requires Scan(done).end == NeedMore && trace == start + Scan(done).msgs
    ensures var t := Scan(Left(done) + chunk);
            && t.end != Short && Wellformed(trace, Left(done) + chunk, n, insts)
            && trace + t.msgs == start + Scan(done + chunk).msgs
            && Scan(done + chunk).used == Scan(done).used + t.used && Scan(done + chunk).end == t.end
            && Left(done + chunk) == Left(Left(done) + chunk)
            && (t.end == UnknownType ==> Scan(data) == Scan(done + chunk))
  {
    hide Scan, Accepted, Left;
    var now, rest := done + chunk, data[|done + chunk|..];
    LeftAppend(done, chunk);
    ScanAppend(done, chunk);
    ScanAppend(now, rest);
    assert data == now + rest;
    var t := Scan(Left(done) + chunk);
    assert trace + t.msgs == start + Scan(now).msgs;
    if Scan(now).end == NeedMore {
      var more := Scan(Left(now) + rest).msgs;
      assert start + Scan(data).msgs == start + Scan(now).msgs + more;
      AcceptedPrefix(start + Scan(now).msgs, more, n, insts);
    }
  }
}
