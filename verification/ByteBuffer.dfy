/**
 The buffer between the decompressor and the parser (src/util/byte_buffer.hpp):
 an array with a read and a write cursor.
 */
module ByteBuffers {
  import opened Wire

  class ByteBuffer {
    const buf: array<byte>
    var rptr: nat
    var wptr: nat

    ghost predicate Valid()
      reads this
    {
      rptr <= wptr <= buf.Length
    }

    /** The bytes written and not yet read. */
    ghost function Unread(): seq<byte>
      reads this, buf
      requires Valid()
    {
      buf[rptr..wptr]
    }

    constructor (capacity: nat)
      ensures Valid() && fresh(buf) && buf.Length == capacity && Unread() == [] && rptr == 0
    {
      buf := new byte[capacity];
      rptr, wptr := 0, 0;
    }

    method BytesRead(n: nat)
      requires Valid() && n <= |Unread()|
      modifies `rptr
      ensures Valid() && Unread() == old(Unread())[n..] && BytesLeft() == old(BytesLeft())
    {
      rptr := rptr + n;
    }

    /** `n` bytes were stored behind the write cursor. */
    method BytesWritten(n: nat)
      requires Valid() && n <= BytesLeft()
      modifies `wptr
      ensures Valid() && Unread() == old(Unread()) + buf[old(wptr)..old(wptr) + n]
      ensures BytesLeft() == old(BytesLeft()) - n
    {
      wptr := wptr + n;
    }

    /** Moves what is unread to the front: all the room that is not needed for it is free again. */
    method Shift() returns (unread: nat)
      requires Valid()
      modifies this, buf
      ensures Valid() && Unread() == old(Unread()) && unread == |Unread()|
      ensures rptr == 0 && BytesLeft() == buf.Length - unread
    {
      unread := BytesUnread();
      if unread == 0 {
        rptr, wptr := 0, 0;
        return;
      }
      // the two ranges may overlap
      forall i | 0 <= i < unread {
        buf[i] := buf[rptr + i];
      }
      rptr, wptr := 0, unread;
    }

    function BytesUnread(): (n: nat)
      reads this, buf
      requires Valid()
      ensures n == |Unread()|
    {
      wptr - rptr
    }

    function BytesLeft(): (n: nat)
      reads this
      requires Valid()
    {
      buf.Length - wptr
    }
  }
}
