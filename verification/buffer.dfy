/**
 The growable buffer: an array with a reader and a writer index.  The unread bytes are what
 lies between them; the front of the array is kept free for cheap prepending.
 */
module GrowableBuffer {

  import opened Options
  import opened Bytes

  const CHEAP_PREPEND := 8
  const INITIAL_SIZE := 8192
  const EXTRA := 65536

  /** What is left of a sequence after taking `n` elements, or as many as there are. */
  function Drop<T>(s: seq<T>, n: nat): seq<T> {
    if n < |s| then s[n..] else []
  }

  // ------------------------------------------------------ big-endian numbers

  function Be32(x: int): (s: seq<Byte>)
    requires -0x8000_0000 <= x < 0x8000_0000
    ensures |s| == 4
  {
    var u := if x < 0 then x + 0x1_0000_0000 else x;
    [u / 0x100_0000, u / 0x1_0000 % 0x100, u / 0x100 % 0x100, u % 0x100]
  }

  function Int32(s: seq<Byte>): (x: int)
    requires |s| >= 4
    ensures -0x8000_0000 <= x < 0x8000_0000
  {
    var u := Word(s[0], s[1], s[2], s[3]);
    if u < 0x8000_0000 then u else u - 0x1_0000_0000
  }

  function Word(a: int, b: int, c: int, d: int): int {
    a * 0x100_0000 + b * 0x1_0000 + c * 0x100 + d
  }

  lemma Int32OfBe32(x: int, rest: seq<Byte>)
    requires -0x8000_0000 <= x < 0x8000_0000
    ensures Int32(Be32(x) + rest) == x
  {
    var u := if x < 0 then x + 0x1_0000_0000 else x;
    Digits(u);
    var s := Be32(x) + rest;
    assert s[0] == u / 0x100_0000 && s[1] == u / 0x1_0000 % 0x100 && s[2] == u / 0x100 % 0x100 && s[3] == u % 0x100;
  }

  lemma Digits(u: nat)
    ensures u / 0x100_0000 * 0x100_0000 + u / 0x1_0000 % 0x100 * 0x1_0000 + u / 0x100 % 0x100 * 0x100 + u % 0x100 == u
  {
    assert u / 0x1_0000 == u / 0x100 / 0x100 && u / 0x100_0000 == u / 0x1_0000 / 0x100;
  }

  class Buffer {
    var buffer: array<Byte>
    var len: nat
    var readerIndex: nat
    var writerIndex: nat

    ghost predicate Valid()
      reads this
    {
      len == buffer.Length && CHEAP_PREPEND <= readerIndex <= writerIndex <= len
    }

    ghost function Unread(): seq<Byte>
      requires Valid()
      reads this, buffer
    {
      buffer[readerIndex..writerIndex]
    }

    constructor ()
      ensures Valid() && Unread() == [] && fresh(buffer)
    {
      buffer := new Byte[CHEAP_PREPEND + INITIAL_SIZE](_ => 0);
      len := CHEAP_PREPEND + INITIAL_SIZE;
      readerIndex := CHEAP_PREPEND;
      writerIndex := CHEAP_PREPEND;
    }

    function ReadableBytes(): (n: nat)
      requires Valid()
      reads this, buffer
      ensures n == |Unread()|
    {
      writerIndex - readerIndex
    }

    function WritableBytes(): nat
      requires Valid()
      reads this
    {
      len - writerIndex
    }

    method RetrieveAll()
      requires Valid()
      modifies this
      ensures Valid() && Unread() == [] && buffer == old(buffer)
    {
      readerIndex := CHEAP_PREPEND;
      writerIndex := CHEAP_PREPEND;
    }

    method Retrieve(n: nat)
      requires Valid()
      modifies this
      ensures Valid() && Unread() == Drop(old(Unread()), n) && buffer == old(buffer)
    {
      if n < ReadableBytes() {
        readerIndex := readerIndex + n;
      } else {
        RetrieveAll();
      }
    }

    /** Room for `n` more bytes: a larger array, or the unread bytes moved to the front. */
    method MakeSpace(n: nat)
      requires Valid() && WritableBytes() < n
      modifies this, buffer
      ensures Valid() && Unread() == old(Unread()) && WritableBytes() >= n
      ensures buffer == old(buffer) || fresh(buffer)
    {
      if WritableBytes() + readerIndex < n + CHEAP_PREPEND {
        var tmp := new Byte[writerIndex + n](_ => 0);
        forall i | 0 <= i < len {
          tmp[i] := buffer[i];
        }
        buffer := tmp;
        len := n + writerIndex;
      } else {
        var readable := ReadableBytes();
        forall i | 0 <= i < readable {
          buffer[CHEAP_PREPEND + i] := buffer[readerIndex + i];
        }
        readerIndex := CHEAP_PREPEND;
        writerIndex := readerIndex + readable;
      }
    }

    method EnsureWritableBytes(n: nat)
      requires Valid()
      modifies this, buffer
      ensures Valid() && Unread() == old(Unread()) && WritableBytes() >= n
      ensures buffer == old(buffer) || fresh(buffer)
    {
      if WritableBytes() < n {
        MakeSpace(n);
      }
    }

    /** Appending adds the bytes behind the unread ones, wherever these have to go. */
    method Append(str: seq<Byte>)
      requires Valid()
      modifies this, buffer
      ensures Valid() && Unread() == old(Unread()) + str
      ensures buffer == old(buffer) || fresh(buffer)
    {
      EnsureWritableBytes(|str|);
      Write(str);
    }

    /** Copy bytes that there is room for. */
    method Write(str: seq<Byte>)
      requires Valid() && |str| <= WritableBytes()
      modifies this`writerIndex, buffer
      ensures Valid() && Unread() == old(Unread()) + str
      ensures writerIndex == old(writerIndex) + |str|
    {
      forall i | 0 <= i < |str| {
        buffer[writerIndex + i] := str[i];
      }
      writerIndex := writerIndex + |str|;
    }

    /** What a read delivers goes into the free space and then into the extra space, whose
        contents are appended; nothing is delivered when the read fails. */
    method ReadFd(got: Option<seq<Byte>>)
      requires Valid()
      requires got.Some? ==> |got.value| <= WritableBytes() + if WritableBytes() < EXTRA then EXTRA else 0
      modifies this, buffer
      ensures Valid() && Unread() == old(Unread()) + if got.Some? then got.value else []
      ensures buffer == old(buffer) || fresh(buffer)
    {
      if got.None? {
        return;
      }
      var data, writable := got.value, WritableBytes();
      if |data| <= writable {
        Write(data);
      } else {
        Write(data[..writable]);
        Append(data[writable..]);
        assert data == data[..writable] + data[writable..];
      }
    }

    // ------------------------------------------------------------- reading

    /** The next number; the program is aborted when its four bytes are not there. */
    function PeekInt32(): (x: Option<int>)
      requires Valid()
      reads this, buffer
      ensures x == if |Unread()| >= 4 then Some(Int32(Unread())) else None
    {
      if ReadableBytes() >= 4 then Some(Int32(buffer[readerIndex..readerIndex + 4])) else None
    }

    method ReadInt32() returns (x: Option<int>)
      requires Valid()
      modifies this
      ensures Valid() && buffer == old(buffer)
      ensures x == if |old(Unread())| >= 4 then Some(Int32(old(Unread()))) else None
      ensures Unread() == if x.Some? then Drop(old(Unread()), 4) else old(Unread())
    {
      x := PeekInt32();
      if x.Some? {
        Retrieve(4);
      }
    }

    /** The next `n` bytes, as read_str and read_pb_msg take them.  A negative length turns
        into a huge one in the comparison with the readable bytes. */
    method ReadBytes(n: int) returns (s: Option<seq<Byte>>)
      requires Valid()
      modifies this
      ensures Valid() && buffer == old(buffer)
      ensures s == if 0 <= n <= |old(Unread())| then Some(old(Unread())[..n]) else None
      ensures Unread() == if s.Some? then Drop(old(Unread()), n) else old(Unread())
    {
      if n < 0 || ReadableBytes() < n {
        return None;
      }
      s := Some(buffer[readerIndex..readerIndex + n]);
      assert s.value == Unread()[..n];
      Retrieve(n);
    }
  }
}
