/**
 The length-prefixed message format over the growable buffer.  Packing and unpacking of a
 message body are parameters; so is the set of registered message names.
 */
module Codec {
  import opened Options
  import opened Bytes
  import opened GrowableBuffer

  type Message(==, !new)

  const MAGIC := 0x1343EA4
  const MAX_LEN := 65536

  /** The message classes: the name and the packed form of a message, the registered names,
      and how a body is unpacked for a name. */
  datatype Schema = Schema(
    name: Message -> seq<Byte>,
    pack: Message -> seq<Byte>,
    registered: iset<seq<Byte>>,
    unpack: (seq<Byte>, seq<Byte>) -> Option<Message>)

  /** What decode returns, or that it aborts the program. */
  datatype Decoded = Aborted | Nothing | Got(message: Message)

  /** A C string in a byte array: the bytes before the first NUL. */
  function CString(s: seq<Byte>): seq<Byte> {
    if s == [] || s[0] == 0 then [] else [s[0]] + CString(s[1..])
  }

  // -------------------------------------------------------- the specification

  function Body(p: Schema, m: Message): seq<Byte>
    requires |p.name(m)| + 1 < 0x8000_0000
  {
    Be32(|p.name(m)| + 1) + (p.name(m) + [0] + p.pack(m))
  }

  /** The frame of a message, which the 32-bit length field can describe. */
  function Frame(p: Schema, m: Message): seq<Byte>
    requires Encodable(p, m)
  {
    Be32(MAGIC) + (Be32(|Body(p, m)|) + Body(p, m))
  }

  predicate Encodable(p: Schema, m: Message) {
    |p.name(m)| + 1 + |p.pack(m)| + 12 < 0x8000_0000
  }

  /** decode, on the unread bytes: its result and what is unread afterwards. */
  function Decode(p: Schema, unread: seq<Byte>): (Decoded, seq<Byte>)
    requires |unread| >= 8
  {
    if Int32(unread) != MAGIC then (Nothing, [])
    else
      var len := Int32(unread[4..]);
      if len > MAX_LEN || len < 0 then (Nothing, [])
      else if |unread| >= len + 8 then DecodeBody(p, Drop(unread, 8), len)
      else (Nothing, unread)
  }

  function DecodeBody(p: Schema, unread: seq<Byte>, len: nat): (Decoded, seq<Byte>) {
    if |unread| < 4 then (Aborted, unread)
    else
      var n, rest := Int32(unread), Drop(unread, 4);
      if !(0 <= n <= |rest|) then (Aborted, rest)
      else
        var name, rest' := CString(rest[..n]), Drop(rest, n);
        if name !in p.registered then (Nothing, [])
        else
          var k := len - 4 - n;
          if !(0 <= k <= |rest'|) then (Aborted, rest')
          else
            var m := p.unpack(name, rest'[..k]);
            (if m.None? then Nothing else Got(m.value), Drop(rest', k))
  }

  // ------------------------------------------------------------ the methods

  /** encode: the frame is put together piece by piece in a block of its size.  The copy of
      the name takes the byte behind its terminator along, `beyond`.  The last byte of
      `memory` is the one behind the block: it stays as it is if the packed message has a
      byte, which then overwrites the extra one, and else the extra byte lands there. */
  method Encode(p: Schema, m: Message, beyond: Byte, behind: Byte) returns (memory: array<Byte>)
    requires Encodable(p, m)
    ensures fresh(memory) && memory.Length == |Frame(p, m)| + 1
    ensures memory[..|Frame(p, m)|] == Frame(p, m)
    ensures memory[|Frame(p, m)|] == if |p.pack(m)| > 0 then behind else beyond
  {
    hide Be32;
    var name, t := p.name(m), p.pack(m);
    var nameLen := |name| + 1;
    var total := 4 + 4 + 4 + nameLen + |t|;
    memory := new Byte[total + 1](_ => behind);
    CopyHeader(memory, total, nameLen);
    ghost var head := Be32(MAGIC) + Be32(total - 4 - 4) + Be32(nameLen);
    CopyName(memory, name, beyond, head);
    Copy(memory, 12 + nameLen, t, head + (name + [0]));
    Pieces(Be32(MAGIC), Be32(total - 4 - 4), Be32(nameLen), name + [0], t);
  }

  /** The magic number, the length of the rest and the length of the name. */
  method CopyHeader(str: array<Byte>, total: nat, nameLen: nat)
    requires 12 <= str.Length && 8 <= total < 0x8000_0000 && nameLen < 0x8000_0000
    modifies str
    ensures str[..12] == Be32(MAGIC) + Be32(total - 4 - 4) + Be32(nameLen)
    ensures forall i | 12 <= i < str.Length :: str[i] == old(str[i])
  {
    hide Be32;
    Copy(str, 0, Be32(MAGIC), []);
    Copy(str, 4, Be32(total - 4 - 4), Be32(MAGIC));
    Copy(str, 8, Be32(nameLen), Be32(MAGIC) + Be32(total - 4 - 4));
    assert [] + Be32(MAGIC) == Be32(MAGIC);
  }

  /** The name, its terminator and one byte more. */
  method CopyName(str: array<Byte>, name: seq<Byte>, beyond: Byte, ghost head: seq<Byte>)
    requires |head| == 12 && 12 + |name| + 2 <= str.Length && str[..12] == head
    modifies str
    ensures str[..12 + |name| + 1] == head + (name + [0]) && str[12 + |name| + 1] == beyond
    ensures forall i | 12 + |name| + 2 <= i < str.Length :: str[i] == old(str[i])
  {
    var end := 12 + |name| + 1;
    Copy(str, 12, name + [0] + [beyond], head);
    Shorten(str[..end + 1], head, name + [0], beyond);
    assert str[..end] == str[..end + 1][..end] && str[end] == str[..end + 1][end];
  }

  /** Copy bytes behind the part that is filled already. */
  method Copy(str: array<Byte>, at: nat, bytes: seq<Byte>, ghost filled: seq<Byte>)
    requires at + |bytes| <= str.Length && str[..at] == filled
    modifies str
    ensures str[..at + |bytes|] == filled + bytes
    ensures forall i | at + |bytes| <= i < str.Length :: str[i] == old(str[i])
  {
    forall i | 0 <= i < |bytes| {
      str[at + i] := bytes[i];
    }
  }

  lemma Shorten(s: seq<Byte>, a: seq<Byte>, b: seq<Byte>, x: Byte)
    requires s == a + (b + [x])
    ensures s[..|s| - 1] == a + b && s[|s| - 1] == x
  {
  }

  /** The copy of the name stays inside the block if and only if the packed message is not
      empty. */
  lemma NameCopyFits(p: Schema, m: Message)
    requires Encodable(p, m)
    ensures 12 + (|p.name(m)| + 1) + 1 <= |Frame(p, m)| <==> |p.pack(m)| > 0
  {
  }

  lemma Pieces(a: seq<Byte>, b: seq<Byte>, c: seq<Byte>, d: seq<Byte>, e: seq<Byte>)
    ensures a + b + c + d + e == a + (b + (c + (d + e))) && [] + a == a
  {
  }

  /** decode, moving the reader index of the buffer. */
  method DecodeBuffer(p: Schema, b: Buffer) returns (r: Decoded)
    requires b.Valid() && b.ReadableBytes() >= 8
    modifies b
    ensures b.Valid() && b.buffer == old(b.buffer)
    ensures (r, b.Unread()) == Decode(p, old(b.Unread()))
  {
    hide Int32, CString;
    var magic := b.PeekInt32();
    if magic.value != MAGIC {
      b.RetrieveAll();
      return Nothing;
    }
    var len := Int32(b.buffer[b.readerIndex + 4..b.readerIndex + 8]);
    FirstFour(b.buffer[b.readerIndex + 4..b.readerIndex + 8], b.Unread()[4..]);
    if len > MAX_LEN || len < 0 {
      b.RetrieveAll();
      return Nothing;
    }
    if b.ReadableBytes() >= len + 8 {
      b.Retrieve(8);
      r := DecodeRest(p, b, len);
    } else {
      r := Nothing;
    }
  }

  method DecodeRest(p: Schema, b: Buffer, len: nat) returns (r: Decoded)
    requires b.Valid()
    modifies b
    ensures b.Valid() && b.buffer == old(b.buffer)
    ensures (r, b.Unread()) == DecodeBody(p, old(b.Unread()), len)
  {
    hide Int32, CString, Drop;
    var n := b.ReadInt32();
    if n.None? {
      return Aborted;
    }
    var name := b.ReadBytes(n.value);
    if name.None? {
      return Aborted;
    }
    if CString(name.value) !in p.registered {
      b.RetrieveAll();
      return Nothing;
    }
    var body := b.ReadBytes(len - 4 - n.value);
    if body.None? {
      return Aborted;
    }
    var m := p.unpack(CString(name.value), body.value);
    r := if m.None? then Nothing else Got(m.value);
  }

  lemma FirstFour(s: seq<Byte>, t: seq<Byte>)
    requires |s| == 4 && s <= t
    ensures Int32(s) == Int32(t)
  {
  }
}
