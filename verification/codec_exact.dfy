/**
 What decode does with any bytes at all, field by field: the magic number, the length, the
 name's length, the name and the body.
 */
module CodecExact {
  import opened Bytes
  import opened GrowableBuffer
  import opened Codec

  predicate IsInt32(x: int) {
    -0x8000_0000 <= x < 0x8000_0000
  }

  /** Four bytes are the number that they are read as, so any bytes are a row of numbers. */
  lemma Be32OfInt32(s: seq<Byte>)
    requires |s| >= 4
    ensures Be32(Int32(s)) == s[..4]
  {
    var a, b, c, d: int := s[0], s[1], s[2], s[3];
    var u := Word(a, b, c, d);
    Digit1(a, 0x1_0000 * b + 0x100 * c + d);
    Digit2(0x100 * a + b, 0x100 * c + d);
    Digit3(0x1_0000 * a + 0x100 * b + c, d);
    LastDigit(a, b);
    LastDigit(0x100 * a + b, c);
    assert s[..4] == [s[0], s[1], s[2], s[3]];
  }

  lemma Digit1(q: int, r: int)
    requires 0 <= r < 0x100_0000
    ensures (q * 0x100_0000 + r) / 0x100_0000 == q
  {
  }

  lemma Digit2(q: int, r: int)
    requires 0 <= r < 0x1_0000
    ensures (q * 0x1_0000 + r) / 0x1_0000 == q
  {
  }

  lemma Digit3(q: int, r: int)
    requires 0 <= r < 0x100
    ensures (q * 0x100 + r) / 0x100 == q && (q * 0x100 + r) % 0x100 == r
  {
  }

  lemma LastDigit(q: int, r: int)
    requires 0 <= r < 0x100
    ensures (q * 0x100 + r) % 0x100 == r
  {
  }

  /** The name in an array: all its bytes before the first NUL. */
  lemma {:induction false} CStringIs(s: seq<Byte>)
    ensures var r := CString(s);
      r <= s && 0 !in r && (|r| < |s| ==> s[|r|] == 0)
  {
    if s != [] && s[0] != 0 {
      CStringIs(s[1..]);
    }
  }

  /** Bytes without the magic number in front are dropped. */
  lemma BadMagic(p: Schema, s: seq<Byte>)
    requires |s| >= 8 && s[..4] != Be32(MAGIC)
    ensures Decode(p, s) == (Nothing, [])
  {
    hide Be32, Int32, DecodeBody;
    Be32OfInt32(s);
  }

  /** Behind the magic number a length out of range drops all bytes, a length with fewer bytes
      behind it leaves them as they are, and else the frame is taken apart. */
  lemma LengthField(p: Schema, len: int, t: seq<Byte>)
    requires IsInt32(len)
    ensures Decode(p, Be32(MAGIC) + (Be32(len) + t)) ==
      if len < 0 || len > 65536 then (Nothing, [])
      else if |t| < len then (Nothing, Be32(MAGIC) + (Be32(len) + t))
      else DecodeBody(p, t, len)
  {
    hide Be32, Int32, DecodeBody;
    var s := Be32(MAGIC) + (Be32(len) + t);
    Int32OfBe32(MAGIC, Be32(len) + t);
    Int32OfBe32(len, t);
    assert s[4..] == Be32(len) + t && Drop(s, 8) == t;
  }

  /** A frame is taken apart: fewer than four bytes for the length of the name, a length of
      the name that is negative or more than there is, and a name that is longer than its
      frame abort, the bytes read so far being taken; a name that is not registered drops
      all bytes; and else the rest of the frame is unpacked, and what is behind it stays. */
  lemma NameField(p: Schema, len: nat, n: int, u: seq<Byte>)
    requires IsInt32(n)
    ensures DecodeBody(p, Be32(n) + u, len) ==
      if n < 0 || n > |u| then (Aborted, u)
      else
        var name, k := CString(u[..n]), len - 4 - n;
        if name !in p.registered then (Nothing, [])
        else if k < 0 || k > |u| - n then (Aborted, u[n..])
        else (match p.unpack(name, u[n..n + k]) case Some(m) => Got(m) case None => Nothing, u[n + k..])
  {
    hide Be32, Int32, CString;
    var s := Be32(n) + u;
    Int32OfBe32(n, u);
    assert Drop(s, 4) == u;
    if 0 <= n <= |u| {
      assert Drop(u, n) == u[n..];
      var k := len - 4 - n;
      if 0 <= k <= |u| - n {
        assert u[n..][..k] == u[n..n + k];
        assert Drop(u[n..], k) == u[n + k..];
      }
    }
  }

  lemma NoName(p: Schema, len: nat, u: seq<Byte>)
    requires |u| < 4
    ensures DecodeBody(p, u, len) == (Aborted, u)
  {
  }

  /** Any eight bytes are a magic number or another one, and a length. */
  lemma EveryHeader(s: seq<Byte>) returns (magic: int, len: int, t: seq<Byte>)
    requires |s| >= 8
    ensures IsInt32(magic) && IsInt32(len) && s == Be32(magic) + (Be32(len) + t)
    ensures s[..4] == Be32(MAGIC) <==> magic == MAGIC
  {
    hide Be32, Int32;
    magic, len, t := Int32(s), Int32(s[4..]), s[8..];
    Be32OfInt32(s);
    Be32OfInt32(s[4..]);
    Int32OfBe32(MAGIC, []);
    Int32OfBe32(magic, []);
    assert Be32(MAGIC) + [] == Be32(MAGIC) && Be32(magic) + [] == Be32(magic);
    assert s[4..][..4] == s[4..8] && s == s[..4] + (s[4..8] + s[8..]);
  }

  /** decode aborts the program exactly on a frame that is all there and whose inside does not
      fit: no room for the length of the name, a length of the name out of range, or a
      registered name that is longer than the frame or shorter by more than there is. */
  lemma AbortsExactly(p: Schema, len: int, t: seq<Byte>)
    requires IsInt32(len)
    ensures Decode(p, Be32(MAGIC) + (Be32(len) + t)).0 == Aborted <==>
      && 0 <= len <= 65536 && |t| >= len
      && (|t| < 4
          || (var n := Int32(t);
              n < 0 || n > |t| - 4
              || (CString(t[4..4 + n]) in p.registered && (len < 4 + n))))
  {
    hide Be32, CString, Int32;
    LengthField(p, len, t);
    if 0 <= len <= 65536 && |t| >= len {
      if |t| < 4 {
        NoName(p, len, t);
      } else {
        var n := Int32(t);
        Be32OfInt32(t);
        assert t == Be32(n) + t[4..];
        NameField(p, len, n, t[4..]);
        if 0 <= n <= |t| - 4 { assert t[4..][..n] == t[4..4 + n]; }
      }
    }
  }
}
