/**
 Framing: encoded messages come out of the decoder one by one and unchanged, however the
 bytes are cut into chunks on the way.
 */
module CodecFraming {
  import opened Options
  import opened Bytes
  import opened GrowableBuffer
  import opened Codec

  /** Names are C strings, and unpacking undoes packing for registered names. */
  ghost predicate Lawful(p: Schema) {
    forall m :: 0 !in p.name(m) && (p.name(m) in p.registered ==> p.unpack(p.name(m), p.pack(m)) == Some(m))
  }

  // -------------------------------------------------------------- one frame

  lemma {:induction false} CStringOf(s: seq<Byte>, rest: seq<Byte>)
    requires 0 !in s
    ensures CString(s + [0] + rest) == s
  {
    if s == [] {
      assert ([] + [0] + rest)[0] == 0;
    } else {
      CStringOf(s[1..], rest);
      assert (s + [0] + rest)[1..] == s[1..] + [0] + rest;
      assert s[0] in s;
    }
  }

  lemma BodyDecodes(p: Schema, m: Message, tail: seq<Byte>)
    requires Lawful(p) && Encodable(p, m)
    ensures DecodeBody(p, Body(p, m) + tail, |Body(p, m)|)
         == if p.name(m) in p.registered then (Got(m), tail) else (Nothing, [])
  {
    hide Int32, CString, Be32;
    var n, t := |p.name(m)| + 1, p.pack(m);
    var u := Body(p, m) + tail;
    var text := p.name(m) + [0];
    assert u == Be32(n) + (text + (t + tail));
    Int32OfBe32(n, text + (t + tail));
    var rest := Drop(u, 4);
    assert rest == text + (t + tail);
    assert rest[..n] == text;
    CStringOf(p.name(m), []);
    assert text + [] == text;
    assert Drop(rest, n) == t + tail;
    assert (t + tail)[..|t|] == t && Drop(t + tail, |t|) == tail;
  }

  /** What decode makes of a frame that is followed by anything: the message, if its length
      is in the limit and its name registered; else the whole buffer is dropped. */
  lemma FrameDecodes(p: Schema, m: Message, tail: seq<Byte>)
    requires Lawful(p) && Encodable(p, m)
    ensures Decode(p, Frame(p, m) + tail)
         == if |Body(p, m)| <= MAX_LEN && p.name(m) in p.registered then (Got(m), tail) else (Nothing, [])
  {
    hide Int32, DecodeBody, Be32, Body;
    BodySize(p, m);
    var body := Body(p, m);
    var u := Frame(p, m) + tail;
    assert u == Be32(MAGIC) + (Be32(|body|) + (body + tail));
    Int32OfBe32(MAGIC, Be32(|body|) + (body + tail));
    assert u[4..] == Be32(|body|) + (body + tail);
    Int32OfBe32(|body|, body + tail);
    assert Drop(u, 8) == body + tail;
    BodyDecodes(p, m, tail);
  }

  lemma BodySize(p: Schema, m: Message)
    requires Encodable(p, m)
    ensures 5 <= |Body(p, m)| == 5 + |p.name(m)| + |p.pack(m)|
    ensures |Frame(p, m)| == 8 + |Body(p, m)|
  {
  }

  /** A single message comes back exactly when its length field is at most 65536 and its
      name is registered. */
  lemma RoundTrip(p: Schema, m: Message)
    requires Lawful(p) && Encodable(p, m)
    ensures Decode(p, Frame(p, m)) == (Got(m), [])
      <==> |Frame(p, m)| <= MAX_LEN + 8 && p.name(m) in p.registered
  {
    hide Decode;
    BodySize(p, m);
    FrameDecodes(p, m, []);
    assert Frame(p, m) + [] == Frame(p, m);
  }

  /** A message that the decoder accepts. */
  predicate Accepted(p: Schema, m: Message) {
    Encodable(p, m) && |Body(p, m)| <= MAX_LEN && p.name(m) in p.registered
  }

  /** An incomplete frame is left in the buffer as it is. */
  lemma PartialStays(p: Schema, m: Message, s: seq<Byte>)
    requires Accepted(p, m) && 8 <= |s| < |Frame(p, m)| && s <= Frame(p, m)
    ensures Decode(p, s) == (Nothing, s)
  {
    hide Int32, DecodeBody, Be32, Body;
    BodySize(p, m);
    var body := Body(p, m);
    assert s[..4] == Be32(MAGIC) && s[4..8] == Be32(|body|);
    assert s == Be32(MAGIC) + s[4..] && s[4..] == Be32(|body|) + s[8..];
    Int32OfBe32(MAGIC, s[4..]);
    Int32OfBe32(|body|, s[8..]);
  }

  // ----------------------------------------------------------- many frames

  lemma DecodeShrinks(p: Schema, s: seq<Byte>)
    requires |s| >= 8
    ensures |Decode(p, s).1| <= |s| && (Decode(p, s).0.Got? ==> |Decode(p, s).1| < |s|)
    ensures |Decode(p, s).1| == |s| ==> Decode(p, s).1 == s
  {
    hide Int32, CString;
  }

  /** Decode as long as 8 bytes are readable and something is taken: whether the program is
      still alive, the messages, and what is left unread. */
  function Drain(p: Schema, s: seq<Byte>): (r: (bool, seq<Message>, seq<Byte>))
    decreases |s|
  {
    hide Decode;
    if |s| < 8 then (true, [], s)
    else
      DecodeShrinks(p, s);
      var (d, rest) := Decode(p, s);
      match d
      case Aborted => (false, [], rest)
      case Got(m) =>
        var (alive, ms, last) := Drain(p, rest);
        (alive, [m] + ms, last)
      case Nothing => if |rest| < |s| then Drain(p, rest) else (true, [], rest)
  }

  /** Chunk after chunk is appended to the buffer, which is then drained. */
  function Feed(p: Schema, s: seq<Byte>, chunks: seq<seq<Byte>>): (bool, seq<Message>, seq<Byte>)
    decreases |chunks|
  {
    if chunks == [] then (true, [], s)
    else
      var (alive, ms, rest) := Drain(p, s + chunks[0]);
      if !alive then (false, ms, rest)
      else
        var (alive', ms', rest') := Feed(p, rest, chunks[1..]);
        (alive', ms + ms', rest')
  }

  /** One turn of this on the buffer. */
  method Receive(p: Schema, b: Buffer, chunk: seq<Byte>) returns (alive: bool, ms: seq<Message>)
    requires b.Valid()
    modifies b, b.buffer
    ensures b.Valid() && (b.buffer == old(b.buffer) || fresh(b.buffer))
    ensures (alive, ms, b.Unread()) == Drain(p, old(b.Unread()) + chunk)
  {
    hide Drain;
    b.Append(chunk);
    alive, ms := true, [];
    ghost var all := Drain(p, b.Unread());
    assert [] + all.1 == all.1;
    while b.ReadableBytes() >= 8
      invariant b.Valid() && (b.buffer == old(b.buffer) || fresh(b.buffer)) && alive
      invariant all == After(ms, Drain(p, b.Unread()))
      decreases |b.Unread()|
    {
      var readable := b.ReadableBytes();
      ghost var s := b.Unread();
      var r := DecodeBuffer(p, b);
      DrainStep(p, s, ms);
      if r.Got? {
        ms := ms + [r.message];
      } else if r.Aborted? || b.ReadableBytes() == readable {
        alive := !r.Aborted?;
        return;
      }
    }
    DrainEnd(p, b.Unread());
    assert ms + [] == ms;
  }

  function After(ms: seq<Message>, r: (bool, seq<Message>, seq<Byte>)): (bool, seq<Message>, seq<Byte>) {
    (r.0, ms + r.1, r.2)
  }

  lemma DrainStep(p: Schema, s: seq<Byte>, ms: seq<Message>)
    requires |s| >= 8
    ensures var (d, rest) := Decode(p, s);
      && |rest| <= |s| && (d.Got? ==> |rest| < |s|)
      && After(ms, Drain(p, s)) ==
        (if d.Got? then After(ms + [d.message], Drain(p, rest))
         else if d.Aborted? then (false, ms, rest)
         else if |rest| < |s| then After(ms, Drain(p, rest)) else (true, ms, rest))
  {
    hide Decode;
    DecodeShrinks(p, s);
    var (d, rest) := Decode(p, s);
    assert ms + [] == ms;
    if d.Got? {
      assert ms + ([d.message] + Drain(p, rest).1) == (ms + [d.message]) + Drain(p, rest).1;
    }
  }

  lemma DrainEnd(p: Schema, s: seq<Byte>)
    requires |s| < 8
    ensures Drain(p, s) == (true, [], s)
  {
  }

  /** At most `n` turns of the loop of the server, which calls decode as long as 8 bytes are
      readable, whether or not anything is taken. */
  function ServerLoop(p: Schema, s: seq<Byte>, n: nat): (bool, seq<Byte>)
    decreases n
  {
    hide Decode;
    if n == 0 || |s| < 8 then (true, s)
    else
      var (d, rest) := Decode(p, s);
      if d.Aborted? then (false, rest) else ServerLoop(p, rest, n - 1)
  }

  /** The loop ends, by its condition or by an abort, after some number of turns. */
  ghost predicate ServerEnds(p: Schema, s: seq<Byte>) {
    exists n :: EndsWithin(p, s, n)
  }

  predicate EndsWithin(p: Schema, s: seq<Byte>, n: nat) {
    var (alive, rest) := ServerLoop(p, s, n);
    !alive || |rest| < 8
  }

  lemma {:induction false} DrainEnds(p: Schema, s: seq<Byte>) returns (n: nat)
    requires var (alive, ms, rest) := Drain(p, s); !alive || |rest| < 8
    ensures EndsWithin(p, s, n)
    decreases |s|
  {
    hide Decode;
    n := 0;
    if |s| >= 8 {
      DecodeShrinks(p, s);
      var (d, rest) := Decode(p, s);
      if d.Aborted? {
        n := 1;
      } else {
        assert |rest| < |s|;
        var k := DrainEnds(p, rest);
        n := k + 1;
      }
    }
  }

  lemma {:induction false} StuckForever(p: Schema, s: seq<Byte>, n: nat)
    requires var (alive, ms, rest) := Drain(p, s); alive && |rest| >= 8
    ensures !EndsWithin(p, s, n)
    decreases n
  {
    hide Decode;
    if n > 0 {
      if |s| < 8 {
        DrainEnd(p, s);
      }
      DecodeShrinks(p, s);
      DrainStep(p, s, []);
      var (d, rest) := Decode(p, s);
      StuckForever(p, rest, n - 1);
    } else if |s| < 8 {
      DrainEnd(p, s);
    }
  }

  /** The loop of the server ends on a buffer if and only if draining it aborts or leaves
      fewer than 8 bytes. */
  lemma ServerEndsExactly(p: Schema, s: seq<Byte>)
    ensures ServerEnds(p, s) <==> (var (alive, ms, rest) := Drain(p, s); !alive || |rest| < 8)
  {
    hide EndsWithin, Drain;
    var (alive, ms, rest) := Drain(p, s);
    if !alive || |rest| < 8 {
      var n := DrainEnds(p, s);
    } else {
      forall n ensures !EndsWithin(p, s, n) {
        StuckForever(p, s, n);
      }
    }
  }

  /** On the beginning of a row of frames the loop ends exactly when fewer than 8 bytes of
      the incomplete frame are there. */
  lemma ServerOnFrames(p: Schema, ms: seq<Message>, s: seq<Byte>)
    requires Lawful(p) && AllAccepted(p, ms) && (forall m | m in ms :: Encodable(p, m)) && s <= Frames(p, ms)
    ensures var k := Whole(p, ms, |s|);
      k <= |ms| && (ServerEnds(p, s) <==> |s| - |Frames(p, ms[..k])| < 8)
  {
    hide Drain, Lawful, AllAccepted, ServerEnds;
    DrainFrames(p, ms, s);
    ServerEndsExactly(p, s);
  }

  function Concat(chunks: seq<seq<Byte>>): seq<Byte> {
    if chunks == [] then [] else chunks[0] + Concat(chunks[1..])
  }

  function Frames(p: Schema, ms: seq<Message>): seq<Byte>
    requires forall m | m in ms :: Encodable(p, m)
  {
    if ms == [] then [] else Frame(p, ms[0]) + Frames(p, ms[1..])
  }

  /** How many frames are complete in the first `n` bytes. */
  function Whole(p: Schema, ms: seq<Message>, n: int): nat
    requires forall m | m in ms :: Encodable(p, m)
  {
    if ms == [] || n < |Frame(p, ms[0])| then 0 else 1 + Whole(p, ms[1..], n - |Frame(p, ms[0])|)
  }

  predicate AllAccepted(p: Schema, ms: seq<Message>) {
    forall m | m in ms :: Accepted(p, m)
  }

  /** Draining a beginning of a row of frames gives the complete ones, in order, and leaves
      the beginning of the next. */
  lemma {:induction false} DrainFrames(p: Schema, ms: seq<Message>, s: seq<Byte>)
    requires Lawful(p) && AllAccepted(p, ms) && s <= Frames(p, ms)
    ensures var k := Whole(p, ms, |s|);
      && k <= |ms| && |Frames(p, ms[..k])| <= |s|
      && Drain(p, s) == (true, ms[..k], s[|Frames(p, ms[..k])|..])
      && Frames(p, ms) == Frames(p, ms[..k]) + Frames(p, ms[k..])
      && Whole(p, ms[k..], |s| - |Frames(p, ms[..k])|) == 0
  {
    hide Drain, Frame, Accepted, Lawful;
    if ms == [] {
      assert ms[..0] == [] && s == [] && s[0..] == [];
      DrainEnd(p, s);
    } else {
      EachEncodable(p, ms);
      assert ms[0] in ms;
      var f, k := Frame(p, ms[0]), Whole(p, ms, |s|);
      if |s| < |f| {
        assert ms[..0] == [] && ms[0..] == ms && s[0..] == s;
        assert s <= f;
        DrainPartial(p, ms[0], s);
      } else {
        var rest := s[|f|..];
        assert s == f + rest && rest <= Frames(p, ms[1..]);
        DrainFrames(p, ms[1..], rest);
        DrainOneMore(p, ms[0], ms[1..], rest);
        assert ms == [ms[0]] + ms[1..];
      }
    }
  }

  /** Draining one frame more. */
  lemma DrainOneMore(p: Schema, m: Message, ms: seq<Message>, s: seq<Byte>)
    requires Lawful(p) && Accepted(p, m) && AllAccepted(p, ms) && forall x | x in ms || x in [m] + ms :: Encodable(p, x)
    requires var k := Whole(p, ms, |s|);
      && k <= |ms| && |Frames(p, ms[..k])| <= |s|
      && Drain(p, s) == (true, ms[..k], s[|Frames(p, ms[..k])|..])
      && Frames(p, ms) == Frames(p, ms[..k]) + Frames(p, ms[k..])
    ensures var all, k, u := [m] + ms, Whole(p, ms, |s|) + 1, Frame(p, m) + s;
      && Whole(p, all, |u|) == k && all[k..] == ms[k - 1..]
      && Frames(p, all[..k]) == Frame(p, m) + Frames(p, ms[..k - 1])
      && Drain(p, u) == (true, all[..k], u[|Frames(p, all[..k])|..])
      && Frames(p, all) == Frames(p, all[..k]) + Frames(p, all[k..])
  {
    hide Drain, Frame, Accepted, Lawful;
    var k, all, f := Whole(p, ms, |s|), [m] + ms, Frame(p, m);
    assert all[0] == m && all[1..] == ms;
    assert all[..k + 1] == [m] + ms[..k] && all[k + 1..] == ms[k..];
    FirstFrame(p, m, ms[..k]);
    FirstFrame(p, m, ms);
    DrainFirst(p, m, s);
    var head := Frames(p, ms[..k]);
    assert (f + s)[|f| + |head|..] == s[|head|..];
    assert f + (head + Frames(p, ms[k..])) == (f + head) + Frames(p, ms[k..]);
  }

  lemma DrainPartial(p: Schema, m: Message, s: seq<Byte>)
    requires Accepted(p, m) && s <= Frame(p, m) && |s| < |Frame(p, m)|
    ensures Drain(p, s) == (true, [], s)
  {
    hide Decode, Frame;
    if |s| >= 8 {
      PartialStays(p, m, s);
    }
  }

  lemma DrainFirst(p: Schema, m: Message, rest: seq<Byte>)
    requires Lawful(p) && Accepted(p, m)
    ensures |Frame(p, m)| > 8 && Drain(p, Frame(p, m) + rest) == After([m], Drain(p, rest))
  {
    hide Decode, Frame, Lawful;
    BodySize(p, m);
    FrameDecodes(p, m, rest);
  }

  lemma FirstFrame(p: Schema, m: Message, ms: seq<Message>)
    requires Encodable(p, m) && forall x | x in ms :: Encodable(p, x)
    ensures Frames(p, [m] + ms) == Frame(p, m) + Frames(p, ms)
  {
    assert ([m] + ms)[1..] == ms;
  }

  lemma {:induction false} FeedFrames(p: Schema, ms: seq<Message>, s: seq<Byte>, chunks: seq<seq<Byte>>)
    requires Lawful(p) && AllAccepted(p, ms)
    requires s + Concat(chunks) == Frames(p, ms) && Whole(p, ms, |s|) == 0
    ensures Feed(p, s, chunks) == (true, ms, [])
    decreases |chunks|
  {
    hide Drain, Frame, Accepted, Lawful;
    if chunks == [] {
      assert s == Frames(p, ms);
      EachEncodable(p, ms);
      NoneWhole(p, ms, |s|);
    } else {
      var s1 := s + chunks[0];
      EachEncodable(p, ms);
      assert s1 + Concat(chunks[1..]) == s + Concat(chunks);
      DrainFrames(p, ms, s1);
      var k := Whole(p, ms, |s1|);
      var rest := s1[|Frames(p, ms[..k])|..];
      CutOff(s1, Concat(chunks[1..]), Frames(p, ms[..k]), Frames(p, ms[k..]));
      FeedFrames(p, ms[k..], rest, chunks[1..]);
      assert ms[..k] + ms[k..] == ms;
    }
  }

  lemma NoneWhole(p: Schema, ms: seq<Message>, n: nat)
    requires (forall m | m in ms :: Encodable(p, m)) && Whole(p, ms, n) == 0
    ensures ms != [] ==> n < |Frames(p, ms)|
  {
    hide Frame;
  }

  lemma CutOff(s: seq<Byte>, more: seq<Byte>, head: seq<Byte>, tail: seq<Byte>)
    requires s + more == head + tail && |head| <= |s|
    ensures s[|head|..] + more == tail
  {
    assert (s + more)[|head|..] == s[|head|..] + more;
    assert (head + tail)[|head|..] == tail;
  }

  lemma EachEncodable(p: Schema, ms: seq<Message>)
    requires AllAccepted(p, ms)
    ensures forall m | m in ms :: Encodable(p, m)
  {
  }

  /** Any list of accepted messages, encoded one after the other and cut into chunks
      anywhere, is decoded to exactly these messages, in order, with nothing left over. */
  lemma FramingRoundTrip(p: Schema, ms: seq<Message>, chunks: seq<seq<Byte>>)
    requires Lawful(p) && AllAccepted(p, ms) && Concat(chunks) == Frames(p, ms)
    ensures Feed(p, [], chunks) == (true, ms, [])
  {
    hide Feed, Lawful, Accepted;
    EachEncodable(p, ms);
    if ms != [] {
      BodySize(p, ms[0]);
    }
    assert [] + Concat(chunks) == Concat(chunks);
    FeedFrames(p, ms, [], chunks);
  }
}
