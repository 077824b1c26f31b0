/**
 Quoted strings: the printer sdscatrepr and the parser sdssplitargs.  A C string is the
 sequence of its bytes before the terminator.
 */
module Sds {
  import opened Bytes
  import opened Options

  type Text = seq<Byte>

  const QUOTE: Byte := 34
  const APOSTROPHE: Byte := 39
  const BACKSLASH: Byte := 92
  const SPACE: Byte := 32

  // ---------------------------------------------------------------- classes

  predicate IsPrint(b: Byte) {
    0x20 <= b <= 0x7E
  }

  predicate IsSpace(b: Byte) {
    b == SPACE || 9 <= b <= 13
  }

  predicate IsHexDigit(b: Byte) {
    48 <= b <= 57 || 97 <= b <= 102 || 65 <= b <= 70
  }

  function HexDigitToInt(b: Byte): (n: nat)
    ensures n < 16
  {
    if 48 <= b <= 57 then b - 48
    else if 97 <= b <= 102 then b - 87
    else if 65 <= b <= 70 then b - 55
    else 0
  }

  /** A digit as %x prints it. */
  function HexDigit(n: nat): Byte
    requires n < 16
  {
    if n < 10 then 48 + n else 87 + n
  }

  // ---------------------------------------------------------------- printing

  function Escape(b: Byte): Text {
    if b == BACKSLASH || b == QUOTE then [BACKSLASH, b]
    else if b == 10 then [BACKSLASH, 110]
    else if b == 13 then [BACKSLASH, 114]
    else if b == 9 then [BACKSLASH, 116]
    else if b == 7 then [BACKSLASH, 97]
    else if b == 8 then [BACKSLASH, 98]
    else if IsPrint(b) then [b]
    else [BACKSLASH, 120, HexDigit(b / 16), HexDigit(b % 16)]
  }

  function Escaped(p: Text): Text {
    if p == [] then [] else Escape(p[0]) + Escaped(p[1..])
  }

  function Repr(p: Text): Text {
    [QUOTE] + Escaped(p) + [QUOTE]
  }

  /** sdscatrepr: the quoted form of `p` is appended to `s0`. */
  method CatRepr(s0: Text, p: Text) returns (s: Text)
    ensures s == s0 + Repr(p)
  {
    hide Escape;
    s := s0 + [QUOTE];
    var i := 0;
    while i < |p|
      invariant i <= |p| && s + Escaped(p[i..]) == s0 + [QUOTE] + Escaped(p)
    {
      EscapedFrom(s, p[i..]);
      s := CatEscape(s, p[i]);
      assert p[i..][1..] == p[i + 1..];
      i := i + 1;
    }
    assert s + [] == s;
    s := s + [QUOTE];
    assert s == s0 + ([QUOTE] + Escaped(p) + [QUOTE]);
  }

  lemma EscapedFrom(s: Text, p: Text)
    requires p != []
    ensures s + Escaped(p) == s + Escape(p[0]) + Escaped(p[1..])
  {
    hide Escape;
  }

  /** One turn of the loop of sdscatrepr. */
  method CatEscape(s0: Text, b: Byte) returns (s: Text)
    ensures s == s0 + Escape(b)
  {
    hide HexDigit;
    if b == BACKSLASH || b == QUOTE {
      s := s0 + [BACKSLASH, b];
    } else if b == 10 {
      s := s0 + [BACKSLASH, 110];
    } else if b == 13 {
      s := s0 + [BACKSLASH, 114];
    } else if b == 9 {
      s := s0 + [BACKSLASH, 116];
    } else if b == 7 {
      s := s0 + [BACKSLASH, 97];
    } else if b == 8 {
      s := s0 + [BACKSLASH, 98];
    } else if IsPrint(b) {
      s := s0 + [b];
    } else {
      s := s0 + [BACKSLASH, 120, HexDigit(b / 16), HexDigit(b % 16)];
    }
  }

  // ----------------------------------------------------------------- parsing

  datatype Mode = Plain | Quoted | SingleQuoted

  /** A parsed token and what follows it; or unbalanced quotes. */
  datatype Parsed = Token(token: Text, rest: Text) | Failed

  function Unescape(b: Byte): Byte {
    if b == 110 then 10
    else if b == 114 then 13
    else if b == 116 then 9
    else if b == 98 then 8
    else if b == 97 then 7
    else b
  }

  predicate HexEscape(s: Text) {
    |s| >= 4 && s[0] == BACKSLASH && s[1] == 120 && IsHexDigit(s[2]) && IsHexDigit(s[3])
  }

  /** A closing quote has to be followed by a space or by nothing. */
  function Closed(s: Text, current: Text): Parsed
    requires s != []
  {
    if |s| > 1 && !IsSpace(s[1]) then Failed else Token(current, s[1..])
  }

  /** The rest of a token that begins with `current`. */
  function Parse(s: Text, mode: Mode, current: Text): Parsed
    decreases |s|
  {
    match mode
    case Quoted =>
      if HexEscape(s) then Parse(s[4..], Quoted, current + [HexDigitToInt(s[2]) * 16 + HexDigitToInt(s[3])])
      else if |s| >= 2 && s[0] == BACKSLASH then Parse(s[2..], Quoted, current + [Unescape(s[1])])
      else if s == [] then Failed
      else if s[0] == QUOTE then Closed(s, current)
      else Parse(s[1..], Quoted, current + [s[0]])
    case SingleQuoted =>
      if |s| >= 2 && s[0] == BACKSLASH && s[1] == APOSTROPHE then Parse(s[2..], SingleQuoted, current + [APOSTROPHE])
      else if s == [] then Failed
      else if s[0] == APOSTROPHE then Closed(s, current)
      else Parse(s[1..], SingleQuoted, current + [s[0]])
    case Plain =>
      if s == [] then Token(current, s)
      else if s[0] == SPACE || s[0] == 10 || s[0] == 13 || s[0] == 9 then Token(current, s[1..])
      else if s[0] == QUOTE then Parse(s[1..], Quoted, current)
      else if s[0] == APOSTROPHE then Parse(s[1..], SingleQuoted, current)
      else Parse(s[1..], Plain, current + [s[0]])
  }

  lemma {:induction false} ParseShrinks(s: Text, mode: Mode, current: Text)
    ensures var r := Parse(s, mode, current);
      r.Token? ==> |r.rest| <= |s| && (s != [] ==> |r.rest| < |s|)
    decreases |s|
  {
    hide IsSpace, IsHexDigit, HexDigitToInt, Unescape;
    if s != [] {
      ParseShrinks(s[1..], Plain, current + [s[0]]);
      ParseShrinks(s[1..], Quoted, current);
      ParseShrinks(s[1..], SingleQuoted, current);
      ParseShrinks(s[1..], Quoted, current + [s[0]]);
      ParseShrinks(s[1..], SingleQuoted, current + [s[0]]);
      if |s| >= 2 {
        ParseShrinks(s[2..], Quoted, current + [Unescape(s[1])]);
        ParseShrinks(s[2..], SingleQuoted, current + [APOSTROPHE]);
      }
      if HexEscape(s) {
        ParseShrinks(s[4..], Quoted, current + [HexDigitToInt(s[2]) * 16 + HexDigitToInt(s[3])]);
      }
    }
  }

  function SkipBlanks(s: Text): (r: Text)
    ensures |r| <= |s|
  {
    if s != [] && IsSpace(s[0]) then SkipBlanks(s[1..]) else s
  }

  /** All tokens of a line, or nothing if its quotes are unbalanced. */
  function Split(line: Text): Option<seq<Text>>
    decreases |line|
  {
    var s := SkipBlanks(line);
    if s == [] then Some([])
    else
      ParseShrinks(s, Plain, []);
      var r := Parse(s, Plain, []);
      if r.Failed? then None
      else
        var more := Split(r.rest);
        if more.None? then None else Some([r.token] + more.value)
  }

  /** The character at an index; behind the last one there is the terminator. */
  function At(line: Text, i: nat): Byte {
    if i < |line| then line[i] else 0
  }

  /** The inner loop of sdssplitargs, which reads one token from index `p0` on. */
  method GetToken(line: Text, p0: nat) returns (ok: bool, current: Text, p: nat)
    requires 0 !in line && p0 <= |line|
    ensures p <= |line|
    ensures ok ==> Parse(line[p0..], Plain, []) == Token(current, line[p..])
    ensures !ok ==> Parse(line[p0..], Plain, []) == Failed
  {
    current, p := [], p0;
    var mode := Plain;
    var done := false;
    while !done
      invariant p <= |line|
      invariant Parse(line[p0..], Plain, []) ==
        if done then Token(current, line[p..]) else Parse(line[p..], mode, current)
      decreases !done, |line| - p
    {
      ok, done, mode, current, p := Turn(line, p, mode, current);
      if !ok {
        return;
      }
    }
    ok := true;
  }

  /** One turn of the inner loop. */
  method Turn(line: Text, p0: nat, mode0: Mode, current0: Text)
    returns (ok: bool, done: bool, mode: Mode, current: Text, p: nat)
    requires 0 !in line && p0 <= |line|
    ensures p <= |line|
    ensures !ok ==> Parse(line[p0..], mode0, current0) == Failed
    ensures ok && done ==> Parse(line[p0..], mode0, current0) == Token(current, line[p..])
    ensures ok && !done ==> p0 < p && Parse(line[p0..], mode0, current0) == Parse(line[p..], mode, current)
  {
    hide IsSpace, IsHexDigit, HexDigitToInt, Unescape;
    ok, done, mode, current, p := true, false, mode0, current0, p0;
    NotNul(line, p);
    NotNul(line, p + 1);
    if mode == Quoted {
      if
        && At(line, p) == BACKSLASH && At(line, p + 1) == 120
        && IsHexDigit(At(line, p + 2)) && IsHexDigit(At(line, p + 3))
      {
        NulIsNoDigit();
        current := current + [HexDigitToInt(At(line, p + 2)) * 16 + HexDigitToInt(At(line, p + 3))];
        p := p + 3;
      } else if At(line, p) == BACKSLASH && At(line, p + 1) != 0 {
        p := p + 1;
        current := current + [Unescape(At(line, p))];
      } else if At(line, p) == QUOTE {
        if At(line, p + 1) != 0 && !IsSpace(At(line, p + 1)) {
          ok := false;
          return;
        }
        done := true;
      } else if At(line, p) == 0 {
        ok := false;
        return;
      } else {
        current := current + [At(line, p)];
      }
    } else if mode == SingleQuoted {
      if At(line, p) == BACKSLASH && At(line, p + 1) == APOSTROPHE {
        p := p + 1;
        current := current + [APOSTROPHE];
      } else if At(line, p) == APOSTROPHE {
        if At(line, p + 1) != 0 && !IsSpace(At(line, p + 1)) {
          ok := false;
          return;
        }
        done := true;
      } else if At(line, p) == 0 {
        ok := false;
        return;
      } else {
        current := current + [At(line, p)];
      }
    } else {
      var c := At(line, p);
      if c == SPACE || c == 10 || c == 13 || c == 9 || c == 0 {
        done := true;
      } else if c == QUOTE {
        mode := Quoted;
      } else if c == APOSTROPHE {
        mode := SingleQuoted;
      } else {
        current := current + [c];
      }
    }
    NotNul(line, p);
    if At(line, p) != 0 {
      p := p + 1;
    }
  }

  lemma NotNul(line: Text, i: nat)
    requires 0 !in line
    ensures At(line, i) != 0 <==> i < |line|
  {
  }

  lemma NulIsNoDigit()
    ensures !IsHexDigit(0)
  {
  }

  /** sdssplitargs on a C string. */
  method SplitArgs(line: Text) returns (r: Option<seq<Text>>)
    requires 0 !in line
    ensures r == Split(line)
  {
    hide Parse;
    var p, vector := 0, [];
    assert line[0..] == line;
    BeforeNothing(Split(line));
    while true
      invariant p <= |line|
      invariant Split(line) == Before(vector, Split(line[p..]))
      decreases |line| - p
    {
      ghost var start := p;
      while At(line, p) != 0 && IsSpace(At(line, p))
        invariant start <= p <= |line| && SkipBlanks(line[p..]) == SkipBlanks(line[start..])
        decreases |line| - p
      {
        p := p + 1;
      }
      NotNul(line, p);
      if At(line, p) != 0 {
        assert SkipBlanks(line[start..]) == line[p..];
        ParseShrinks(line[p..], Plain, []);
        var ok, current, p' := GetToken(line, p);
        if !ok {
          return None;
        }
        BeforeAppend(vector, current, Split(line[p'..]));
        p, vector := p', vector + [current];
      } else {
        assert line[p..] == [] && vector + [] == vector;
        return Some(vector);
      }
    }
  }

  function Before(tokens: seq<Text>, more: Option<seq<Text>>): Option<seq<Text>> {
    if more.None? then None else Some(tokens + more.value)
  }

  lemma BeforeNothing(more: Option<seq<Text>>)
    ensures Before([], more) == more
  {
    if more.Some? {
      assert [] + more.value == more.value;
    }
  }

  lemma BeforeAppend(tokens: seq<Text>, t: Text, more: Option<seq<Text>>)
    ensures Before(tokens, Before([t], more)) == Before(tokens + [t], more)
  {
    if more.Some? {
      assert tokens + ([t] + more.value) == (tokens + [t]) + more.value;
    }
  }

  // -------------------------------------------------------------- round trip

  /** The quoted forms of some strings, joined by single spaces. */
  function Line(args: seq<Text>): Text {
    if args == [] then []
    else if |args| == 1 then Repr(args[0])
    else Repr(args[0]) + [SPACE] + Line(args[1..])
  }

  lemma HexOfDigit(n: nat)
    requires n < 16
    ensures IsHexDigit(HexDigit(n)) && HexDigitToInt(HexDigit(n)) == n
  {
  }

  /** The parser takes one escaped byte as that byte. */
  lemma ParseEscape(b: Byte, rest: Text, current: Text)
    ensures Parse(Escape(b) + rest, Quoted, current) == Parse(rest, Quoted, current + [b])
  {
    hide IsHexDigit, HexDigitToInt, HexDigit;
    var e := Escape(b);
    assert (e + rest)[|e|..] == rest;
    if |e| == 4 {
      HexOfDigit(b / 16);
      HexOfDigit(b % 16);
      assert HexEscape(e + rest);
    } else if |e| == 2 {
      assert !HexEscape(e + rest) && (e + rest)[1] == e[1];
    } else {
      assert (e + rest)[0] == b;
    }
  }

  lemma {:induction false} ParseEscaped(p: Text, rest: Text, current: Text)
    requires rest == [] || IsSpace(rest[0])
    ensures Parse(Escaped(p) + ([QUOTE] + rest), Quoted, current) == Token(current + p, rest)
  {
    hide IsSpace, Escape;
    var tail := [QUOTE] + rest;
    if p == [] {
      assert [] + tail == tail && tail[1..] == rest && current + [] == current;
    } else {
      assert Escaped(p) + tail == Escape(p[0]) + (Escaped(p[1..]) + tail);
      ParseEscape(p[0], Escaped(p[1..]) + tail, current);
      ParseEscaped(p[1..], rest, current + [p[0]]);
      assert (current + [p[0]]) + p[1..] == current + p;
    }
  }

  /** A quoted string at the start of a line is its first token. */
  lemma SplitRepr(p: Text, rest: Text)
    requires rest == [] || IsSpace(rest[0])
    ensures Split(Repr(p) + rest) == Before([p], Split(rest))
  {
    hide Escaped;
    var s := Repr(p) + rest;
    assert s[0] == QUOTE && s[1..] == Escaped(p) + ([QUOTE] + rest);
    ParseEscaped(p, rest, []);
    assert [] + p == p;
    assert Parse(s, Plain, []) == Token(p, rest);
  }

  /** For any list of byte strings, splitting the line of their quoted forms gives the list
      back. */
  lemma {:induction false} QuoteParseInverse(args: seq<Text>)
    ensures Split(Line(args)) == Some(args)
  {
    hide Split, Repr;
    if args == [] {
      SplitNothing();
    } else if |args| == 1 {
      SplitRepr(args[0], []);
      SplitNothing();
      assert Repr(args[0]) + [] == Repr(args[0]) && [args[0]] + [] == args;
    } else {
      QuoteParseInverse(args[1..]);
      var rest := [SPACE] + Line(args[1..]);
      assert Line(args) == Repr(args[0]) + rest;
      SplitRepr(args[0], rest);
      SplitBlank(Line(args[1..]));
      assert [args[0]] + args[1..] == args;
    }
  }

  lemma SplitNothing()
    ensures Split([]) == Some([])
  {
  }

  lemma SplitBlank(line: Text)
    ensures Split([SPACE] + line) == Split(line)
  {
    hide Parse;
    assert ([SPACE] + line)[1..] == line;
    assert SkipBlanks([SPACE] + line) == SkipBlanks(line);
  }

  /** The line has no NUL in it, whatever the strings hold: it is a C string. */
  lemma {:induction false} LineIsCString(args: seq<Text>)
    ensures 0 !in Line(args)
  {
    hide Repr;
    if args != [] {
      EscapedHasNoNul(args[0]);
      LineIsCString(args[1..]);
      var r := Repr(args[0]);
      if |args| > 1 {
        assert Line(args) == r + [SPACE] + Line(args[1..]);
      }
    }
  }

  lemma {:induction false} EscapedHasNoNul(p: Text)
    ensures 0 !in Escaped(p) && 0 !in Repr(p)
  {
    if p != [] {
      EscapedHasNoNul(p[1..]);
      EscapeHasNoNul(p[0]);
    }
  }

  lemma EscapeHasNoNul(b: Byte)
    ensures 0 !in Escape(b)
  {
  }
}
