/**
 The written form of a line of arguments, given apart from the parser: words, texts in
 double and in single quotes, and words that end in a quoted text.  Every line is either
 such a row or goes wrong at a quote, and the parser tells which and reads the row.
 */
module SdsForms {
  import opened Bytes
  import opened Options
  import opened Sds

  // ------------------------------------------------------------ double quotes

  /** A piece of a text in double quotes: a byte as it is, a byte behind a backslash, or a
      byte by its hexadecimal digits, each with a letter of either case. */
  datatype Piece = Raw(b: Byte) | Slash(b: Byte) | Hex(b: Byte, upper1: bool, upper2: bool)

  const LOWER: Text := [48, 49, 50, 51, 52, 53, 54, 55, 56, 57, 97, 98, 99, 100, 101, 102]
  const UPPER: Text := [48, 49, 50, 51, 52, 53, 54, 55, 56, 57, 65, 66, 67, 68, 69, 70]

  function Digit(n: nat, upper: bool): Byte
    requires n < 16
  {
    if upper then UPPER[n] else LOWER[n]
  }

  function PieceText(p: Piece): Text {
    match p
    case Raw(b) => [b]
    case Slash(b) => [BACKSLASH, b]
    case Hex(b, u1, u2) => [BACKSLASH, 120, Digit(b / 16, u1), Digit(b % 16, u2)]
  }

  /** The control characters that have a letter. */
  function Named(): map<Byte, Byte> {
    map[110 := 10, 114 := 13, 116 := 9, 98 := 8, 97 := 7]
  }

  function PieceByte(p: Piece): Byte {
    match p
    case Raw(b) => b
    case Slash(b) => if b in Named() then Named()[b] else b
    case Hex(b, _, _) => b
  }

  function PiecesText(ps: seq<Piece>): Text {
    if ps == [] then [] else PieceText(ps[0]) + PiecesText(ps[1..])
  }

  function PieceBytes(ps: seq<Piece>): Text {
    if ps == [] then [] else [PieceByte(ps[0])] + PieceBytes(ps[1..])
  }

  predicate TwoDigits(s: Text) {
    |s| >= 2 && (s[0] in LOWER || s[0] in UPPER) && (s[1] in LOWER || s[1] in UPPER)
  }

  /** A raw byte is no quote and no backslash, and `\\x` before two digits is a Hex. */
  predicate PiecesOk(ps: seq<Piece>, behind: Text) {
    ps != [] ==>
      && PiecesOk(ps[1..], behind)
      && (ps[0].Raw? ==> ps[0].b != QUOTE && ps[0].b != BACKSLASH)
      && (ps[0] == Slash(120) ==> !TwoDigits(PiecesText(ps[1..]) + behind))
  }

  // ------------------------------------------------------------ single quotes

  /** A piece of a text in single quotes: a byte as it is, or `\\'`. */
  datatype Single = Itself(b: Byte) | Apostrophe

  function SingleText(p: Single): Text {
    match p
    case Itself(b) => [b]
    case Apostrophe => [BACKSLASH, APOSTROPHE]
  }

  function SinglesText(ps: seq<Single>): Text {
    if ps == [] then [] else SingleText(ps[0]) + SinglesText(ps[1..])
  }

  function SingleBytes(ps: seq<Single>): Text {
    if ps == [] then []
    else [if ps[0].Apostrophe? then APOSTROPHE else ps[0].b] + SingleBytes(ps[1..])
  }

  /** A byte is no apostrophe, and a backslash stands before none. */
  predicate SinglesOk(ps: seq<Single>, behind: Text) {
    ps != [] ==>
      && SinglesOk(ps[1..], behind)
      && ps[0] != Itself(APOSTROPHE)
      && (ps[0] == Itself(BACKSLASH) ==> !Starts(SinglesText(ps[1..]) + behind, APOSTROPHE))
  }

  predicate Starts(s: Text, b: Byte) {
    s != [] && s[0] == b
  }

  // ------------------------------------------------------------------- words

  /** What ends a word that is not in quotes. */
  predicate IsEnd(b: Byte) {
    b == SPACE || b == 10 || b == 13 || b == 9
  }

  /** The plain part of a token. */
  predicate PlainOk(w: Text) {
    forall b | b in w :: !IsEnd(b) && b != QUOTE && b != APOSTROPHE
  }

  datatype Tail = Bare | Double(pieces: seq<Piece>) | Quotes(singles: seq<Single>)

  /** A token: a plain part and perhaps a quoted one. */
  datatype Form = Form(word: Text, tail: Tail)

  /** The quote that a quoted part starts with, and the part without its closing quote. */
  function TailText(t: Tail): Text {
    match t
    case Bare => []
    case Double(ps) => [QUOTE] + PiecesText(ps)
    case Quotes(ps) => [APOSTROPHE] + SinglesText(ps)
  }

  function Closing(t: Tail): Text {
    match t
    case Bare => []
    case Double(_) => [QUOTE]
    case Quotes(_) => [APOSTROPHE]
  }

  function TailBytes(t: Tail): Text {
    match t
    case Bare => []
    case Double(ps) => PieceBytes(ps)
    case Quotes(ps) => SingleBytes(ps)
  }

  predicate TailOk(t: Tail, behind: Text) {
    match t
    case Bare => true
    case Double(ps) => PiecesOk(ps, behind)
    case Quotes(ps) => SinglesOk(ps, behind)
  }

  /** A token is not empty and does not start with a blank. */
  predicate FormOk(f: Form) {
    && PlainOk(f.word) && TailOk(f.tail, Closing(f.tail))
    && (f.word == [] ==> f.tail != Bare)
    && (f.word != [] ==> !IsSpace(f.word[0]))
  }

  function FormText(f: Form): Text {
    f.word + TailText(f.tail) + Closing(f.tail)
  }

  /** A line: its end, a token and the rest, a quoted part that is not closed, perhaps with a
      last backslash, or a closing quote with something that is not a blank behind it. */
  datatype Row =
    | End(blanks: Text)
    | Word(blanks: Text, form: Form, next: Row)
    | Open(blanks: Text, form: Form, last: Text)
    | Stuck(blanks: Text, form: Form, rest: Text)

  function RowText(r: Row): Text {
    match r
    case End(blanks) => blanks
    case Word(blanks, f, next) => blanks + FormText(f) + RowText(next)
    case Open(blanks, f, last) => blanks + f.word + TailText(f.tail) + last
    case Stuck(blanks, f, rest) => blanks + FormText(f) + rest
  }

  predicate AllBlank(s: Text) {
    forall b | b in s :: IsSpace(b)
  }

  /** What may stand behind a token. */
  predicate Separates(t: Tail, behind: Text) {
    behind != [] ==> if t == Bare then IsEnd(behind[0]) else IsSpace(behind[0])
  }

  predicate RowOk(r: Row) {
    && AllBlank(r.blanks)
    && match r
       case End(_) => true
       case Word(_, f, next) => FormOk(f) && Separates(f.tail, RowText(next)) && RowOk(next)
       case Open(_, f, last) =>
         && PlainOk(f.word) && f.tail != Bare && TailOk(f.tail, last)
         && (f.word != [] ==> !IsSpace(f.word[0]))
         && (last == [] || (last == [BACKSLASH] && f.tail.Double?))
       case Stuck(_, f, rest) => FormOk(f) && f.tail != Bare && !Separates(f.tail, rest)
  }

  /** The tokens of a line, if it goes well to its end. */
  function Tokens(r: Row): Option<seq<Text>> {
    match r
    case End(_) => Some([])
    case Word(_, f, next) => Before([f.word + TailBytes(f.tail)], Tokens(next))
    case _ => None
  }

  // ------------------------------------------------------------- reading pieces

  lemma DigitReads(n: nat, upper: bool)
    requires n < 16
    ensures IsHexDigit(Digit(n, upper)) && HexDigitToInt(Digit(n, upper)) == n
  {
  }

  lemma DigitsAre(b: Byte)
    ensures IsHexDigit(b) <==> b in LOWER || b in UPPER
    ensures IsHexDigit(b) ==> exists upper :: Digit(HexDigitToInt(b), upper) == b
  {
    if IsHexDigit(b) {
      assert Digit(HexDigitToInt(b), false) == b || Digit(HexDigitToInt(b), true) == b;
    }
    if b in LOWER || b in UPPER {
      assert IsHexDigit(b);
    }
  }

  lemma NamedIs(b: Byte)
    ensures Unescape(b) == PieceByte(Slash(b))
  {
  }

  lemma PieceReads(p: Piece, behind: Text, current: Text)
    requires p.Raw? ==> p.b != QUOTE && p.b != BACKSLASH
    requires p == Slash(120) ==> !TwoDigits(behind)
    ensures Parse(PieceText(p) + behind, Quoted, current) == Parse(behind, Quoted, current + [PieceByte(p)])
  {
    hide IsHexDigit, HexDigitToInt, Digit, TwoDigits, Unescape, Named;
    var e := PieceText(p);
    var s := e + behind;
    assert s[|e|..] == behind;
    match p
    case Raw(b) =>
      assert s[0] == b;
    case Slash(b) =>
      assert s[0] == BACKSLASH && s[1] == b;
      NamedIs(b);
      if b == 120 { NoHex(s, behind); }
    case Hex(b, u1, u2) =>
      assert s[0] == BACKSLASH && s[1] == 120 && s[2] == e[2] && s[3] == e[3];
      DigitReads(b / 16, u1);
      DigitReads(b % 16, u2);
  }

  lemma NoHex(s: Text, behind: Text)
    requires s == [BACKSLASH, 120] + behind && !TwoDigits(behind)
    ensures !HexEscape(s)
  {
    hide IsHexDigit, HexDigitToInt;
    if |behind| >= 2 {
      assert s[2] == behind[0] && s[3] == behind[1];
      DigitsAre(behind[0]);
      DigitsAre(behind[1]);
    }
  }

  lemma {:induction false} PiecesRead(ps: seq<Piece>, behind: Text, current: Text)
    requires PiecesOk(ps, behind)
    ensures Parse(PiecesText(ps) + behind, Quoted, current) == Parse(behind, Quoted, current + PieceBytes(ps))
  {
    hide PieceText, PieceByte, TwoDigits, Parse;
    if ps == [] {
      assert [] + behind == behind && current + [] == current;
    } else {
      var more := PiecesText(ps[1..]) + behind;
      assert PiecesText(ps) + behind == PieceText(ps[0]) + more;
      PieceReads(ps[0], more, current);
      PiecesRead(ps[1..], behind, current + [PieceByte(ps[0])]);
      assert (current + [PieceByte(ps[0])]) + PieceBytes(ps[1..]) == current + PieceBytes(ps);
    }
  }

  lemma {:induction false} SinglesRead(ps: seq<Single>, behind: Text, current: Text)
    requires SinglesOk(ps, behind)
    ensures Parse(SinglesText(ps) + behind, SingleQuoted, current)
         == Parse(behind, SingleQuoted, current + SingleBytes(ps))
  {
    if ps == [] {
      assert [] + behind == behind && current + [] == current;
    } else {
      var more := SinglesText(ps[1..]) + behind;
      assert SinglesText(ps) + behind == SingleText(ps[0]) + more;
      SingleReads(ps[0], more, current);
      SinglesRead(ps[1..], behind, current + SingleBytes([ps[0]]));
      assert (current + SingleBytes([ps[0]])) + SingleBytes(ps[1..]) == current + SingleBytes(ps);
    }
  }

  lemma SingleReads(p: Single, behind: Text, current: Text)
    requires p != Itself(APOSTROPHE) && (p == Itself(BACKSLASH) ==> !Starts(behind, APOSTROPHE))
    ensures Parse(SingleText(p) + behind, SingleQuoted, current)
         == Parse(behind, SingleQuoted, current + SingleBytes([p]))
  {
    var s := SingleText(p) + behind;
    assert s[|SingleText(p)|..] == behind;
    assert [p][1..] == [] && SingleBytes([p]) == [if p.Apostrophe? then APOSTROPHE else p.b];
    if p.Itself? && behind != [] {
      assert s[1] == behind[0];
    }
  }

  lemma {:induction false} PlainReads(w: Text, behind: Text, current: Text)
    requires PlainOk(w)
    ensures Parse(w + behind, Plain, current) == Parse(behind, Plain, current + w)
  {
    if w == [] {
      assert [] + behind == behind && current + [] == current;
    } else {
      assert w[0] in w && forall b | b in w[1..] :: b in w;
      assert (w + behind)[1..] == w[1..] + behind;
      PlainReads(w[1..], behind, current + [w[0]]);
      assert (current + [w[0]]) + w[1..] == current + w;
    }
  }

  // ------------------------------------------------------------- reading a row

  /** The quoted part of a token, up to where its closing quote is due. */
  lemma TailReads(t: Tail, behind: Text, current: Text)
    requires t != Bare && TailOk(t, behind)
    ensures Parse(TailText(t) + behind, Plain, current)
         == Parse(behind, if t.Double? then Quoted else SingleQuoted, current + TailBytes(t))
  {
    hide Parse, PiecesOk, SinglesOk, PiecesText, SinglesText, PieceBytes, SingleBytes;
    var s := TailText(t) + behind;
    Enters(s, current);
    match t
    case Double(ps) =>
      assert s[0] == QUOTE && s[1..] == PiecesText(ps) + behind;
      PiecesRead(ps, behind, current);
    case Quotes(ps) =>
      assert s[0] == APOSTROPHE && s[1..] == SinglesText(ps) + behind;
      SinglesRead(ps, behind, current);
  }

  /** A quote opens a quoted part. */
  lemma Enters(s: Text, current: Text)
    ensures s != [] && s[0] == QUOTE ==> Parse(s, Plain, current) == Parse(s[1..], Quoted, current)
    ensures s != [] && s[0] == APOSTROPHE ==> Parse(s, Plain, current) == Parse(s[1..], SingleQuoted, current)
  {
  }

  lemma {:induction false} PiecesOkBefore(ps: seq<Piece>, rest: Text)
    requires PiecesOk(ps, [QUOTE])
    ensures PiecesOk(ps, [QUOTE] + rest)
  {
    if ps != [] {
      PiecesOkBefore(ps[1..], rest);
      var a, b := PiecesText(ps[1..]) + [QUOTE], PiecesText(ps[1..]) + ([QUOTE] + rest);
      assert b == a + rest;
      if |a| == 1 { assert b[0] == QUOTE; } else { assert b[0] == a[0] && b[1] == a[1]; }
    }
  }

  lemma {:induction false} SinglesOkBefore(ps: seq<Single>, rest: Text)
    requires SinglesOk(ps, [APOSTROPHE])
    ensures SinglesOk(ps, [APOSTROPHE] + rest)
  {
    if ps != [] {
      SinglesOkBefore(ps[1..], rest);
      var a, b := SinglesText(ps[1..]) + [APOSTROPHE], SinglesText(ps[1..]) + ([APOSTROPHE] + rest);
      assert b == a + rest && b[0] == a[0];
    }
  }

  lemma TailOkBefore(t: Tail, rest: Text)
    requires TailOk(t, Closing(t))
    ensures TailOk(t, Closing(t) + rest)
  {
    match t
    case Bare =>
    case Double(ps) => PiecesOkBefore(ps, rest);
    case Quotes(ps) => SinglesOkBefore(ps, rest);
  }

  /** A token and what stands behind it. */
  lemma FormReads(f: Form, rest: Text)
    requires FormOk(f) && (f.tail == Bare ==> Separates(Bare, rest))
    ensures Parse(FormText(f) + rest, Plain, []) ==
      if Separates(f.tail, rest)
      then Token(f.word + TailBytes(f.tail), if f.tail == Bare && rest != [] then rest[1..] else rest)
      else Failed
  {
    hide PlainOk, TailText, TailBytes, TailOk, IsSpace;
    var w, t := f.word, f.tail;
    var behind := Closing(t) + rest;
    assert FormText(f) + rest == w + (TailText(t) + behind);
    PlainReads(w, TailText(t) + behind, []);
    assert [] + w == w;
    if t == Bare {
      NoTail();
      assert [] + behind == behind && behind == rest && w + [] == w;
    } else {
      TailOkBefore(t, rest);
      TailReads(t, behind, w);
      assert behind[1..] == rest && (rest != [] ==> behind[1] == rest[0]);
    }
  }

  lemma NoTail()
    ensures TailText(Bare) == [] && TailBytes(Bare) == []
  {
  }

  lemma {:induction false} BlanksSkip(blanks: Text, s: Text)
    requires AllBlank(blanks)
    ensures SkipBlanks(blanks + s) == SkipBlanks(s)
  {
    hide IsSpace;
    if blanks == [] {
      assert [] + s == s;
    } else {
      assert blanks[0] in blanks && forall b | b in blanks[1..] :: b in blanks;
      assert (blanks + s)[1..] == blanks[1..] + s;
      BlanksSkip(blanks[1..], s);
    }
  }

  /** Blanks before the first token do not matter. */
  lemma SplitSkips(s: Text, s': Text)
    requires SkipBlanks(s) == SkipBlanks(s')
    ensures Split(s) == Split(s')
  {
    hide Parse;
  }

  /** A token's text starts with something that is no blank. */
  lemma FormStarts(f: Form, last: Text)
    requires f.word != [] ==> !IsSpace(f.word[0])
    requires f.word == [] ==> f.tail != Bare
    ensures var s := f.word + TailText(f.tail) + last; s != [] && !IsSpace(s[0]) && SkipBlanks(s) == s
  {
    var s := f.word + TailText(f.tail) + last;
    if f.word != [] {
      assert s[0] == f.word[0];
    } else {
      assert s[0] == TailText(f.tail)[0];
    }
  }

  /** The parser reads a written line. */
  lemma {:induction false} SplitReads(r: Row)
    requires RowOk(r)
    ensures Split(RowText(r)) == Tokens(r)
    decreases r
  {
    hide Parse, FormOk, Split, IsSpace, TailText, TailBytes;
    match r
    case End(blanks) =>
      BlanksSkip(blanks, []);
      assert blanks + [] == blanks;
      SplitSkips(blanks, []);
      SplitNothing();
    case Word(blanks, f, next) =>
      var rest := RowText(next);
      assert RowText(r) == blanks + (FormText(f) + rest);
      BlanksSkip(blanks, FormText(f) + rest);
      SplitSkips(RowText(r), FormText(f) + rest);
      SplitReads(next);
      SplitForm(f, rest);
    case Open(blanks, f, last) =>
      var s := f.word + TailText(f.tail) + last;
      assert RowText(r) == blanks + s;
      BlanksSkip(blanks, s);
      SplitSkips(RowText(r), s);
      SplitOpen(f, last);
    case Stuck(blanks, f, rest) =>
      assert RowText(r) == blanks + (FormText(f) + rest);
      BlanksSkip(blanks, FormText(f) + rest);
      SplitSkips(RowText(r), FormText(f) + rest);
      SplitForm(f, rest);
  }

  lemma SplitForm(f: Form, rest: Text)
    requires FormOk(f) && (f.tail == Bare ==> Separates(Bare, rest))
    ensures Split(FormText(f) + rest) ==
      if Separates(f.tail, rest) then Before([f.word + TailBytes(f.tail)], Split(rest)) else None
  {
    hide Parse, TailOk, PlainOk, TailText, TailBytes;
    var s := FormText(f) + rest;
    FormReads(f, rest);
    assert s == f.word + TailText(f.tail) + (Closing(f.tail) + rest);
    FormStarts(f, Closing(f.tail) + rest);
    ParseShrinks(s, Plain, []);
    if f.tail == Bare && rest != [] && Separates(Bare, rest) {
      assert SkipBlanks(rest) == SkipBlanks(rest[1..]);
      SplitSkips(rest, rest[1..]);
    }
  }

  lemma SplitOpen(f: Form, last: Text)
    requires PlainOk(f.word) && f.tail != Bare && TailOk(f.tail, last) && (f.word != [] ==> !IsSpace(f.word[0]))
    requires last == [] || (last == [BACKSLASH] && f.tail.Double?)
    ensures Split(f.word + TailText(f.tail) + last) == None
  {
    hide TailOk, PlainOk, TailText, TailBytes;
    var s := f.word + TailText(f.tail) + last;
    FormStarts(f, last);
    assert s == f.word + (TailText(f.tail) + last);
    PlainReads(f.word, TailText(f.tail) + last, []);
    assert [] + f.word == f.word;
    TailReads(f.tail, last, f.word);
    ParseNothing(f.tail, last, f.word + TailBytes(f.tail));
  }

  lemma ParseNothing(t: Tail, last: Text, current: Text)
    requires t != Bare && (last == [] || (last == [BACKSLASH] && t.Double?))
    ensures Parse(last, if t.Double? then Quoted else SingleQuoted, current) == Failed
  {
    if last != [] {
      assert last[1..] == [];
      assert Parse([], Quoted, current + [last[0]]) == Failed;
    }
  }

  // --------------------------------------------------------- every line is a row

  /** The text in double quotes that a line goes on with: its pieces, and what stands behind
      them, which is a closing quote, nothing, or a last backslash. */
  lemma {:induction false} WritePieces(s: Text) returns (ps: seq<Piece>, behind: Text)
    ensures s == PiecesText(ps) + behind && PiecesOk(ps, behind)
    ensures behind == [] || behind == [BACKSLASH] || behind[0] == QUOTE
    decreases |s|
  {
    hide PieceText, TwoDigits, PiecesOk, PiecesText;
    if s == [] || s == [BACKSLASH] || s[0] == QUOTE {
      NoPieces(s);
      ps, behind := [], s;
      assert [] + s == s;
    } else {
      var p, more := WritePiece(s);
      ps, behind := WritePieces(more);
      PieceInFront(p, ps, behind);
      ps := [p] + ps;
    }
  }

  lemma NoPieces(s: Text)
    ensures PiecesOk([], s) && PiecesText([]) == []
  {
  }

  lemma PieceInFront(p: Piece, ps: seq<Piece>, behind: Text)
    requires PiecesOk(ps, behind)
    requires (p.Raw? ==> p.b != QUOTE && p.b != BACKSLASH) && (p == Slash(120) ==> !TwoDigits(PiecesText(ps) + behind))
    ensures PiecesOk([p] + ps, behind)
    ensures PiecesText([p] + ps) + behind == PieceText(p) + (PiecesText(ps) + behind)
  {
    hide PieceText, TwoDigits;
    var all := [p] + ps;
    assert all[1..] == ps && all[0] == p;
    assert (PieceText(p) + PiecesText(ps)) + behind == PieceText(p) + (PiecesText(ps) + behind);
  }

  lemma WritePiece(s: Text) returns (p: Piece, more: Text)
    requires s != [] && s != [BACKSLASH] && s[0] != QUOTE
    ensures s == PieceText(p) + more && |more| < |s|
    ensures (p.Raw? ==> p.b != QUOTE && p.b != BACKSLASH) && (p == Slash(120) ==> !TwoDigits(more))
  {
    hide IsHexDigit, HexDigitToInt, Digit;
    if s[0] != BACKSLASH {
      p, more := Raw(s[0]), s[1..];
    } else if HexEscape(s) {
      DigitsAre(s[2]);
      DigitsAre(s[3]);
      var u1 :| Digit(HexDigitToInt(s[2]), u1) == s[2];
      var u2 :| Digit(HexDigitToInt(s[3]), u2) == s[3];
      var b := HexDigitToInt(s[2]) * 16 + HexDigitToInt(s[3]);
      p, more := Hex(b, u1, u2), s[4..];
      assert s == [s[0], s[1], s[2], s[3]] + s[4..];
    } else {
      p, more := Slash(s[1]), s[2..];
      assert s == [s[0], s[1]] + s[2..];
      if s[1] == 120 && TwoDigits(more) {
        DigitsAre(s[2]);
        DigitsAre(s[3]);
      }
    }
  }

  lemma {:induction false} WriteSingles(s: Text) returns (ps: seq<Single>, behind: Text)
    ensures s == SinglesText(ps) + behind && SinglesOk(ps, behind)
    ensures behind == [] || behind[0] == APOSTROPHE
    decreases |s|
  {
    if s == [] || s[0] == APOSTROPHE {
      ps, behind := [], s;
      assert [] + s == s;
    } else {
      var p, more;
      if s[0] == BACKSLASH && |s| >= 2 && s[1] == APOSTROPHE {
        p, more := Apostrophe, s[2..];
      } else {
        p, more := Itself(s[0]), s[1..];
      }
      assert s == SingleText(p) + more;
      ps, behind := WriteSingles(more);
      var all := [p] + ps;
      assert all[1..] == ps && SinglesText(all) == SingleText(p) + SinglesText(ps);
      assert s == SinglesText(all) + behind;
      ps := all;
    }
  }

  lemma {:induction false} WritePlain(s: Text) returns (w: Text, behind: Text)
    ensures s == w + behind && PlainOk(w)
    ensures behind == [] || IsEnd(behind[0]) || behind[0] == QUOTE || behind[0] == APOSTROPHE
  {
    if s == [] || IsEnd(s[0]) || s[0] == QUOTE || s[0] == APOSTROPHE {
      w, behind := [], s;
    } else {
      w, behind := WritePlain(s[1..]);
      w := [s[0]] + w;
    }
  }

  lemma {:induction false} WriteBlanks(s: Text) returns (blanks: Text, behind: Text)
    ensures s == blanks + behind && AllBlank(blanks) && (behind != [] ==> !IsSpace(behind[0]))
  {
    hide IsSpace;
    if s == [] || !IsSpace(s[0]) {
      blanks, behind := [], s;
    } else {
      blanks, behind := WriteBlanks(s[1..]);
      blanks := [s[0]] + blanks;
    }
  }

  /** A token that starts here: closed or plain, or open. */
  lemma WriteForm(s: Text) returns (f: Form, open: bool, behind: Text)
    requires s != [] && !IsSpace(s[0])
    ensures PlainOk(f.word) && (f.word != [] ==> !IsSpace(f.word[0]))
    ensures !open ==> FormOk(f) && s == FormText(f) + behind && |behind| < |s|
    ensures !open && f.tail == Bare ==> Separates(Bare, behind)
    ensures open ==> s == f.word + TailText(f.tail) + behind && f.tail != Bare && TailOk(f.tail, behind)
    ensures open ==> behind == [] || (behind == [BACKSLASH] && f.tail.Double?)
  {
    hide PlainOk, PiecesOk, SinglesOk, PiecesText, SinglesText, IsSpace;
    var w, more := WritePlain(s);
    assert w != [] ==> w[0] == s[0];
    if more == [] || IsEnd(more[0]) {
      f, open, behind := Form(w, Bare), false, more;
      EndIsSpace();
      assert w == [] ==> more == s;
      assert w + [] + [] == w && FormText(f) == w;
    } else {
      var t;
      t, open, behind := WriteTail(more);
      f := Form(w, t);
      assert open ==> s == w + TailText(t) + behind;
      assert !open ==> s == FormText(f) + behind;
    }
  }

  lemma EndIsSpace()
    ensures forall b | IsEnd(b) :: IsSpace(b)
  {
  }

  /** A quoted part that starts here: closed, or open. */
  lemma WriteTail(s: Text) returns (t: Tail, open: bool, behind: Text)
    requires s != [] && (s[0] == QUOTE || s[0] == APOSTROPHE)
    ensures t != Bare && TailOk(t, if open then behind else Closing(t))
    ensures s == TailText(t) + (if open then [] else Closing(t)) + behind
    ensures !open ==> |behind| < |s|
    ensures open ==> behind == [] || (behind == [BACKSLASH] && t.Double?)
  {
    hide PiecesOk, SinglesOk, PiecesText, SinglesText;
    if s[0] == QUOTE {
      var ps, rest := WritePieces(s[1..]);
      t, open := Double(ps), rest == [] || rest == [BACKSLASH];
      behind := if open then rest else rest[1..];
      assert s == TailText(t) + rest;
      if !open { PiecesOkCut(ps, rest); }
      assert rest == (if open then [] else [QUOTE]) + behind;
    } else {
      var ps, rest := WriteSingles(s[1..]);
      t, open := Quotes(ps), rest == [];
      behind := if open then rest else rest[1..];
      assert s == TailText(t) + rest;
      if !open { SinglesOkCut(ps, rest); }
      assert rest == (if open then [] else [APOSTROPHE]) + behind;
    }
  }

  lemma {:induction false} PiecesOkCut(ps: seq<Piece>, rest: Text)
    requires PiecesOk(ps, rest) && rest != [] && rest[0] == QUOTE
    ensures PiecesOk(ps, [QUOTE])
  {
    if ps != [] {
      PiecesOkCut(ps[1..], rest);
      var a, b := PiecesText(ps[1..]) + [QUOTE], PiecesText(ps[1..]) + rest;
      assert b[..|a|] == a;
      if |a| >= 2 { assert b[0] == a[0] && b[1] == a[1]; }
    }
  }

  lemma {:induction false} SinglesOkCut(ps: seq<Single>, rest: Text)
    requires SinglesOk(ps, rest) && rest != [] && rest[0] == APOSTROPHE
    ensures SinglesOk(ps, [APOSTROPHE])
  {
    if ps != [] {
      SinglesOkCut(ps[1..], rest);
      var a, b := SinglesText(ps[1..]) + [APOSTROPHE], SinglesText(ps[1..]) + rest;
      assert b[0] == a[0];
    }
  }

  /** Every line is a row. */
  lemma {:induction false} EveryLineIsARow(s: Text) returns (r: Row)
    ensures RowOk(r) && RowText(r) == s
    decreases |s|
  {
    hide FormOk, PlainOk, TailOk, FormText, TailText, IsSpace;
    var blanks, more := WriteBlanks(s);
    if more == [] {
      r := End(blanks);
      assert blanks + [] == blanks;
    } else {
      var f, open, behind := WriteForm(more);
      if open {
        r := Open(blanks, f, behind);
        assert blanks + (f.word + TailText(f.tail) + behind) == blanks + f.word + TailText(f.tail) + behind;
      } else if Separates(f.tail, behind) {
        var next := EveryLineIsARow(behind);
        r := Word(blanks, f, next);
        assert blanks + (FormText(f) + behind) == blanks + FormText(f) + behind;
      } else {
        r := Stuck(blanks, f, behind);
        assert blanks + (FormText(f) + behind) == blanks + FormText(f) + behind;
      }
    }
  }

  /** The parser fails on a line exactly when the line goes wrong at a quote: a quoted part
      is not closed, or its closing quote is followed by something that is not a blank.
      Every other line is a row of tokens, and these are the ones the parser gives. */
  lemma SplitExactly(s: Text)
    ensures Split(s) == None <==> exists r :: RowOk(r) && RowText(r) == s && Tokens(r) == None
    ensures forall r | RowOk(r) && RowText(r) == s :: Tokens(r) == Split(s)
    ensures exists r :: RowOk(r) && RowText(r) == s
  {
    hide RowOk, RowText, Tokens, Split;
    var r0 := EveryLineIsARow(s);
    forall r | RowOk(r) && RowText(r) == s ensures Tokens(r) == Split(s) {
      SplitReads(r);
    }
  }

  // ----------------------------------------------------------------- printing

  lemma BlanksAre(b: Byte)
    ensures IsSpace(b) <==> b in [9, 10, 11, 12, 13, 32]
    ensures IsEnd(b) <==> b in [9, 10, 13, 32]
  {
  }

  /** A quoted form is printable, whatever the string holds. */
  lemma {:induction false} ReprIsPrintable(p: Text)
    ensures forall b | b in Escaped(p) :: 0x20 <= b <= 0x7E
    ensures forall b | b in Repr(p) :: 0x20 <= b <= 0x7E
  {
    hide Escape;
    if p != [] {
      ReprIsPrintable(p[1..]);
      EscapeIsPrintable(p[0]);
    }
  }

  lemma EscapeIsPrintable(b: Byte)
    ensures forall x | x in Escape(b) :: 0x20 <= x <= 0x7E
  {
  }

  predicate Shown(b: Byte) {
    0x20 <= b <= 0x7E && b != QUOTE && b != BACKSLASH
  }

  /** Printable bytes other than the quote and the backslash are printed as themselves, and
      only these. */
  lemma {:induction false} PlainPrintsItself(p: Text)
    ensures Escaped(p) == p <==> forall b | b in p :: Shown(b)
    ensures |Escaped(p)| >= |p|
  {
    hide Escape, Shown;
    if p != [] {
      EscapeOfOne(p[0]);
      PlainPrintsItself(p[1..]);
      var e, rest := Escape(p[0]), Escaped(p[1..]);
      assert forall b | b in p :: b == p[0] || b in p[1..];
      assert forall b | b in p[1..] :: b in p;
      assert p[0] in p && Escaped(p) == e + rest;
      if Shown(p[0]) {
        assert (e + rest)[1..] == rest && (e + rest)[0] == p[0];
        assert rest == p[1..] ==> e + rest == [p[0]] + p[1..] == p;
      } else {
        assert |e + rest| > |p|;
      }
    }
  }

  lemma EscapeOfOne(b: Byte)
    ensures |Escape(b)| >= 1
    ensures Escape(b) == [b] <==> Shown(b)
    ensures |Escape(b)| == 1 ==> Escape(b) == [b]
  {
  }
}
