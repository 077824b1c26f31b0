/**
 Whole documents.  A document is printed as the events that a YAML parser makes of it, and
 loading these events does to the tree what the document says, however it is nested and
 however it is spread over files.
 */
module YamlDocs {
  import opened Options
  import opened ConfigTree
  import opened ConfigLaws
  import opened YamlSpec

  /** A text, a sequence, a mapping, or the document of another file. */
  datatype Doc =
    | Text(value: string)
    | Items(items: seq<Doc>)
    | Fields(fields: seq<Field>)
    | File(name: string, doc: Doc)

  /** An entry of a mapping; `include: name` puts a file's entries in its place. */
  datatype Field =
    | Field(key: string, doc: Doc)
    | Include(name: string, doc: Doc)

  // ---------------------------------------------------------------- printing

  function Plain(s: string): Event {
    Scalar(s, None, Missing)
  }

  function Print(doc: Doc): seq<Event>
    decreases doc, 0
  {
    match doc
    case Text(v) => [Plain(v)]
    case Items(items) => [SequenceStart] + PrintItems(items) + [SequenceEnd]
    case Fields(fields) => [MappingStart] + PrintFields(fields) + [MappingEnd]
    case File(name, d) => [Scalar(name, Some("!include"), Opened(Stream(d)))]
  }

  function PrintItems(items: seq<Doc>): seq<Event>
    decreases items
  {
    if items == [] then [] else Print(items[0]) + PrintItems(items[1..])
  }

  function PrintFields(fields: seq<Field>): seq<Event>
    decreases fields
  {
    if fields == [] then []
    else
      (match fields[0]
       case Field(key, d) => [Plain(key)] + Print(d)
       case Include(name, d) => [Plain("include"), Scalar(name, None, Opened(Stream(d)))])
      + PrintFields(fields[1..])
  }

  /** A file of one document. */
  function Stream(doc: Doc): seq<Event>
    decreases doc, 1
  {
    [StreamStart, DocumentStart(Some((1, 1)))] + Print(doc) + [DocumentEnd, StreamEnd]
  }

  // ------------------------------------------------------- documents that are meant

  predicate Collection(doc: Doc) {
    doc.Items? || doc.Fields?
  }

  /** Keys are neither empty nor the word that includes, a file holds a collection, and an
      item of a sequence is not a file. */
  predicate Written(doc: Doc)
    decreases doc
  {
    match doc
    case Text(_) => true
    case Items(items) => forall d | d in items :: !d.File? && Written(d)
    case Fields(fields) => forall x | x in fields :: FieldWritten(x)
    case File(_, d) => Collection(d) && Written(d)
  }

  predicate FieldWritten(x: Field)
    decreases x
  {
    match x
    case Field(key, d) => key != "" && key != "include" && Written(d)
    case Include(_, d) => Collection(d) && Written(d)
  }

  /** Collections are nested at most `room` deep, in every file by itself 128. */
  predicate Fits(doc: Doc, room: nat)
    decreases doc
  {
    match doc
    case Text(_) => true
    case Items(items) => room > 0 && forall d | d in items :: Fits(d, room - 1)
    case Fields(fields) => room > 0 && forall x | x in fields :: FieldFits(x, room - 1)
    case File(_, d) => Fits(d, RECURSION_LIMIT)
  }

  predicate FieldFits(x: Field, room: nat)
    decreases x
  {
    match x
    case Field(_, d) => Fits(d, room)
    case Include(_, d) => Fits(d, RECURSION_LIMIT)
  }

  // ------------------------------------------------------ what a document does

  /** The child that a key stands for, before its value: what is there without what the key
      overrides, or a new node. */
  function Base(n: Node, key: string): Node {
    var c := Lookup(n.children, key);
    if c.None? then NewNode(key, false) else if c.value.final then c.value else Prune(c.value)
  }

  lemma BaseName(n: Node, key: string)
    ensures Base(n, key).name == key
  {
    LookupFacts(n.children, key);
  }

  /** A child in its place.  A sequence item takes its first key for its value. */
  function PutChild(n: Node, c: Node): Node {
    n.(val := if n.isSeq && n.val.None? then Some(c.name) else n.val,
       children := if Lookup(n.children, c.name).None? then n.children + [c] else Replace(n.children, c.name, c))
  }

  /** The node after a document was read for it. */
  function Fill(n: Node, doc: Doc): (r: Node)
    ensures r.name == n.name
    decreases doc, 0
  {
    match doc
    case Text(v) => if n.final then n else n.(val := Some(v))
    case Items(items) => FillItems(n, items, 0).(isSeq := true)
    case Fields(fields) => FillFields(n, fields)
    case File(_, d) => Fill(n, d)
  }

  function FillFields(n: Node, fields: seq<Field>): (r: Node)
    ensures r.name == n.name
    decreases fields
  {
    if fields == [] then n else FillFields(FillField(n, fields[0]), fields[1..])
  }

  function FillField(n: Node, x: Field): (r: Node)
    ensures r.name == n.name
    decreases x
  {
    match x
    case Field(key, d) => PutChild(n, Fill(Base(n, key), d))
    case Include(_, d) => Fill(n, d)
  }

  /** The items from number `i` on.  An empty text is no item, and a sequence in a sequence
      begins with number 0 again. */
  function FillItems(n: Node, items: seq<Doc>, i: nat): (r: Node)
    ensures r.name == n.name
    decreases items
  {
    if items == [] then n
    else
      var (n', i') := FillItem(n, items[0], i);
      FillItems(n', items[1..], i')
  }

  function FillItem(n: Node, d: Doc, i: nat): (r: (Node, nat))
    ensures r.0.name == n.name
    decreases d, 1
  {
    var name := Decimal(i);
    match d
    case Text(v) => if v == "" then (n, i) else (MoveToEnd(n, ChildOr(n, Node(name, Some(v), false, false, []))), i + 1)
    case Fields(fields) => (MoveToEnd(n, FillFields(ChildOr(n, NewNode(name, false)).(isSeq := true), fields)), i + 1)
    case Items(_) => (Fill(n, d), i)
    case File(_, _) => (n, i)
  }

  // --------------------------------------------------------------- single events

  lemma LoopStep(e: Event, rest: seq<Event>, f: Frame, inseq: bool, rlevel: nat)
    requires !Ends(e) && !e.SequenceStart? && !e.MappingStart? && !Includes(f, e, inseq) && Simple(f, e, inseq).Some?
    ensures Loop([e] + rest, f, inseq, rlevel) == Loop(rest, Simple(f, e, inseq).value, inseq, rlevel)
  {
    hide Simple, Includes;
    assert ([e] + rest)[1..] == rest;
  }

  lemma LoopEnd(e: Event, rest: seq<Event>, f: Frame, inseq: bool, rlevel: nat)
    requires Ends(e)
    ensures Loop([e] + rest, f, inseq, rlevel) == Outcome(true, f.parent, rest)
  {
    assert ([e] + rest)[1..] == rest;
  }

  lemma {:induction false} ReplaceTwice(cs: seq<Node>, c: Node, c': Node)
    requires c.name == c'.name
    ensures Replace(Replace(cs, c.name, c), c.name, c') == Replace(cs, c.name, c')
  {
    if cs != [] && cs[0].name != c.name {
      ReplaceTwice(cs[1..], c, c');
    } else if cs != [] {
      assert ([c] + cs[1..])[1..] == cs[1..];
    }
  }

  lemma {:induction false} ReplaceLast(cs: seq<Node>, c: Node, c': Node)
    requires c.name == c'.name && Lookup(cs, c.name).None?
    ensures Replace(cs + [c], c.name, c') == cs + [c']
  {
    if cs != [] {
      ReplaceLast(cs[1..], c, c');
      assert (cs + [c])[1..] == cs[1..] + [c];
    }
  }

  /** A key, and then a value for the child it stands for. */
  lemma KeyThenValue(f: Frame, key: string, c: Node)
    requires Unique(f.parent) && c.name == key
    ensures var f' := KeyScalar(f, key);
      && FrameOk(f') && Current(f') == Base(f.parent, key)
      && WithCurrent(f', c).parent == PutChild(f.parent, c)
  {
    hide Unique, Prune;
    KeyKept(f, key);
    var cs := f.parent.children;
    var was := Lookup(cs, key);
    LookupFacts(cs, key);
    if was.None? {
      LookupAppend(cs, NewNode(key, false), key);
      ReplaceLast(cs, NewNode(key, false), c);
    } else if !was.value.final {
      PruneFields(was.value);
      LookupReplace(cs, key, Prune(was.value), key);
      ReplaceTwice(cs, Prune(was.value), c);
    }
  }

  // ----------------------------------------------------------------- collections

  /** What a loop over a value and the rest comes to. */
  ghost predicate ReadsAs(r: Outcome, fits: bool, goal: Outcome) {
    if fits then r == goal else !r.ok
  }

  /** The event that starts a collection, with what is nested in it, outside of a sequence. */
  lemma CollectionRead(doc: Doc, rest: seq<Event>, f: Frame, room: nat)
    requires Collection(doc) && Written(doc) && FrameOk(f) && room <= RECURSION_LIMIT
    ensures ReadsAs(Loop(Print(doc) + rest, f, false, 129 - room), Fits(doc, room),
                    Loop(rest, WithCurrent(f, Fill(Current(f), doc)).(state := Key), false, 129 - room))
    decreases doc, 2
  {
    hide Loop, Fill, FillItems, FillFields, PrintItems, PrintFields, WithCurrent, Current;
    CurrentUnique(f);
    var c := Current(f);
    var f' := Frame(c, None, Key, 0);
    match doc
    case Items(items) =>
      var more := PrintItems(items) + [SequenceEnd] + rest;
      assert Print(doc) + rest == [SequenceStart] + more;
      if room > 0 { ItemsRead(items, rest, f', room - 1); }
      SequenceStarts(more, f, room, c);
      FillIsItems(c, items);
    case Fields(fields) =>
      var more := PrintFields(fields) + [MappingEnd] + rest;
      assert Print(doc) + rest == [MappingStart] + more;
      if room > 0 { FieldsRead(fields, rest, f', room - 1); }
      MappingStarts(more, f, room, c);
      FillIsFields(c, fields);
  }

  lemma FillIsItems(n: Node, items: seq<Doc>)
    ensures Fill(n, Items(items)) == FillItems(n, items, 0).(isSeq := true)
  {
  }

  lemma FillIsFields(n: Node, fields: seq<Field>)
    ensures Fill(n, Fields(fields)) == FillFields(n, fields)
  {
  }

  lemma SequenceStarts(more: seq<Event>, f: Frame, room: nat, c: Node)
    requires c == Current(f) && room <= RECURSION_LIMIT
    ensures var l := Loop([SequenceStart] + more, f, false, 129 - room);
      if room == 0 then !l.ok
      else
        var r := Loop(more, Frame(c, None, Key, 0), true, 130 - room);
        if !r.ok then !l.ok
        else l == Loop(r.rest, WithCurrent(f, r.parent.(isSeq := true)).(state := Key), false, 129 - room)
  {
    hide WithCurrent, Current;
    assert ([SequenceStart] + more)[1..] == more;
  }

  lemma MappingStarts(more: seq<Event>, f: Frame, room: nat, c: Node)
    requires c == Current(f) && room <= RECURSION_LIMIT
    ensures var l := Loop([MappingStart] + more, f, false, 129 - room);
      if room == 0 then !l.ok
      else
        var r := Loop(more, Frame(c, None, Key, 0), false, 130 - room);
        if !r.ok then !l.ok
        else l == Loop(r.rest, WithCurrent(f, r.parent).(state := Key), false, 129 - room)
  {
    hide WithCurrent, Current;
    assert ([MappingStart] + more)[1..] == more;
  }

  // ---------------------------------------------------------------- mappings

  /** The value of a key. */
  lemma ValueRead(doc: Doc, rest: seq<Event>, f: Frame, room: nat)
    requires Written(doc) && FrameOk(f) && f.state == Val && f.node.Some? && room <= RECURSION_LIMIT
    ensures ReadsAs(Loop(Print(doc) + rest, f, false, 129 - room), Fits(doc, room),
                    Loop(rest, WithCurrent(f, Fill(Current(f), doc)).(state := Key), false, 129 - room))
    decreases doc, 3
  {
    hide Loop, Unique;
    match doc
    case Text(v) =>
      LoopStep(Plain(v), rest, f, false, 129 - room);
      SameCurrent(f);
    case File(name, d) =>
      CurrentUnique(f);
      StreamRead(d, Current(f));
      IncludeRead(Scalar(name, Some("!include"), Opened(Stream(d))), rest, f, 129 - room);
    case _ =>
      CollectionRead(doc, rest, f, room);
  }

  /** Putting the current node back changes nothing. */
  lemma SameCurrent(f: Frame)
    requires FrameOk(f)
    ensures WithCurrent(f, Current(f)) == f
  {
    if f.node.Some? {
      ReplaceSame(f.parent.children, f.node.value);
    }
  }

  lemma {:induction false} ReplaceSame(cs: seq<Node>, key: string)
    requires Lookup(cs, key).Some?
    ensures Replace(cs, key, Lookup(cs, key).value) == cs
  {
    if cs[0].name != key {
      ReplaceSame(cs[1..], key);
    }
  }

  lemma IncludeRead(e: Event, rest: seq<Event>, f: Frame, rlevel: nat)
    requires e.Scalar? && e.file.Opened? && Includes(f, e, false)
    ensures var r := Parse(e.file.events, Current(Target(f)), false, 0);
      var l := Loop([e] + rest, f, false, rlevel);
      if !r.ok then !l.ok else l == Loop(rest, Included(f, r.parent), false, rlevel)
  {
    hide Included, Target, Current, Parse;
    assert ([e] + rest)[1..] == rest;
  }

  lemma FieldsRead(fields: seq<Field>, rest: seq<Event>, f: Frame, room: nat)
    requires forall x | x in fields :: FieldWritten(x)
    requires Unique(f.parent) && f.state == Key && room <= RECURSION_LIMIT
    ensures ReadsAs(Loop(PrintFields(fields) + [MappingEnd] + rest, f, false, 129 - room),
                    forall x | x in fields :: FieldFits(x, room), Outcome(true, FillFields(f.parent, fields), rest))
    decreases fields, 0
  {
    hide Loop, Unique, Print, FillField, FieldWritten, FieldFits;
    var tail := [MappingEnd] + rest;
    if fields == [] {
      assert PrintFields(fields) + [MappingEnd] + rest == tail;
      LoopEnd(MappingEnd, rest, f, false, 129 - room);
    } else {
      var x := fields[0];
      assert x in fields && forall y | y in fields[1..] :: y in fields;
      var more := PrintFields(fields[1..]) + [MappingEnd] + rest;
      FieldFollows(fields, rest);
      FieldRead(x, more, f, room);
      if FieldFits(x, room) {
        var f' :|
          AfterField(f, x, f')
          && Loop(PrintField(x) + more, f, false, 129 - room) == Loop(more, f', false, 129 - room);
        FieldsRead(fields[1..], rest, f', room);
        assert fields == [x] + fields[1..];
      }
    }
  }

  function PrintField(x: Field): seq<Event> {
    match x
    case Field(key, d) => [Plain(key)] + Print(d)
    case Include(name, d) => [Plain("include"), Scalar(name, None, Opened(Stream(d)))]
  }

  lemma FieldFollows(fields: seq<Field>, rest: seq<Event>)
    requires fields != []
    ensures PrintFields(fields) + [MappingEnd] + rest
         == PrintField(fields[0]) + (PrintFields(fields[1..]) + [MappingEnd] + rest)
  {
    hide Print;
  }

  ghost predicate AfterField(f: Frame, x: Field, f': Frame) {
    f'.state == Key && f'.parent == FillField(f.parent, x) && Unique(f'.parent)
  }

  /** One entry of a mapping. */
  lemma FieldRead(x: Field, rest: seq<Event>, f: Frame, room: nat)
    requires FieldWritten(x) && Unique(f.parent) && f.state == Key && room <= RECURSION_LIMIT
    ensures var l := Loop(PrintField(x) + rest, f, false, 129 - room);
      if FieldFits(x, room) then exists f' :: AfterField(f, x, f') && l == Loop(rest, f', false, 129 - room)
      else !l.ok
    decreases x, 0
  {
    hide Loop, Unique, Print, Fill, Written, Fits, KeyScalar, WithCurrent, Current, Stream;
    match x
    case Field(key, d) =>
      assert PrintField(x) + rest == [Plain(key)] + (Print(d) + rest);
      KeyRead(key, Print(d) + rest, f, 129 - room);
      BaseName(f.parent, key);
      var f1, c := KeyScalar(f, key), Fill(Base(f.parent, key), d);
      KeyThenValue(f, key, c);
      ValueRead(d, rest, f1, room);
      if Fits(d, room) {
        ValueKept(d, f1, room);
        assert AfterField(f, x, WithCurrent(f1, c).(state := Key));
      }
    case Include(name, d) =>
      FileRead(name, d, rest, f, 129 - room);
      if Fits(d, RECURSION_LIMIT) {
        StreamKept(d, f.parent);
        KeptUnique(f.parent, Fill(f.parent, d));
        assert AfterField(f, x, f.(parent := Fill(f.parent, d)));
      }
  }

  lemma KeyRead(key: string, rest: seq<Event>, f: Frame, rlevel: nat)
    requires f.state == Key && key != "" && key != "include"
    ensures Loop([Plain(key)] + rest, f, false, rlevel) == Loop(rest, KeyScalar(f, key), false, rlevel)
    ensures KeyScalar(f, key).state == Val && KeyScalar(f, key).node == Some(key)
  {
    hide Loop;
    LoopStep(Plain(key), rest, f, false, rlevel);
  }

  /** The entry that includes a file. */
  lemma FileRead(name: string, d: Doc, rest: seq<Event>, f: Frame, rlevel: nat)
    requires Collection(d) && Written(d) && Unique(f.parent) && f.state == Key
    ensures var e := Scalar(name, None, Opened(Stream(d)));
      ReadsAs(Loop([Plain("include"), e] + rest, f, false, rlevel), Fits(d, RECURSION_LIMIT),
              Loop(rest, f.(parent := Fill(f.parent, d)), false, rlevel))
    decreases d, 6
  {
    hide Loop, Unique, Fill, Parse, Fits, Written, Stream;
    var e := Scalar(name, None, Opened(Stream(d)));
    assert [Plain("include"), e] + rest == [Plain("include")] + ([e] + rest);
    LoopStep(Plain("include"), [e] + rest, f, false, rlevel);
    StreamRead(d, f.parent);
    IncludeRead(e, rest, f.(state := YamlSpec.Include), rlevel);
  }

  /** The parent stays well-formed: it is what the parser makes of the value alone. */
  lemma ValueKept(doc: Doc, f: Frame, room: nat)
    requires Written(doc) && FrameOk(f) && f.state == Val && f.node.Some? && room <= RECURSION_LIMIT && Fits(doc, room)
    ensures Unique(WithCurrent(f, Fill(Current(f), doc)).parent)
    decreases doc, 4
  {
    hide Loop, Unique, Print, Fill, Fits, Written;
    ValueRead(doc, [StreamEnd], f, room);
    LoopEnd(StreamEnd, [], WithCurrent(f, Fill(Current(f), doc)).(state := Key), false, 129 - room);
    assert [StreamEnd] + [] == [StreamEnd];
    LoopKept(Print(doc) + [StreamEnd], f, false, 129 - room);
    KeptUnique(f.parent, Loop(Print(doc) + [StreamEnd], f, false, 129 - room).parent);
  }

  lemma StreamKept(doc: Doc, parent: Node)
    requires Collection(doc) && Written(doc) && Unique(parent) && Fits(doc, RECURSION_LIMIT)
    ensures Kept(parent, Fill(parent, doc))
    decreases doc, 6
  {
    hide Kept, Unique, Parse, Fill, Fits, Written;
    StreamRead(doc, parent);
    ParsePreserves(Stream(doc), parent, false, 0);
  }

  /** A file, at the node that it is loaded or included at. */
  lemma StreamRead(doc: Doc, parent: Node)
    requires Collection(doc) && Written(doc) && Unique(parent)
    ensures ReadsAs(Parse(Stream(doc), parent, false, 0), Fits(doc, RECURSION_LIMIT),
                    Outcome(true, Fill(parent, doc), []))
    decreases doc, 5
  {
    hide Loop, Unique, Print, Fill, Written, Fits;
    var f := Frame(parent, None, Key, 0);
    var tail := [DocumentEnd, StreamEnd];
    var start := DocumentStart(Some((1, 1)));
    assert Stream(doc) == [StreamStart] + ([start] + (Print(doc) + tail));
    LoopStep(StreamStart, [start] + (Print(doc) + tail), f, false, 1);
    LoopStep(start, Print(doc) + tail, f, false, 1);
    CollectionRead(doc, tail, f, RECURSION_LIMIT);
    var f' := WithCurrent(f, Fill(Current(f), doc)).(state := Key);
    assert tail == [DocumentEnd] + [StreamEnd] && [StreamEnd] + [] == [StreamEnd];
    LoopStep(DocumentEnd, [StreamEnd], f', false, 1);
    LoopEnd(StreamEnd, [], f', false, 1);
  }

  // ---------------------------------------------------------------- sequences

  lemma ItemsRead(items: seq<Doc>, rest: seq<Event>, f: Frame, room: nat)
    requires forall d | d in items :: !d.File? && Written(d)
    requires Unique(f.parent) && f.state == Key && f.node.None? && room <= RECURSION_LIMIT
    ensures ReadsAs(Loop(PrintItems(items) + [SequenceEnd] + rest, f, true, 129 - room),
                    forall d | d in items :: Fits(d, room), Outcome(true, FillItems(f.parent, items, f.index), rest))
    decreases items, 0
  {
    hide Loop, Unique, Print, FillItem, Written, Fits;
    if items == [] {
      assert PrintItems(items) + [SequenceEnd] + rest == [SequenceEnd] + rest;
      LoopEnd(SequenceEnd, rest, f, true, 129 - room);
    } else {
      var d := items[0];
      assert d in items && forall y | y in items[1..] :: y in items;
      var more := PrintItems(items[1..]) + [SequenceEnd] + rest;
      assert PrintItems(items) + [SequenceEnd] + rest == Print(d) + more;
      ItemRead(d, more, f, room);
      if Fits(d, room) {
        var (n', i') := FillItem(f.parent, d, f.index);
        ItemKept(d, f, room);
        ItemsRead(items[1..], rest, f.(parent := n', index := i'), room);
        assert items == [d] + items[1..];
      }
    }
  }

  /** One item of a sequence. */
  lemma ItemRead(d: Doc, rest: seq<Event>, f: Frame, room: nat)
    requires !d.File? && Written(d) && Unique(f.parent) && f.state == Key && f.node.None? && room <= RECURSION_LIMIT
    ensures var (n', i') := FillItem(f.parent, d, f.index);
      ReadsAs(Loop(Print(d) + rest, f, true, 129 - room), Fits(d, room),
              Loop(rest, f.(parent := n', index := i'), true, 129 - room))
    decreases d, 7
  {
    hide Loop, Unique, Decimal, FillItems, FillFields, PrintItems, PrintFields;
    match d
    case Text(v) =>
      LoopStep(Plain(v), rest, f, true, 129 - room);
    case Items(items) =>
      var more := PrintItems(items) + [SequenceEnd] + rest;
      assert Print(d) + rest == [SequenceStart] + more;
      if room > 0 { ItemsRead(items, rest, Frame(f.parent, None, Key, 0), room - 1); }
      NestedSequence(more, f, room);
    case Fields(fields) =>
      var more := PrintFields(fields) + [MappingEnd] + rest;
      assert Print(d) + rest == [MappingStart] + more;
      ItemOpened(f);
      var c := Current(OpenItem(f));
      if room > 0 { FieldsRead(fields, rest, Frame(c, None, Key, 0), room - 1); }
      NestedMapping(more, f, room);
      ItemClosed(f, FillFields(c, fields));
  }

  /** The parser on a mapping in a sequence: its item is opened at the end. */
  lemma ItemOpened(f: Frame)
    requires Unique(f.parent) && f.node.None?
    ensures var f', item := OpenItem(f), NewNode(Decimal(f.index), false);
      && FrameOk(f') && Current(f') == ChildOr(f.parent, item).(isSeq := true)
      && Unique(Current(f')) && Current(f').name == item.name
  {
    hide Unique, Decimal;
    OpenItemKept(f);
    CurrentUnique(OpenItem(f));
    var item := NewNode(Decimal(f.index), false);
    ChildOrUnique(f.parent, item);
    var c := ChildOr(f.parent, item);
    RemovedGone(f.parent, item.name);
    LookupAppend(Remove(f.parent.children, item.name), c.(isSeq := true), item.name);
  }

  lemma ItemClosed(f: Frame, c: Node)
    requires Unique(f.parent) && f.node.None? && c.name == Decimal(f.index)
    ensures Closed(OpenItem(f), c, true) == f.(parent := MoveToEnd(f.parent, c), index := f.index + 1)
  {
    hide Unique, Decimal;
    var item := NewNode(Decimal(f.index), false);
    ChildOrUnique(f.parent, item);
    RemovedGone(f.parent, item.name);
    ReplaceLast(Remove(f.parent.children, item.name), ChildOr(f.parent, item).(isSeq := true), c);
  }

  lemma NestedSequence(more: seq<Event>, f: Frame, room: nat)
    requires f.node.None? && f.state == Key && room <= RECURSION_LIMIT
    ensures var l := Loop([SequenceStart] + more, f, true, 129 - room);
      if room == 0 then !l.ok
      else
        var r := Loop(more, Frame(f.parent, None, Key, 0), true, 130 - room);
        if !r.ok then !l.ok else l == Loop(r.rest, f.(parent := r.parent.(isSeq := true)), true, 129 - room)
  {
    assert ([SequenceStart] + more)[1..] == more;
  }

  lemma NestedMapping(more: seq<Event>, f: Frame, room: nat)
    requires f.state == Key && room <= RECURSION_LIMIT
    ensures var l, f' := Loop([MappingStart] + more, f, true, 129 - room), OpenItem(f);
      if room == 0 then !l.ok
      else
        var r := Loop(more, Frame(Current(f'), None, Key, 0), false, 130 - room);
        if !r.ok then !l.ok else l == Loop(r.rest, Closed(f', r.parent, true), true, 129 - room)
  {
    hide Current, Decimal, MoveToEnd, ChildOr;
    assert ([MappingStart] + more)[1..] == more;
  }

  lemma ItemKept(d: Doc, f: Frame, room: nat)
    requires !d.File? && Written(d) && Unique(f.parent) && f.state == Key && f.node.None?
    requires room <= RECURSION_LIMIT && Fits(d, room)
    ensures Unique(FillItem(f.parent, d, f.index).0)
    decreases d, 8
  {
    hide Loop, Unique, Print, FillItem, Fits, Written;
    var (n', i') := FillItem(f.parent, d, f.index);
    ItemRead(d, [StreamEnd], f, room);
    LoopEnd(StreamEnd, [], f.(parent := n', index := i'), true, 129 - room);
    assert [StreamEnd] + [] == [StreamEnd];
    LoopKept(Print(d) + [StreamEnd], f, true, 129 - room);
    KeptUnique(f.parent, Loop(Print(d) + [StreamEnd], f, true, 129 - room).parent);
  }
}
