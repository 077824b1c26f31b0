/**
 The configuration parser over a list of parser events.  A scalar carries the events of the
 file that it would include, so a run that ends is given with all the files it reads.
 */
module YamlSpec {
  import opened Options
  import opened ConfigTree

  datatype Event =
    | StreamStart
    | StreamEnd
    | DocumentStart(version: Option<(int, int)>)
    | DocumentEnd
    | Alias
    | Scalar(value: string, tag: Option<string>, file: File)
    | SequenceStart
    | SequenceEnd
    | MappingStart
    | MappingEnd

  /** A file that cannot be opened, or the events of one that can. */
  datatype File = Missing | Opened(events: seq<Event>)

  datatype State = Key | Val | Include

  const RECURSION_LIMIT := 128

  /** The local variables of one activation of the parser.  `node` is the child that the last
      key stands for; without one the parent itself is meant. */
  datatype Frame = Frame(parent: Node, node: Option<string>, state: State, index: nat)

  /** Whether parsing went well, the tree, and the events that are left. */
  datatype Outcome = Outcome(ok: bool, parent: Node, rest: seq<Event>)

  function Decimal(n: nat): string {
    (if n < 10 then "" else Decimal(n / 10)) + [(n % 10) as char + '0']
  }

  function Current(f: Frame): Node {
    if f.node.None? then f.parent
    else
      var c := Lookup(f.parent.children, f.node.value);
      if c.None? then f.parent else c.value
  }

  /** The frame after the current node was changed. */
  function WithCurrent(f: Frame, c: Node): Frame {
    if f.node.None? then f.(parent := c)
    else f.(parent := f.parent.(children := Replace(f.parent.children, f.node.value, c)))
  }

  /** A child put behind the others, in place of the one that had its name. */
  function MoveToEnd(n: Node, c: Node): Node {
    n.(children := Remove(n.children, c.name) + [c])
  }

  /** The child of a name, or the one to be added if there is none. */
  function ChildOr(n: Node, c: Node): Node {
    var existing := Lookup(n.children, c.name);
    if existing.None? then c else existing.value
  }

  // ------------------------------------------------------------ single events

  /** A scalar in a sequence: an item that is there already keeps its value. */
  function SequenceItem(f: Frame, value: string): Frame {
    var item := Node(Decimal(f.index), Some(value), false, false, []);
    f.(parent := MoveToEnd(f.parent, ChildOr(f.parent, item)), index := f.index + 1)
  }

  /** A key: what it stands for is pruned, unless it is final. */
  function KeyScalar(f: Frame, value: string): Frame {
    var p := if f.parent.isSeq && f.parent.val.None? then f.parent.(val := Some(value)) else f.parent;
    var existing := Lookup(p.children, value);
    var p' :=
      if existing.None? then p.(children := p.children + [NewNode(value, false)])
      else if existing.value.final then p
      else p.(children := Replace(p.children, value, Prune(existing.value)));
    f.(parent := p', node := Some(value), state := Val)
  }

  function ValScalar(f: Frame, value: string): Frame {
    var c := Current(f);
    (if c.final then f else WithCurrent(f, c.(val := Some(value)))).(state := Key)
  }

  /** A scalar that includes a file: the one after the key `include`, or a tagged value. */
  predicate Includes(f: Frame, e: Event, inseq: bool) {
    e.Scalar? && !inseq && (f.state == Include || (f.state == Val && e.tag == Some("!include")))
  }

  /** An event without recursion; nothing if it makes the parser fail. */
  function Simple(f: Frame, e: Event, inseq: bool): Option<Frame> {
    match e
    case DocumentStart(version) => if version == Some((1, 1)) then Some(f) else None
    case Scalar(value, tag, file) =>
      if f.state == Key && value == "" then Some(f)
      else if inseq then Some(SequenceItem(f, value))
      else if f.state == Key then
        if value == "include" then Some(f.(state := Include)) else Some(KeyScalar(f, value))
      else Some(ValScalar(f, value))
    case _ => Some(f)
  }

  // ----------------------------------------------------------------- parsing

  /** The number of events, those of included files counted in. */
  function Size(events: seq<Event>): nat
    decreases events
  {
    if events == [] then 0
    else
      var e := events[0];
      1 + (if e.Scalar? && e.file.Opened? then Size(e.file.events) else 0) + Size(events[1..])
  }

  function Parse(events: seq<Event>, parent: Node, inseq: bool, rlevel: nat): (r: Outcome)
    ensures Size(r.rest) <= Size(events)
    decreases Size(events), 1
  {
    if rlevel > RECURSION_LIMIT then Outcome(false, parent, events)
    else Loop(events, Frame(parent, None, Key, 0), inseq, rlevel + 1)
  }

  function Loop(events: seq<Event>, f: Frame, inseq: bool, rlevel: nat): (r: Outcome)
    ensures Size(r.rest) <= Size(events)
    decreases Size(events), 0
  {
    if events == [] then Outcome(false, f.parent, [])
    else
      var e, rest := events[0], events[1..];
      if Ends(e) then Outcome(true, f.parent, rest)
      else if e.SequenceStart? then
        var r := Parse(rest, Current(f), true, rlevel);
        if !r.ok then Outcome(false, WithCurrent(f, r.parent).parent, r.rest)
        else Loop(r.rest, WithCurrent(f, r.parent.(isSeq := true)).(state := Key), inseq, rlevel)
      else if e.MappingStart? then
        var f' := if inseq then OpenItem(f) else f;
        var r := Parse(rest, Current(f'), false, rlevel);
        var f'' := Closed(f', r.parent, inseq);
        if !r.ok then Outcome(false, f''.parent, r.rest)
        else Loop(r.rest, f''.(state := Key), inseq, rlevel)
      else if Includes(f, e, inseq) then
        if e.file.Missing? then Outcome(false, f.parent, rest)
        else
          var r := Parse(e.file.events, Current(Target(f)), false, 0);
          var f' := Included(f, r.parent);
          if !r.ok then Outcome(false, f'.parent, rest) else Loop(rest, f', inseq, rlevel)
      else
        var f' := Simple(f, e, inseq);
        if f'.None? then Outcome(false, f.parent, rest) else Loop(rest, f'.value, inseq, rlevel)
  }

  predicate Ends(e: Event) {
    e.SequenceEnd? || e.MappingEnd? || e.StreamEnd?
  }

  /** A file is included at the parent after the key `include`, else at the current node. */
  function Target(f: Frame): Frame {
    if f.state == Include then f.(node := None) else f
  }

  function Included(f: Frame, c: Node): Frame {
    WithCurrent(Target(f), c).(node := f.node, state := Key)
  }

  /** A mapping in a sequence: its item goes to the end and is the current node. */
  function OpenItem(f: Frame): Frame {
    var item := NewNode(Decimal(f.index), false);
    var parent := MoveToEnd(f.parent, ChildOr(f.parent, item).(isSeq := true));
    f.(parent := parent, node := Some(item.name), index := f.index + 1)
  }

  /** The frame after the current node was parsed; in a sequence it is the parent's again. */
  function Closed(f: Frame, c: Node, inseq: bool): Frame {
    if inseq then WithCurrent(f, c).(node := None) else WithCurrent(f, c)
  }

  // ------------------------------------------------- final values are kept

  /** A node keeps its final values, its unique names, and its children. */
  ghost predicate Kept(n: Node, n': Node) {
    Preserves(n, n', None) && forall k :: Lookup(n.children, k).Some? ==> Lookup(n'.children, k).Some?
  }

  lemma KeptTwice(a: Node, b: Node, c: Node)
    requires Kept(a, b) && Kept(b, c)
    ensures Kept(a, c)
  {
    hide Unique, Holds;
    Transitive(a, b, c, None);
  }

  /** A change of a node's own fields. */
  lemma FieldsKept(n: Node, n': Node)
    requires Unique(n) && n'.name == n.name && n'.children == n.children
    requires n.final && n.val.Some? ==> n'.final && n'.val == n.val
    ensures Kept(n, n')
  {
    hide Unique, Holds;
    ValuePreserves(n, n', None);
  }

  ghost predicate FrameOk(f: Frame) {
    Unique(f.parent) && (f.node.Some? ==> Lookup(f.parent.children, f.node.value).Some?)
  }

  lemma Same(n: Node)
    requires Unique(n)
    ensures Kept(n, n)
  {
  }

  lemma CurrentUnique(f: Frame)
    requires FrameOk(f)
    ensures Unique(Current(f))
  {
    if f.node.Some? {
      LookupFacts(f.parent.children, f.node.value);
    }
  }

  /** Changing the current node changes its parent accordingly. */
  lemma CurrentKept(f: Frame, c: Node)
    requires FrameOk(f) && Kept(Current(f), c)
    ensures FrameOk(WithCurrent(f, c)) && Kept(f.parent, WithCurrent(f, c).parent)
  {
    hide Unique, Holds, Preserves;
    if f.node.Some? {
      ReplaceKept(f.parent, f.node.value, Current(f), c);
      KeptUnique(f.parent, WithCurrent(f, c).parent);
    } else {
      KeptUnique(f.parent, c);
    }
  }

  lemma KeptUnique(n: Node, n': Node)
    requires Kept(n, n')
    ensures Unique(n') && n'.name == n.name
  {
  }

  lemma ReplaceKept(n: Node, key: string, c: Node, c': Node)
    requires Unique(n) && Lookup(n.children, key) == Some(c) && Preserves(c, c', None)
    ensures Kept(n, n.(children := Replace(n.children, key, c')))
  {
    hide Unique, Holds;
    LookupFacts(n.children, key);
    ReplacePreserves(n, key, c, c', None);
    forall k ensures Lookup(Replace(n.children, key, c'), k) == if k == key then Some(c') else Lookup(n.children, k) {
      LookupReplace(n.children, key, c', k);
    }
  }

  lemma AppendKept(n: Node, c: Node)
    requires Unique(n) && Unique(c) && Lookup(n.children, c.name).None?
    ensures Kept(n, n.(children := n.children + [c]))
    ensures Lookup(n.children + [c], c.name) == Some(c)
  {
    hide Unique, Holds;
    AppendPreserves(n, c, None);
    LookupAppend(n.children, c, c.name);
    forall k | Lookup(n.children, k).Some? ensures Lookup(n.children + [c], k).Some? {
      LookupAppend(n.children, c, k);
    }
  }

  lemma {:induction false} RemoveAbsent(cs: seq<Node>, key: string)
    requires Lookup(cs, key).None?
    ensures Remove(cs, key) == cs
  {
    if cs != [] {
      RemoveAbsent(cs[1..], key);
    }
  }

  /** Moving an item to the end, or adding it there. */
  lemma MoveToEndKept(n: Node, item: Node, c: Node)
    requires Unique(n) && item.children == [] && Preserves(ChildOr(n, item), c, None)
    ensures Kept(n, MoveToEnd(n, c))
    ensures Lookup(MoveToEnd(n, c).children, item.name) == Some(c)
  {
    hide Unique, Holds;
    LookupFacts(n.children, item.name);
    if Lookup(n.children, item.name).None? {
      RemoveAbsent(n.children, item.name);
      AppendKept(n, c);
    } else {
      MovePreserves(n, item.name, ChildOr(n, item), c);
      RemovedGone(n, item.name);
      var rest := Remove(n.children, item.name);
      LookupAppend(rest, c, item.name);
      forall k | Lookup(n.children, k).Some? ensures Lookup(rest + [c], k).Some? {
        LookupAppend(rest, c, k);
        if k != item.name { LookupRemove(n.children, item.name, k); }
      }
    }
  }

  lemma RemovedGone(n: Node, key: string)
    requires Unique(n)
    ensures Lookup(Remove(n.children, key), key).None?
  {
    hide Unique;
    UniqueIsList(n);
    RemoveUnique(n.children, key);
    LookupFacts(Remove(n.children, key), key);
  }

  lemma ChildOrUnique(n: Node, item: Node)
    requires Unique(n) && item.children == []
    ensures Unique(ChildOr(n, item)) && ChildOr(n, item).name == item.name
  {
    LookupFacts(n.children, item.name);
  }

  lemma SequenceItemKept(f: Frame, value: string)
    requires FrameOk(f) && f.node.None?
    ensures FrameOk(SequenceItem(f, value)) && Kept(f.parent, SequenceItem(f, value).parent)
  {
    hide Unique, Holds, Decimal;
    var item := Node(Decimal(f.index), Some(value), false, false, []);
    ChildOrUnique(f.parent, item);
    Same(ChildOr(f.parent, item));
    MoveToEndKept(f.parent, item, ChildOr(f.parent, item));
  }

  lemma OpenItemKept(f: Frame)
    requires FrameOk(f) && f.node.None?
    ensures FrameOk(OpenItem(f)) && Kept(f.parent, OpenItem(f).parent)
  {
    hide Unique, Holds, Decimal;
    var item := NewNode(Decimal(f.index), false);
    ChildOrUnique(f.parent, item);
    var c := ChildOr(f.parent, item);
    FieldsKept(c, c.(isSeq := true));
    MoveToEndKept(f.parent, item, c.(isSeq := true));
  }

  /** A key prunes what it stands for, or adds it, and keeps every final value. */
  lemma KeyKept(f: Frame, value: string)
    requires Unique(f.parent)
    ensures FrameOk(KeyScalar(f, value)) && Kept(f.parent, KeyScalar(f, value).parent)
  {
    hide Unique, Holds, Prune, Preserves;
    var p := if f.parent.isSeq && f.parent.val.None? then f.parent.(val := Some(value)) else f.parent;
    FieldsKept(f.parent, p);
    KeptUnique(f.parent, p);
    KeyNodeKept(p, value);
    KeptTwice(f.parent, p, KeyScalar(f, value).parent);
    KeptUnique(p, KeyScalar(f, value).parent);
  }

  lemma KeyNodeKept(p: Node, value: string)
    requires Unique(p)
    ensures var existing := Lookup(p.children, value);
      var p' :=
        if existing.None? then p.(children := p.children + [NewNode(value, false)])
        else if existing.value.final then p
        else p.(children := Replace(p.children, value, Prune(existing.value)));
      Kept(p, p') && Lookup(p'.children, value).Some?
  {
    hide Unique, Holds;
    var existing := Lookup(p.children, value);
    LookupFacts(p.children, value);
    UniqueIsList(p);
    if existing.None? {
      UniqueNew(value, false);
      AppendKept(p, NewNode(value, false));
    } else if existing.value.final {
      Same(p);
    } else {
      PrunePreserves(existing.value);
      ReplaceKept(p, value, existing.value, Prune(existing.value));
    }
  }

  lemma ValKept(f: Frame, value: string)
    requires FrameOk(f)
    ensures FrameOk(ValScalar(f, value)) && Kept(f.parent, ValScalar(f, value).parent)
  {
    hide Unique, Holds, WithCurrent, Preserves;
    var c := Current(f);
    CurrentUnique(f);
    if c.final {
      Same(f.parent);
    } else {
      FieldsKept(c, c.(val := Some(value)));
      CurrentKept(f, c.(val := Some(value)));
    }
  }

  /** In a sequence the current node is the parent. */
  predicate InSequence(f: Frame, inseq: bool) {
    inseq ==> f.node.None?
  }

  lemma SimpleKept(f: Frame, e: Event, inseq: bool)
    requires FrameOk(f) && InSequence(f, inseq) && !Includes(f, e, inseq) && Simple(f, e, inseq).Some?
    ensures var f' := Simple(f, e, inseq).value;
      FrameOk(f') && InSequence(f', inseq) && Kept(f.parent, f'.parent)
  {
    hide Unique, Kept, SequenceItem, KeyScalar, ValScalar;
    Same(f.parent);
    if e.Scalar? && !(f.state == Key && e.value == "") {
      if inseq {
        SequenceItemKept(f, e.value);
        StillInSequence(f, e.value);
      } else if f.state == Key && e.value != "include" {
        KeyKept(f, e.value);
      } else if f.state == Val {
        ValKept(f, e.value);
      }
    }
  }

  lemma StillInSequence(f: Frame, value: string)
    ensures SequenceItem(f, value).node == f.node
  {
  }

  lemma ParsePreserves(events: seq<Event>, parent: Node, inseq: bool, rlevel: nat)
    requires Unique(parent)
    ensures Kept(parent, Parse(events, parent, inseq, rlevel).parent)
    decreases Size(events), 1
  {
    hide Unique, Kept, Loop;
    Same(parent);
    if rlevel <= RECURSION_LIMIT {
      LoopKept(events, Frame(parent, None, Key, 0), inseq, rlevel + 1);
    }
  }

  /** The loop of the parser, with everything it recurses into and includes, keeps every
      final value. */
  lemma LoopKept(events: seq<Event>, f: Frame, inseq: bool, rlevel: nat)
    requires FrameOk(f) && InSequence(f, inseq)
    ensures Kept(f.parent, Loop(events, f, inseq, rlevel).parent)
    decreases Size(events), 0
  {
    hide Kept, Unique, Parse, Simple, Includes, Included, Target;
    Same(f.parent);
    if events != [] {
      var e, rest := events[0], events[1..];
      if Ends(e) {
      } else if e.SequenceStart? {
        SequenceKept(events, f, inseq, rlevel);
      } else if e.MappingStart? {
        MappingKept(events, f, inseq, rlevel);
      } else if Includes(f, e, inseq) {
        IncludeKept(events, f, inseq, rlevel);
      } else if Simple(f, e, inseq).Some? {
        var f' := Simple(f, e, inseq).value;
        SimpleKept(f, e, inseq);
        LoopKept(rest, f', inseq, rlevel);
        KeptTwice(f.parent, f'.parent, Loop(rest, f', inseq, rlevel).parent);
      }
    }
  }

  lemma SequenceKept(events: seq<Event>, f: Frame, inseq: bool, rlevel: nat)
    requires FrameOk(f) && InSequence(f, inseq) && events != [] && events[0].SequenceStart?
    ensures Kept(f.parent, Loop(events, f, inseq, rlevel).parent)
    decreases Size(events), 0, 0
  {
    hide Unique, Kept, Parse, Current, WithCurrent;
    var c := Current(f);
    CurrentUnique(f);
    var r := Parse(events[1..], c, true, rlevel);
    ParsePreserves(events[1..], c, true, rlevel);
    CurrentKept(f, r.parent);
    if r.ok {
      var c' := r.parent.(isSeq := true);
      KeptUnique(c, r.parent);
      FieldsKept(r.parent, c');
      KeptTwice(c, r.parent, c');
      CurrentKept(f, c');
      WithCurrentNode(f, c');
      var f' := WithCurrent(f, c').(state := Key);
      LoopKept(r.rest, f', inseq, rlevel);
      KeptTwice(f.parent, f'.parent, Loop(r.rest, f', inseq, rlevel).parent);
    }
  }

  lemma MappingKept(events: seq<Event>, f: Frame, inseq: bool, rlevel: nat)
    requires FrameOk(f) && InSequence(f, inseq) && events != [] && events[0].MappingStart?
    ensures Kept(f.parent, Loop(events, f, inseq, rlevel).parent)
    decreases Size(events), 0, 0
  {
    hide Unique, Kept, Parse, Current, WithCurrent, OpenItem;
    var f1 := if inseq then OpenItem(f) else f;
    if inseq { OpenItemKept(f); } else { Same(f.parent); }
    CurrentUnique(f1);
    var r := Parse(events[1..], Current(f1), false, rlevel);
    ParsePreserves(events[1..], Current(f1), false, rlevel);
    CurrentKept(f1, r.parent);
    WithCurrentNode(f1, r.parent);
    var f2 := Closed(f1, r.parent, inseq);
    KeptTwice(f.parent, f1.parent, f2.parent);
    if r.ok {
      LoopKept(r.rest, f2.(state := Key), inseq, rlevel);
      KeptTwice(f.parent, f2.parent, Loop(r.rest, f2.(state := Key), inseq, rlevel).parent);
    }
  }

  lemma IncludeKept(events: seq<Event>, f: Frame, inseq: bool, rlevel: nat)
    requires FrameOk(f) && InSequence(f, inseq) && events != [] && Includes(f, events[0], inseq)
    ensures Kept(f.parent, Loop(events, f, inseq, rlevel).parent)
    decreases Size(events), 0, 0
  {
    hide Unique, Kept, Parse, Current, WithCurrent;
    var e, target := events[0], Target(f);
    Same(f.parent);
    if e.file.Opened? {
      CurrentUnique(target);
      var r := Parse(e.file.events, Current(target), false, 0);
      ParsePreserves(e.file.events, Current(target), false, 0);
      CurrentKept(target, r.parent);
      IncludedOk(f, r.parent);
      var f' := Included(f, r.parent);
      if r.ok {
        LoopKept(events[1..], f', inseq, rlevel);
        KeptTwice(f.parent, f'.parent, Loop(events[1..], f', inseq, rlevel).parent);
      }
    }
  }

  /** After an include at the parent the current node is there still. */
  lemma IncludedOk(f: Frame, c: Node)
    requires FrameOk(f) && FrameOk(WithCurrent(Target(f), c)) && Kept(f.parent, WithCurrent(Target(f), c).parent)
    ensures FrameOk(Included(f, c))
  {
    hide Unique, Holds, Preserves;
  }

  lemma WithCurrentNode(f: Frame, c: Node)
    ensures WithCurrent(f, c).node == f.node
  {
  }

  // -------------------------------------------------------------------- runs

  datatype Op =
    | SetValue(name: string, val: string)
    | SetFinal(name: string, val: string)
    | Load(events: seq<Event>)

  function Apply(root: Node, op: Op): Node {
    match op
    case SetValue(name, val) => Set(root, name, val, false).1
    case SetFinal(name, val) => Set(root, name, val, true).1
    case Load(events) => Parse(events, root, false, 0).parent
  }

  function Run(root: Node, ops: seq<Op>): Node
    decreases |ops|
  {
    if ops == [] then root else Run(Apply(root, ops[0]), ops[1..])
  }

  lemma ApplyKeeps(root: Node, op: Op, name: string, v: string)
    requires Unique(root) && Holds(root, Split(name), v)
    requires op.SetFinal? ==> op.name != name
    ensures Unique(Apply(root, op)) && Holds(Apply(root, op), Split(name), v)
  {
    hide Unique, Holds, SetAt, Parse;
    match op
    case SetValue(n, val) => SetPreserves(root, Split(n), val, false);
    case SetFinal(n, val) =>
      SetPreserves(root, Split(n), val, true);
      JoinSplit(n);
      JoinSplit(name);
    case Load(events) => ParsePreserves(events, root, false, 0);
  }

  lemma {:induction false} RunKeeps(root: Node, ops: seq<Op>, name: string, v: string)
    requires Unique(root) && Holds(root, Split(name), v)
    requires forall op | op in ops && op.SetFinal? :: op.name != name
    ensures Unique(Run(root, ops)) && Holds(Run(root, ops), Split(name), v)
    decreases |ops|
  {
    hide Unique, Holds, Apply;
    if ops != [] {
      assert ops[0] in ops && forall op | op in ops[1..] :: op in ops;
      ApplyKeeps(root, ops[0], name, v);
      RunKeeps(Apply(root, ops[0]), ops[1..], name, v);
    }
  }

  /** A final value wins: once it is set, the name reads as that value after any sequence of
      settings and event streams, however these end, that does not set a new final value
      for the name. */
  lemma FinalValueWins(root: Node, name: string, v: string, ops: seq<Op>)
    requires Unique(root) && Set(root, name, v, true).0
    requires forall op | op in ops && op.SetFinal? :: op.name != name
    ensures Get(Run(Set(root, name, v, true).1, ops), name) == Some(Some(v))
  {
    hide Unique, Holds, Run, SetAt, Find;
    var root' := Set(root, name, v, true).1;
    SetPreserves(root, Split(name), v, true);
    SetFinalHolds(root, Split(name), v);
    RunKeeps(root', ops, name, v);
    HoldsFinds(Run(root', ops), Split(name), v);
  }

  /** In every tree that is built from an empty root, sibling names are unique. */
  lemma {:induction false} NamesUnique(root: Node, ops: seq<Op>)
    requires Unique(root)
    ensures Unique(Run(root, ops))
    decreases |ops|
  {
    hide Unique, Apply;
    if ops != [] {
      ApplyUnique(root, ops[0]);
      NamesUnique(Apply(root, ops[0]), ops[1..]);
    }
  }

  lemma ApplyUnique(root: Node, op: Op)
    requires Unique(root)
    ensures Unique(Apply(root, op))
  {
    hide Unique, Holds, SetAt, Parse;
    match op
    case SetValue(n, val) => SetPreserves(root, Split(n), val, false);
    case SetFinal(n, val) => SetPreserves(root, Split(n), val, true);
    case Load(events) => ParsePreserves(events, root, false, 0);
  }
}
