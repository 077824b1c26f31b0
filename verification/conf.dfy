/**
 The configuration object: its root, the walks over it, and the event loop of its parser.
 */
module Configuration {
  import opened Options
  import opened ConfigTree
  import opened YamlSpec

  /** strchr for a dot. */
  method FindDot(s: string) returns (i: nat)
    ensures i <= |s| && '.' !in s[..i] && (i < |s| ==> s[i] == '.')
  {
    i := 0;
    while i < |s| && s[i] != '.'
      invariant i <= |s| && '.' !in s[..i]
    {
      i := i + 1;
    }
  }

  lemma {:induction false} SplitAt(s: string, i: nat)
    requires i <= |s| && '.' !in s[..i] && (i < |s| ==> s[i] == '.')
    ensures Split(s) == if i < |s| then [s[..i]] + Split(s[i + 1..]) else [s]
  {
    hide Split;
    SplitOnce(s);
    if i > 0 {
      assert s[0] == s[..i][0] && s[1..][..i - 1] == s[..i][1..];
      SplitAt(s[1..], i - 1);
      assert s == [s[0]] + s[1..] && s[..i] == [s[0]] + s[..i][1..];
      if i < |s| {
        assert s[1..][i..] == s[i + 1..];
        assert Split(s[1..]) == [s[..i][1..]] + Split(s[i + 1..]);
      }
    } else {
      assert s[..0] == "";
    }
  }

  lemma SplitOnce(s: string)
    ensures s == "" ==> Split(s) == [""]
    ensures s != "" && s[0] == '.' ==> Split(s) == [""] + Split(s[1..])
    ensures s != "" && s[0] != '.' ==> Split(s) == [[s[0]] + Split(s[1..])[0]] + Split(s[1..])[1..]
  {
  }

  method LookupChild(n: Node, key: string) returns (c: Option<Node>)
    ensures c == Lookup(n.children, key)
  {
    var i := 0;
    while i < |n.children|
      invariant i <= |n.children| && Lookup(n.children, key) == Lookup(n.children[i..], key)
    {
      if n.children[i].name == key {
        return Some(n.children[i]);
      }
      i := i + 1;
    }
    return None;
  }

  method PruneNode(n: Node) returns (r: Node)
    ensures r == Prune(n)
    decreases n
  {
    var i, kept := 0, [];
    while i < |n.children|
      invariant i <= |n.children| && kept + PruneAll(n.children[i..]) == PruneAll(n.children)
    {
      var item := n.children[i];
      PruneFirst(kept, n.children[i..]);
      assert n.children[i..][1..] == n.children[i + 1..];
      if !item.final {
        var pruned := PruneNode(item);
        if pruned.children != [] {
          kept := kept + [pruned];
        }
      } else {
        kept := kept + [item];
      }
      i := i + 1;
    }
    assert kept + [] == kept;
    r := n.(children := kept, val := None);
  }

  lemma PruneFirst(kept: seq<Node>, cs: seq<Node>)
    requires cs != []
    ensures var c := if cs[0].final then cs[0] else Prune(cs[0]);
      kept + PruneAll(cs) ==
        (if cs[0].final || c.children != [] then kept + [c] else kept) + PruneAll(cs[1..])
  {
    hide Prune;
    var c := if cs[0].final then cs[0] else Prune(cs[0]);
    var first := if cs[0].final || c.children != [] then [c] else [];
    assert PruneAll(cs) == first + PruneAll(cs[1..]);
    Associate(kept, first, PruneAll(cs[1..]));
  }

  lemma Associate(a: seq<Node>, b: seq<Node>, c: seq<Node>)
    ensures a + (b + c) == (a + b) + c && a + [] == a
  {
  }

  // ------------------------------------------------------------- the parser

  lemma {:induction false} SizeSuffix(events: seq<Event>, k: nat)
    requires k <= |events|
    ensures Size(events[k..]) <= Size(events)
    ensures k > 0 ==> Size(events[k..]) < Size(events)
    decreases k
  {
    if k > 0 {
      SizeSuffix(events[1..], k - 1);
      assert events[1..][k - 1..] == events[k..];
    } else {
      assert events[0..] == events;
    }
  }

  /** gp_conf_yaml_parse: one activation, from event `pos` on. */
  method ParseEvents(events: seq<Event>, pos: nat, parent0: Node, inseq: bool, rlevel: nat)
    returns (ok: bool, parent: Node, next: nat)
    requires pos <= |events|
    ensures pos <= next <= |events|
    ensures Outcome(ok, parent, events[next..]) == Parse(events[pos..], parent0, inseq, rlevel)
    decreases Size(events[pos..]), 1
  {
    hide Simple, WithCurrent, Current, OpenItem, Includes, Included, Target, Size;
    parent, next := parent0, pos;
    if rlevel > RECURSION_LIMIT {
      return false, parent, next;
    }
    var f, done := Frame(parent0, None, Key, 0), false;
    ok := true;
    while !done
      invariant pos <= next <= |events| && Size(events[next..]) <= Size(events[pos..])
      invariant Parse(events[pos..], parent0, inseq, rlevel) ==
        if done then Outcome(ok, f.parent, events[next..]) else Loop(events[next..], f, inseq, rlevel + 1)
      decreases !done, |events| - next
    {
      ghost var before := next;
      ok, done, f, next := ParseEvent(events, next, f, inseq, rlevel + 1);
      SizeSuffix(events[before..], next - before);
      assert events[before..][next - before..] == events[next..];
    }
    parent := f.parent;
  }

  /** One turn of the loop: one event, with all that is nested in it. */
  method ParseEvent(events: seq<Event>, pos: nat, f0: Frame, inseq: bool, rlevel: nat)
    returns (ok: bool, done: bool, f: Frame, next: nat)
    requires pos <= |events|
    ensures pos <= next <= |events| && (!done ==> pos < next)
    ensures Loop(events[pos..], f0, inseq, rlevel) ==
      if done then Outcome(ok, f.parent, events[next..]) else Loop(events[next..], f, inseq, rlevel)
    decreases Size(events[pos..]), 0
  {
    hide Simple, WithCurrent, Current, OpenItem, Parse, Included, Target;
    ok, done, f, next := true, false, f0, pos;
    if pos == |events| {
      return false, true, f, next;
    }
    var event := events[pos];
    next := pos + 1;
    assert events[pos..][1..] == events[next..];
    if Ends(event) {
      done := true;
    } else if event.SequenceStart? {
      var node;
      ok, node, next := ParseEvents(events, next, Current(f), true, rlevel);
      if ok {
        f := WithCurrent(f, node.(isSeq := true)).(state := Key);
      } else {
        done, f := true, WithCurrent(f, node);
      }
    } else if event.MappingStart? {
      if inseq {
        f := OpenSequenceItem(f);
      }
      var node;
      ok, node, next := ParseEvents(events, next, Current(f), false, rlevel);
      f := Closed(f, node, inseq);
      if ok {
        f := f.(state := Key);
      } else {
        done := true;
      }
    } else if Includes(f, event, inseq) {
      ok, done, f := HandleInclude(event, f, inseq);
    } else {
      ok, f := HandleSimple(f, event, inseq);
      done := !ok;
    }
  }

  /** gp_conf_yaml_handle_include: the file's events are parsed on their own. */
  method HandleInclude(event: Event, f0: Frame, inseq: bool) returns (ok: bool, done: bool, f: Frame)
    requires Includes(f0, event, inseq)
    ensures done == !ok
    ensures event.file.Missing? ==> !ok && f == f0
    ensures event.file.Opened? ==>
      var r := Parse(event.file.events, Current(Target(f0)), false, 0);
      ok == r.ok && f == Included(f0, r.parent)
    decreases if event.file.Opened? then Size(event.file.events) else 0, 2
  {
    hide Parse, Included, Target, Current;
    ok, done, f := false, true, f0;
    if event.file.Opened? {
      assert event.file.events[0..] == event.file.events;
      var node, next;
      ok, node, next := ParseEvents(event.file.events, 0, Current(Target(f)), false, 0);
      f := Included(f, node);
      done := !ok;
    }
  }

  /** A mapping in a sequence takes the place of the item of its index, at the end. */
  method OpenSequenceItem(f0: Frame) returns (f: Frame)
    ensures f == OpenItem(f0)
  {
    hide Decimal;
    var name := Decimal(f0.index);
    var item := LookupChild(f0.parent, name);
    if item.None? {
      item := Some(NewNode(name, false));
      LookupFacts(f0.parent.children, name);
    } else {
      LookupFacts(f0.parent.children, name);
    }
    f := f0.(parent := MoveToEnd(f0.parent, item.value.(isSeq := true)), node := Some(name), index := f0.index + 1);
  }

  /** A version directive or a scalar, by the state that the parser is in. */
  method HandleSimple(f0: Frame, event: Event, inseq: bool) returns (ok: bool, f: Frame)
    requires !Includes(f0, event, inseq)
    ensures Simple(f0, event, inseq) == if ok then Some(f) else None
    ensures !ok ==> f == f0
  {
    hide Decimal, WithCurrent, Current, Prune;
    ok, f := true, f0;
    if event.DocumentStart? {
      ok := event.version == Some((1, 1));
    } else if event.Scalar? {
      if f.state == Key && event.value == "" {
      } else if inseq {
        f := HandleItem(f, event.value);
      } else if f.state == Key {
        if event.value == "include" {
          f := f.(state := Include);
        } else {
          f := HandleKey(f, event.value);
        }
      } else {
        var node := Current(f);
        if !node.final {
          f := WithCurrent(f, node.(val := Some(event.value)));
        }
        f := f.(state := Key);
      }
    }
  }

  method HandleItem(f0: Frame, value: string) returns (f: Frame)
    ensures f == SequenceItem(f0, value)
  {
    hide Decimal;
    var name := Decimal(f0.index);
    LookupFacts(f0.parent.children, name);
    var item := LookupChild(f0.parent, name);
    if item.None? {
      item := Some(Node(name, Some(value), false, false, []));
    }
    f := f0.(parent := MoveToEnd(f0.parent, item.value), index := f0.index + 1);
  }

  method HandleKey(f0: Frame, value: string) returns (f: Frame)
    ensures f == KeyScalar(f0, value)
  {
    hide Prune;
    f := f0;
    if f.parent.isSeq && f.parent.val.None? {
      f := f.(parent := f.parent.(val := Some(value)));
    }
    var existing := LookupChild(f.parent, value);
    if existing.Some? {
      if !existing.value.final {
        var pruned := PruneNode(existing.value);
        f := f.(parent := f.parent.(children := Replace(f.parent.children, value, pruned)));
      }
    } else {
      f := f.(parent := f.parent.(children := f.parent.children + [NewNode(value, false)]));
    }
    f := f.(node := Some(value), state := Val);
  }

  // --------------------------------------------------------- nodes of a name

  /** `spine` starts at the root; each further node is the child of its part of the name, or
      a new node where there is none. */
  ghost predicate Descends(root: Node, spine: seq<Node>, path: seq<string>, final: bool) {
    && |spine| == |path| + 1 && spine[0] == root
    && forall k | 0 <= k < |path| :: spine[k + 1] == Child(spine[k], path[k], final)
  }

  lemma Starts(root: Node, final: bool)
    ensures Descends(root, [root], [], final)
  {
  }

  lemma SplitMore(path: seq<string>, key: string, i: nat)
    requires i <= |key| && '.' !in key[..i] && (i < |key| ==> key[i] == '.')
    ensures path + Split(key) == (path + [key[..i]]) + if i < |key| then Split(key[i + 1..]) else []
  {
    hide Split;
    SplitAt(key, i);
    assert i == |key| ==> key[..i] == key;
  }

  function Child(n: Node, key: string, final: bool): Node {
    var c := Lookup(n.children, key);
    if c.None? then NewNode(key, final) else c.value
  }

  lemma DescendsOn(root: Node, spine: seq<Node>, path: seq<string>, final: bool, key: string, c: Node)
    requires Descends(root, spine, path, final) && |spine| == |path| + 1 && c == Child(spine[|path|], key, final)
    ensures Descends(root, spine + [c], path + [key], final)
  {
  }

  lemma DescendsAt(root: Node, spine: seq<Node>, path: seq<string>, final: bool, k: nat)
    requires Descends(root, spine, path, final) && k < |path|
    ensures |spine| == |path| + 1 && spine[k + 1] == Child(spine[k], path[k], final)
  {
  }

  /** The last node of the spine is the one that is found, if there is one. */
  lemma {:induction false} LastOfSpine(root: Node, spine: seq<Node>, path: seq<string>, final: bool)
    requires Descends(root, spine, path, final)
    ensures |spine| == |path| + 1
    ensures var was := Find(root, path);
      spine[|path|] == if was.Some? then was.value else NewNode(path[|path| - 1], final)
    decreases |path|
  {
    if path != [] {
      DescendsAt(root, spine, path, final, 0);
      var c := Lookup(root.children, path[0]);
      TailDescends(root, spine, path, final);
      LastOfSpine(spine[1], spine[1..], path[1..], final);
      if c.None? {
        FindInNew(path[0], final, path[1..]);
      }
    }
  }

  lemma TailDescends(root: Node, spine: seq<Node>, path: seq<string>, final: bool)
    requires Descends(root, spine, path, final) && path != []
    ensures Descends(spine[1], spine[1..], path[1..], final)
  {
    forall k | 0 <= k < |path[1..]| ensures spine[1..][k + 1] == Child(spine[1..][k], path[1..][k], final) {
      DescendsAt(root, spine, path, final, k + 1);
    }
  }

  lemma FindInNew(name: string, final: bool, path: seq<string>)
    ensures path == [] ==> Find(NewNode(name, final), path) == Some(NewNode(name, final))
    ensures path != [] ==> Find(NewNode(name, final), path).None?
  {
  }

  lemma SetLast(n: Node, val: string, final: bool)
    ensures SetAt(n, [], val, final) ==
      if final then n.(val := Some(val), final := true) else if n.final then n else n.(val := Some(val))
  {
  }

  class Config {
    var root: Node

    constructor ()
      ensures root == NewNode("", false) && Unique(root)
    {
      root := NewNode("", false);
    }

    /** gp_conf_get_node: down from the root, one part of the name after the other. */
    method GetNode(name: string) returns (r: Option<Node>)
      ensures r == if |name| >= NODE_NAME_MAX then None else Find(root, Split(name))
    {
      if |name| >= NODE_NAME_MAX {
        return None;
      }
      var node, key, more := root, name, true;
      while more
        invariant Find(root, Split(name)) == if more then Find(node, Split(key)) else Some(node)
        decreases more, |key|
      {
        var i := FindDot(key);
        SplitAt(key, i);
        assert i == |key| ==> key[..i] == key;
        var c := LookupChild(node, key[..i]);
        if c.None? {
          return None;
        }
        node := c.value;
        if i < |key| {
          assert Split(key)[1..] == Split(key[i + 1..]);
          key := key[i + 1..];
        } else {
          assert Split(key)[1..] == [];
          more := false;
        }
      }
      return Some(node);
    }

    method Get(name: string) returns (r: Option<Option<string>>)
      ensures r == ConfigTree.Get(root, name)
    {
      var node := GetNode(name);
      if node.None? {
        return None;
      }
      return Some(node.value.val);
    }

    /** The loop of gp_conf_get_node_or_create: down from the root, a node for every part of
        the name, the one that is there or a new one.  `spine` has these nodes. */
    method GetNodeOrCreate(name: string, final: bool) returns (spine: seq<Node>, path: seq<string>)
      ensures path == Split(name) && Descends(root, spine, path, final)
    {
      hide Descends, Split;
      var parent, key, more := root, name, true;
      spine, path := [root], [];
      Starts(root, final);
      assert [] + Split(name) == Split(name);
      while more
        invariant Descends(root, spine, path, final) && |spine| == |path| + 1 && parent == spine[|path|]
        invariant Split(name) == path + if more then Split(key) else []
        decreases more, |key|
      {
        var i := FindDot(key);
        var part := key[..i];
        SplitMore(path, key, i);
        var c := LookupChild(parent, part);
        if c.None? {
          c := Some(NewNode(part, final));
        }
        DescendsOn(root, spine, path, final, part, c.value);
        parent, spine, path := c.value, spine + [c.value], path + [part];
        if i < |key| {
          key := key[i + 1..];
        } else {
          more := false;
        }
      }
      assert path + [] == path;
    }

    /** Link the nodes of a spine to each other, from the last one up. */
    method Link(spine: seq<Node>, path: seq<string>, ghost final: bool, ghost val: string, last: Node) returns (n: Node)
      requires Descends(root, spine, path, final) && last == SetAt(spine[|path|], [], val, final)
      ensures n == SetAt(root, path, val, final)
    {
      n := last;
      var k := |path|;
      assert path[k..] == [];
      while k > 0
        invariant 0 <= k <= |path| && n == SetAt(spine[k], path[k..], val, final)
      {
        k := k - 1;
        DescendsAt(root, spine, path, final, k);
        assert path[k..][0] == path[k] && path[k..][1..] == path[k + 1..];
        var parent := spine[k];
        var c := LookupChild(parent, path[k]);
        if c.None? {
          n := parent.(children := parent.children + [n]);
        } else {
          n := parent.(children := Replace(parent.children, path[k], n));
        }
      }
      assert path[0..] == path;
    }

    method Set(name: string, val: string) returns (ok: bool)
      modifies this
      ensures (ok, root) == ConfigTree.Set(old(root), name, val, false)
      ensures old(Unique(root)) ==> Unique(root)
    {
      hide Unique, SetAt, Holds, Descends;
      if |name| >= NODE_NAME_MAX {
        return false;
      }
      var spine, path := GetNodeOrCreate(name, false);
      LastOfSpine(root, spine, path, false);
      var node := spine[|path|];
      SetLast(node, val, false);
      ok := !node.final;
      if ok {
        node := node.(val := Some(val));
      }
      ghost var before := root;
      root := Link(spine, path, false, val, node);
      if Unique(before) {
        SetPreserves(before, Split(name), val, false);
      }
    }

    method SetFinal(name: string, val: string) returns (ok: bool)
      modifies this
      ensures (ok, root) == ConfigTree.Set(old(root), name, val, true)
      ensures ok ==> Holds(root, Split(name), val)
    {
      hide SetAt, Holds, Descends;
      if |name| >= NODE_NAME_MAX {
        return false;
      }
      ghost var before := root;
      var spine, path := GetNodeOrCreate(name, true);
      LastOfSpine(root, spine, path, true);
      var node := spine[|path|];
      SetLast(node, val, true);
      node := node.(val := Some(val), final := true);
      root := Link(spine, path, true, val, node);
      ok := true;
      SetFinalHolds(before, Split(name), val);
    }

    /** gp_conf_yaml_load_string and gp_conf_yaml_load_file, after the file is read. */
    method Load(events: seq<Event>) returns (ok: bool)
      modifies this
      ensures (ok, root) == (Parse(events, old(root), false, 0).ok, Parse(events, old(root), false, 0).parent)
    {
      assert events[0..] == events;
      var node, next;
      ok, node, next := ParseEvents(events, 0, root, false, 0);
      root := node;
    }
  }
}
