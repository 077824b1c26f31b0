/**
 What setting and pruning do to the rest of the tree: what stays exactly as it was, what is
 made on the way, and what goes.
 */
module ConfigLaws {
  import opened Options
  import opened ConfigTree

  // ------------------------------------------------------------------- names

  /** No part of a name has a dot in it, so the parts are those between the dots. */
  lemma {:induction false} PartsHaveNoDots(name: string)
    ensures forall p | p in Split(name) :: '.' !in p
  {
    if name != "" {
      PartsHaveNoDots(name[1..]);
      var rest := Split(name[1..]);
      assert rest[0] in rest && forall p | p in rest[1..] :: p in rest;
    }
  }

  /** A lookup finds the first child of a name. */
  lemma {:induction false} LookupIsFirst(cs: seq<Node>, key: string)
    ensures Lookup(cs, key).None? <==> forall i | 0 <= i < |cs| :: cs[i].name != key
    ensures forall i | 0 <= i < |cs| && cs[i].name == key && (forall j | 0 <= j < i :: cs[j].name != key) ::
      Lookup(cs, key) == Some(cs[i])
  {
    if cs != [] && cs[0].name != key {
      LookupIsFirst(cs[1..], key);
      assert forall i | 0 < i < |cs| :: cs[i] == cs[1..][i - 1];
      assert forall i | 0 <= i < |cs| - 1 :: cs[1..][i] == cs[i + 1];
    }
  }

  // ------------------------------------------------------------------ setting


  /** A node's own fields. */
  predicate SameFields(n: Node, n': Node) {
    n'.name == n.name && n'.val == n.val && n'.isSeq == n.isSeq && n'.final == n.final
  }

  /** Setting a value at a path leaves every node that is not on the way to it as it was, with
      all its children; the nodes on the way keep their own fields, and the ones that were
      not there have no value. */
  lemma {:induction false} SetLeavesOthers(n: Node, path: seq<string>, val: string, final: bool, q: seq<string>)
    requires q != path
    ensures var was, now := Find(n, q), Find(SetAt(n, path, val, final), q);
      && (!(q <= path) ==> now == was)
      && (q <= path && was.Some? ==> now.Some? && SameFields(was.value, now.value))
      && (q <= path && was.None? ==> now.Some? && now.value.val == None && !now.value.isSeq && now.value.final == final)
    decreases |path|
  {
    if path == [] {
    } else if q != [] {
      var key := path[0];
      var c := Lookup(n.children, key);
      var base := if c.None? then NewNode(key, final) else c.value;
      var c' := SetAt(base, path[1..], val, final);
      LookupFacts(n.children, key);
      SetKeepsName(base, path[1..], val, final);
      if c.None? { LookupAppend(n.children, c', q[0]); } else { LookupReplace(n.children, key, c', q[0]); }
      if q[0] == key {
        assert q == [key] + q[1..] && path == [key] + path[1..];
        SetLeavesOthers(base, path[1..], val, final, q[1..]);
      }
    }
  }

  function Names(cs: seq<Node>): seq<string> {
    seq(|cs|, i requires 0 <= i < |cs| => cs[i].name)
  }

  /** The children stay in order, a new one behind them. */
  lemma SetKeepsOrder(n: Node, path: seq<string>, val: string, final: bool)
    requires path != []
    ensures Names(SetAt(n, path, val, final).children)
         == Names(n.children) + if Lookup(n.children, path[0]).None? then [path[0]] else []
  {
    var key := path[0];
    var c := Lookup(n.children, key);
    var base := if c.None? then NewNode(key, final) else c.value;
    LookupFacts(n.children, key);
    SetKeepsName(base, path[1..], val, final);
    if c.Some? {
      ReplaceKeepsNames(n.children, key, SetAt(base, path[1..], val, final));
    }
  }

  lemma {:induction false} ReplaceKeepsNames(cs: seq<Node>, key: string, c: Node)
    requires c.name == key
    ensures Names(Replace(cs, key, c)) == Names(cs)
  {
    if cs != [] && cs[0].name != key {
      ReplaceKeepsNames(cs[1..], key, c);
      assert Names(cs) == [cs[0].name] + Names(cs[1..]);
      assert Names(Replace(cs, key, c)) == [cs[0].name] + Names(Replace(cs[1..], key, c));
    }
  }

  /** Every other name reads as before; one that was not there reads as a node without a
      value if the name that is set lies below it. */
  lemma SetLeavesOtherNames(root: Node, name: string, val: string, final: bool, other: string)
    requires other != name
    ensures var root' := Set(root, name, val, final).1;
      && (Get(root, other).Some? ==> Get(root', other) == Get(root, other))
      && (Get(root, other).None? ==>
          var made := |name| < NODE_NAME_MAX && |other| < NODE_NAME_MAX && Split(other) <= Split(name);
          Get(root', other) == if made then Some(None) else None)
  {
    hide Find, SetAt;
    JoinSplit(name);
    JoinSplit(other);
    SetLeavesOthers(root, Split(name), val, final, Split(other));
  }

  // ------------------------------------------------------------------ pruning

  /** A final node lies below. */
  ghost predicate LeadsToFinal(n: Node) {
    exists q :: q != [] && Find(n, q).Some? && Find(n, q).value.final
  }

  /** On the way to a path, the node itself not counted, there is a final node. */
  predicate PassesFinal(n: Node, q: seq<string>)
    decreases |q|
  {
    q != [] &&
      var c := Lookup(n.children, q[0]);
      c.Some? && (c.value.final || PassesFinal(c.value, q[1..]))
  }

  /** What pruning a node leaves at a path below it: a final node with all that is below it,
      a node that leads to one without its value and without what leads nowhere, and
      nothing else. */
  ghost predicate Left(n: Node, q: seq<string>, now: Option<Node>) {
    var was := Find(n, q);
    if was.Some? && PassesFinal(n, q) then now == was
    else if was.Some? && LeadsToFinal(was.value) then
      now.Some? && now.value.val == None && now.value.name == was.value.name
      && now.value.isSeq == was.value.isSeq && !now.value.final
    else now == None
  }

  /** What pruning a node does to a node below it. */
  lemma {:induction false} PruneAt(n: Node, q: seq<string>)
    requires Unique(n) && q != []
    ensures var was := Find(n, q);
      Find(Prune(n), q) ==
        if was.Some? && PassesFinal(n, q) then was
        else if was.Some? && LeadsToFinal(was.value) then Some(Prune(was.value))
        else None
    decreases |q|
  {
    hide Unique, LeadsToFinal, Prune, PruneAll;
    var c := Lookup(n.children, q[0]);
    LookupFacts(n.children, q[0]);
    PrunedChild(n, q[0]);
    if c.Some? && !c.value.final {
      UniqueChild(n, c.value);
      PrunedHasChildren(c.value);
      if |q| > 1 {
        PruneAt(c.value, q[1..]);
        if Find(c.value, q[1..]).Some? {
          FinalAbove(c.value, q[1..]);
        }
      } else {
        assert q[1..] == [] && Find(c.value, q[1..]) == c && !PassesFinal(c.value, q[1..]);
      }
    }
  }

  /** Pruning leaves exactly the final nodes and the ones that lead to them. */
  lemma PruneExact(n: Node, q: seq<string>)
    requires Unique(n) && q != []
    ensures Left(n, q, Find(Prune(n), q))
  {
    hide Unique, LeadsToFinal, Prune;
    PruneAt(n, q);
    if Find(n, q).Some? {
      PruneFields(Find(n, q).value);
      if Find(n, q).value.final { FinalPasses(n, q); }
    }
  }

  /** A final node is passed on the way to it. */
  lemma {:induction false} FinalPasses(n: Node, q: seq<string>)
    requires q != [] && Find(n, q).Some? && Find(n, q).value.final
    ensures PassesFinal(n, q)
    decreases |q|
  {
    var c := Lookup(n.children, q[0]).value;
    if |q| == 1 {
      assert Find(c, q[1..]) == Some(c);
    } else if !c.final {
      FinalPasses(c, q[1..]);
    }
  }

  /** Pruning twice is pruning once. */
  lemma PruneTwice(n: Node)
    ensures Prune(Prune(n)) == Prune(n)
    decreases n, 1
  {
    PruneAllTwice(n.children);
  }

  lemma PruneAllTwice(cs: seq<Node>)
    ensures PruneAll(PruneAll(cs)) == PruneAll(cs)
    decreases cs
  {
    if cs != [] {
      PruneAllTwice(cs[1..]);
      PruneTwice(cs[0]);
      var r, c := PruneAll(cs[1..]), if cs[0].final then cs[0] else Prune(cs[0]);
      assert ([c] + r)[1..] == r && [] + r == r;
    }
  }

  lemma UniqueChild(n: Node, c: Node)
    requires Unique(n) && c in n.children
    ensures Unique(c)
  {
  }

  lemma PruneFields(n: Node)
    ensures Prune(n).name == n.name && Prune(n).val == None && Prune(n).isSeq == n.isSeq && Prune(n).final == n.final
  {
  }

  /** What a pruned node has for a child. */
  lemma PrunedChild(n: Node, key: string)
    requires Unique(n)
    ensures var c := Lookup(n.children, key);
      Lookup(Prune(n).children, key) ==
        if c.None? then None else if c.value.final then c
        else if Prune(c.value).children == [] then None else Some(Prune(c.value))
  {
    hide Unique;
    UniqueIsList(n);
    PrunedChildIn(n.children, key);
  }

  lemma {:induction false} PrunedChildIn(cs: seq<Node>, key: string)
    requires UniqueList(cs)
    ensures var c := Lookup(cs, key);
      Lookup(PruneAll(cs), key) ==
        if c.None? then None else if c.value.final then c
        else if Prune(c.value).children == [] then None else Some(Prune(c.value))
    decreases cs
  {
    hide Unique;
    if cs != [] {
      UniqueTail(cs);
      PrunedChildIn(cs[1..], key);
      LookupFacts(cs[1..], key);
      var r, c := PruneAll(cs[1..]), if cs[0].final then cs[0] else Prune(cs[0]);
      assert ([c] + r)[1..] == r && [] + r == r;
    }
  }

  /** Pruning leaves children exactly where a final node lies below. */
  lemma PrunedHasChildren(n: Node)
    requires Unique(n)
    ensures Prune(n).children != [] <==> LeadsToFinal(n)
    decreases n
  {
    hide Unique;
    if LeadsToFinal(n) {
      var q :| q != [] && Find(n, q).Some? && Find(n, q).value.final;
      var c := Lookup(n.children, q[0]);
      LookupFacts(n.children, q[0]);
      UniqueChild(n, c.value);
      PrunedChild(n, q[0]);
      if !c.value.final {
        assert Find(n, q) == Find(c.value, q[1..]) && q[1..] != [];
        PrunedHasChildren(c.value);
      }
    }
    if Prune(n).children != [] {
      var key := Prune(n).children[0].name;
      var c := Lookup(n.children, key);
      LookupFacts(n.children, key);
      LookupFacts(Prune(n).children, key);
      PrunedChild(n, key);
      UniqueChild(n, c.value);
      if c.value.final {
        ChildFinal(n, key);
      } else {
        PrunedHasChildren(c.value);
        ChildLeads(n, key);
      }
    }
  }

  lemma ChildFinal(n: Node, key: string)
    requires Lookup(n.children, key).Some? && Lookup(n.children, key).value.final
    ensures LeadsToFinal(n)
  {
    var q := [key];
    assert q[1..] == [] && Find(n, q) == Lookup(n.children, key);
  }

  lemma ChildLeads(n: Node, key: string)
    requires Lookup(n.children, key).Some? && LeadsToFinal(Lookup(n.children, key).value)
    ensures LeadsToFinal(n)
  {
    var c := Lookup(n.children, key).value;
    var p :| p != [] && Find(c, p).Some? && Find(c, p).value.final;
    var q := [key] + p;
    assert q[1..] == p && Find(n, q) == Find(c, p);
  }

  /** What lies at a path leads to what lies below it. */
  lemma {:induction false} FinalAbove(n: Node, q: seq<string>)
    requires q != [] && Find(n, q).Some?
    ensures PassesFinal(n, q) || LeadsToFinal(Find(n, q).value) ==> LeadsToFinal(n)
    decreases |q|
  {
    var c := Lookup(n.children, q[0]);
    if LeadsToFinal(Find(n, q).value) {
      var p :| p != [] && Find(Find(n, q).value, p).Some? && Find(Find(n, q).value, p).value.final;
      FindFurther(n, q, p);
      assert q + p != [];
    } else if PassesFinal(n, q) {
      if c.value.final {
        ChildFinal(n, q[0]);
      } else {
        assert PassesFinal(c.value, q[1..]) && Find(n, q) == Find(c.value, q[1..]);
        FinalAbove(c.value, q[1..]);
        ChildLeads(n, q[0]);
      }
    }
  }

  lemma {:induction false} FindFurther(n: Node, q: seq<string>, p: seq<string>)
    requires Find(n, q).Some?
    ensures Find(n, q + p) == Find(Find(n, q).value, p)
    decreases |q|
  {
    if q == [] {
      assert q + p == p;
    } else {
      FindFurther(Lookup(n.children, q[0]).value, q[1..], p);
      assert (q + p)[1..] == q[1..] + p;
    }
  }
}
