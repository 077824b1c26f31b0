/**
 The configuration tree: named nodes with a value, a mark for sequences, a mark for final
 values, and children in order.
 */
module ConfigTree {
  import opened Options

  datatype Node = Node(name: string, val: Option<string>, isSeq: bool, final: bool, children: seq<Node>)

  const NODE_NAME_MAX := 1024

  // ---------------------------------------------------------------- children

  function Lookup(cs: seq<Node>, key: string): Option<Node> {
    if cs == [] then None
    else if cs[0].name == key then Some(cs[0])
    else Lookup(cs[1..], key)
  }

  /** The children with the first one of a name replaced. */
  function Replace(cs: seq<Node>, key: string, c: Node): (r: seq<Node>)
    ensures |r| == |cs|
  {
    if cs == [] then []
    else if cs[0].name == key then [c] + cs[1..]
    else [cs[0]] + Replace(cs[1..], key, c)
  }

  /** The children without the first one of a name. */
  function Remove(cs: seq<Node>, key: string): seq<Node> {
    if cs == [] then []
    else if cs[0].name == key then cs[1..]
    else [cs[0]] + Remove(cs[1..], key)
  }

  // ------------------------------------------------------------------- names

  /** A name split at its dots. */
  function Split(name: string): (path: seq<string>)
    ensures path != []
  {
    if name == "" then [""]
    else if name[0] == '.' then [""] + Split(name[1..])
    else
      var rest := Split(name[1..]);
      [[name[0]] + rest[0]] + rest[1..]
  }

  function Join(path: seq<string>): string {
    if path == [] then ""
    else if |path| == 1 then path[0]
    else path[0] + "." + Join(path[1..])
  }

  lemma {:induction false} JoinSplit(name: string)
    ensures Join(Split(name)) == name
  {
    if name != "" {
      JoinSplit(name[1..]);
      var rest := Split(name[1..]);
      if name[0] == '.' {
        assert ([""] + rest)[1..] == rest;
        assert "" + "." + Join(rest) == name;
      } else {
        var path := [[name[0]] + rest[0]] + rest[1..];
        assert path[1..] == rest[1..];
        if |rest| > 1 {
          assert [name[0]] + (rest[0] + "." + Join(rest[1..])) == ([name[0]] + rest[0]) + "." + Join(path[1..]);
        }
      }
    }
  }

  // -------------------------------------------------------- getting, setting

  /** gp_conf_get_node below a node. */
  function Find(n: Node, path: seq<string>): Option<Node>
    decreases |path|
  {
    if path == [] then Some(n)
    else
      var c := Lookup(n.children, path[0]);
      if c.None? then None else Find(c.value, path[1..])
  }

  function NewNode(name: string, final: bool): Node {
    Node(name, None, false, final, [])
  }

  /** gp_conf_get_node_or_create followed by giving the node a value: missing nodes are added
      behind their siblings; a final node keeps its value unless the new one is final too. */
  function SetAt(n: Node, path: seq<string>, val: string, final: bool): Node
    decreases |path|
  {
    if path == [] then
      if final then n.(val := Some(val), final := true)
      else if n.final then n
      else n.(val := Some(val))
    else
      var c := Lookup(n.children, path[0]);
      if c.None? then n.(children := n.children + [SetAt(NewNode(path[0], final), path[1..], val, final)])
      else n.(children := Replace(n.children, path[0], SetAt(c.value, path[1..], val, final)))
  }

  /** gp_conf_set and gp_conf_set_final: whether they succeed, and the tree. */
  function Set(root: Node, name: string, val: string, final: bool): (bool, Node) {
    if |name| >= NODE_NAME_MAX then (false, root)
    else
      var was := Find(root, Split(name));
      (final || was.None? || !was.value.final, SetAt(root, Split(name), val, final))
  }

  /** gp_conf_get: the value of a node, if there is one. */
  function Get(root: Node, name: string): Option<Option<string>> {
    if |name| >= NODE_NAME_MAX then None
    else
      var n := Find(root, Split(name));
      if n.None? then None else Some(n.value.val)
  }

  /** gp_conf_node_prune: children that are neither final nor lead to a final node go, and
      so does the value. */
  function Prune(n: Node): Node {
    n.(children := PruneAll(n.children), val := None)
  }

  function PruneAll(cs: seq<Node>): seq<Node> {
    if cs == [] then []
    else if cs[0].final then [cs[0]] + PruneAll(cs[1..])
    else
      var c := Prune(cs[0]);
      (if c.children == [] then [] else [c]) + PruneAll(cs[1..])
  }

  // -------------------------------------------------------------- invariants

  /** No two siblings have the same name. */
  ghost predicate Unique(n: Node) {
    && (forall i, j :: 0 <= i < j < |n.children| ==> n.children[i].name != n.children[j].name)
    && (forall c | c in n.children :: Unique(c))
  }

  /** The node at a path is final and has a value. */
  predicate Holds(n: Node, path: seq<string>, v: string)
    decreases |path|
  {
    if path == [] then n.final && n.val == Some(v)
    else
      var c := Lookup(n.children, path[0]);
      c.Some? && Holds(c.value, path[1..], v)
  }

  /** A change of a node that keeps its name, its final values and the uniqueness of names;
      `spared` is the one path that may be given a new final value. */
  ghost predicate Preserves(n: Node, n': Node, spared: Option<seq<string>>) {
    && n'.name == n.name
    && Unique(n')
    && forall path, v :: Holds(n, path, v) && spared != Some(path) ==> Holds(n', path, v)
  }

  lemma {:induction false} LookupFacts(cs: seq<Node>, key: string)
    ensures var c := Lookup(cs, key);
      && (c.Some? ==> c.value in cs && c.value.name == key)
      && (c.None? ==> forall x | x in cs :: x.name != key)
  {
    if cs != [] {
      LookupFacts(cs[1..], key);
    }
  }

  lemma {:induction false} LookupReplace(cs: seq<Node>, key: string, c: Node, k: string)
    requires c.name == key && Lookup(cs, key).Some?
    ensures Lookup(Replace(cs, key, c), k) == if k == key then Some(c) else Lookup(cs, k)
  {
    if cs[0].name != key {
      LookupReplace(cs[1..], key, c, k);
      assert Replace(cs, key, c)[1..] == Replace(cs[1..], key, c);
    } else {
      assert Replace(cs, key, c)[1..] == cs[1..];
    }
  }

  lemma {:induction false} LookupAppend(cs: seq<Node>, c: Node, k: string)
    ensures Lookup(cs + [c], k) ==
      if Lookup(cs, k).Some? then Lookup(cs, k) else if c.name == k then Some(c) else None
  {
    if cs != [] {
      LookupAppend(cs[1..], c, k);
      assert (cs + [c])[1..] == cs[1..] + [c];
    }
  }

  lemma {:induction false} LookupRemove(cs: seq<Node>, key: string, k: string)
    requires k != key
    ensures Lookup(Remove(cs, key), k) == Lookup(cs, k)
  {
    if cs != [] {
      LookupRemove(cs[1..], key, k);
      if cs[0].name != key {
        assert Remove(cs, key)[1..] == Remove(cs[1..], key);
      }
    }
  }

  /** Sibling lists without repeated names. */
  ghost predicate UniqueList(cs: seq<Node>) {
    && (forall i, j :: 0 <= i < j < |cs| ==> cs[i].name != cs[j].name)
    && (forall c | c in cs :: Unique(c))
  }

  lemma UniqueIsList(n: Node)
    ensures Unique(n) <==> UniqueList(n.children)
  {
  }

  lemma {:induction false} ReplaceUnique(cs: seq<Node>, key: string, c: Node)
    requires UniqueList(cs) && Unique(c) && c.name == key
    ensures UniqueList(Replace(cs, key, c))
    ensures forall x | x in Replace(cs, key, c) :: exists y :: y in cs && y.name == x.name
  {
    hide Unique;
    if cs != [] {
      if cs[0].name == key {
        assert cs[0] in cs;
        assert forall x | x in cs[1..] :: x in cs;
      } else {
        assert UniqueList(cs[1..]) by {
          assert forall x | x in cs[1..] :: x in cs;
        }
        ReplaceUnique(cs[1..], key, c);
        var r := Replace(cs[1..], key, c);
        forall x | x in [cs[0]] + r ensures exists y :: y in cs && y.name == x.name {
          if x == cs[0] {
            assert cs[0] in cs;
          } else {
            var y :| y in cs[1..] && y.name == x.name;
            assert y in cs;
          }
        }
        forall x | x in r ensures x.name != cs[0].name {
          var y :| y in cs[1..] && y.name == x.name;
        }
        ConsUnique(cs[0], r);
      }
    }
  }

  lemma ConsUnique(c: Node, cs: seq<Node>)
    requires UniqueList(cs) && Unique(c) && forall x | x in cs :: x.name != c.name
    ensures UniqueList([c] + cs)
  {
    hide Unique;
    var r := [c] + cs;
    forall i, j | 0 <= i < j < |r| ensures r[i].name != r[j].name {
      assert r[j] == cs[j - 1] && cs[j - 1] in cs;
    }
  }

  lemma AppendUnique(cs: seq<Node>, c: Node)
    requires UniqueList(cs) && Unique(c) && forall x | x in cs :: x.name != c.name
    ensures UniqueList(cs + [c])
  {
    hide Unique;
    forall i | 0 <= i < |cs| ensures cs[i].name != c.name {
      assert cs[i] in cs;
    }
  }

  lemma {:induction false} RemoveUnique(cs: seq<Node>, key: string)
    requires UniqueList(cs)
    ensures UniqueList(Remove(cs, key)) && forall x | x in Remove(cs, key) :: x in cs && x.name != key
  {
    hide Unique;
    if cs != [] {
      assert forall x | x in cs[1..] :: x in cs;
      if cs[0].name == key {
        forall x | x in cs[1..] ensures x.name != key {
          var i :| 0 <= i < |cs[1..]| && cs[1..][i] == x;
          assert cs[i + 1] == x;
        }
      } else {
        RemoveUnique(cs[1..], key);
        forall x | x in Remove(cs[1..], key) ensures x.name != cs[0].name {
          var i :| 0 <= i < |cs[1..]| && cs[1..][i] == x;
          assert cs[i + 1] == x;
        }
        assert cs[0] in cs;
        ConsUnique(cs[0], Remove(cs[1..], key));
      }
    }
  }

  // ----------------------------------------------- changes of a single child

  lemma ReplacePreserves(n: Node, key: string, c: Node, c': Node, spared: Option<seq<string>>)
    requires Unique(n) && Lookup(n.children, key) == Some(c) && Preserves(c, c', spared)
    ensures Preserves(n, n.(children := Replace(n.children, key, c')), Under(key, spared))
  {
    hide Unique;
    var n' := n.(children := Replace(n.children, key, c'));
    LookupFacts(n.children, key);
    UniqueIsList(n);
    ReplaceUnique(n.children, key, c');
    UniqueIsList(n');
    forall path, v | Holds(n, path, v) && Under(key, spared) != Some(path) ensures Holds(n', path, v) {
      if path != [] {
        LookupReplace(n.children, key, c', path[0]);
        assert [path[0]] + path[1..] == path;
      }
    }
  }

  /** A path of a child as a path of its parent. */
  function Under(key: string, path: Option<seq<string>>): Option<seq<string>> {
    if path.None? then None else Some([key] + path.value)
  }

  lemma AppendPreserves(n: Node, c: Node, spared: Option<seq<string>>)
    requires Unique(n) && Unique(c) && Lookup(n.children, c.name).None?
    ensures Preserves(n, n.(children := n.children + [c]), spared)
  {
    hide Unique;
    var n' := n.(children := n.children + [c]);
    LookupFacts(n.children, c.name);
    UniqueIsList(n);
    AppendUnique(n.children, c);
    UniqueIsList(n');
    forall path, v | Holds(n, path, v) ensures Holds(n', path, v) {
      if path != [] {
        LookupAppend(n.children, c, path[0]);
      }
    }
  }

  /** Taking a child out and putting it back, changed, behind the others. */
  lemma MovePreserves(n: Node, key: string, c: Node, c': Node)
    requires Unique(n) && Lookup(n.children, key) == Some(c) && Preserves(c, c', None)
    ensures Preserves(n, n.(children := Remove(n.children, key) + [c']), None)
  {
    hide Unique;
    var rest := Remove(n.children, key);
    var n' := n.(children := rest + [c']);
    LookupFacts(n.children, key);
    UniqueIsList(n);
    RemoveUnique(n.children, key);
    AppendUnique(rest, c');
    UniqueIsList(n');
    forall path, v | Holds(n, path, v) ensures Holds(n', path, v) {
      if path != [] {
        LookupAppend(rest, c', path[0]);
        if path[0] == key {
          LookupFacts(rest, key);
        } else {
          LookupRemove(n.children, key, path[0]);
        }
      }
    }
  }

  lemma Transitive(a: Node, b: Node, c: Node, spared: Option<seq<string>>)
    requires Preserves(a, b, spared) && Preserves(b, c, spared)
    ensures Preserves(a, c, spared)
  {
  }

  // ------------------------------------------------------------------ pruning

  /** Pruning keeps every final value below the node. */
  lemma PrunePreserves(n: Node)
    requires Unique(n) && !n.final
    ensures Preserves(n, Prune(n), None)
    decreases n, 1
  {
    hide Unique;
    UniqueIsList(n);
    PruneAllUnique(n.children);
    UniqueIsList(Prune(n));
    forall path, v | Holds(n, path, v) ensures Holds(Prune(n), path, v) {
      PruneAllHolds(n.children, path, v);
    }
  }

  lemma {:induction false} PruneAllNames(cs: seq<Node>, name: string)
    requires forall y | y in cs :: y.name != name
    ensures forall x | x in PruneAll(cs) :: x.name != name
  {
    if cs != [] {
      PruneAllNames(cs[1..], name);
      assert cs[0] in cs;
    }
  }

  lemma PruneAllUnique(cs: seq<Node>)
    requires UniqueList(cs)
    ensures UniqueList(PruneAll(cs))
    decreases cs
  {
    hide Unique;
    if cs != [] {
      UniqueTail(cs);
      PruneAllUnique(cs[1..]);
      PruneAllNames(cs[1..], cs[0].name);
      var c, r := if cs[0].final then cs[0] else Prune(cs[0]), PruneAll(cs[1..]);
      if !cs[0].final {
        PrunePreserves(cs[0]);
      }
      ConsUnique(c, r);
      assert PruneAll(cs) == r || PruneAll(cs) == [c] + r;
      assert [] + r == r;
    }
  }

  lemma UniqueTail(cs: seq<Node>)
    requires UniqueList(cs) && cs != []
    ensures Unique(cs[0]) && UniqueList(cs[1..]) && forall x | x in cs[1..] :: x.name != cs[0].name
  {
    hide Unique;
    assert cs[0] in cs && forall x | x in cs[1..] :: x in cs;
    forall x | x in cs[1..] ensures x.name != cs[0].name {
      var i :| 0 <= i < |cs[1..]| && cs[1..][i] == x;
      assert cs[i + 1] == x;
    }
  }

  lemma PruneAllHolds(cs: seq<Node>, path: seq<string>, v: string)
    requires UniqueList(cs) && path != []
    requires var c := Lookup(cs, path[0]); c.Some? && Holds(c.value, path[1..], v)
    ensures var c := Lookup(PruneAll(cs), path[0]); c.Some? && Holds(c.value, path[1..], v)
    decreases cs
  {
    hide Unique;
    assert cs[0] in cs && forall x | x in cs[1..] :: x in cs;
    var r := PruneAll(cs[1..]);
    var c := if cs[0].final then cs[0] else Prune(cs[0]);
    assert [] + r == r && ([c] + r)[1..] == r;
    if cs[0].name == path[0] {
      if !cs[0].final {
        PrunePreserves(cs[0]);
        assert Holds(c, path[1..], v);
        assert c.children != [];
      }
    } else {
      PruneAllHolds(cs[1..], path, v);
    }
  }

  // ----------------------------------------------------------------- setting

  /** Setting a value keeps all final values, but for the one that a final value replaces. */
  lemma {:induction false} SetPreserves(n: Node, path: seq<string>, val: string, final: bool)
    requires Unique(n)
    ensures Preserves(n, SetAt(n, path, val, final), if final then Some(path) else None)
    decreases |path|
  {
    hide Unique, Holds;
    if path == [] {
      ValuePreserves(n, SetAt(n, path, val, final), if final then Some([]) else None);
    } else {
      var c := Lookup(n.children, path[0]);
      LookupFacts(n.children, path[0]);
      UniqueIsList(n);
      assert [path[0]] + path[1..] == path;
      if c.None? {
        var added := NewNode(path[0], final);
        UniqueNew(path[0], final);
        SetPreserves(added, path[1..], val, final);
        AppendPreserves(n, SetAt(added, path[1..], val, final), if final then Some(path) else None);
      } else {
        SetPreserves(c.value, path[1..], val, final);
        var c' := SetAt(c.value, path[1..], val, final);
        ReplacePreserves(n, path[0], c.value, c', if final then Some(path[1..]) else None);
      }
    }
  }

  lemma UniqueNew(name: string, final: bool)
    ensures Unique(NewNode(name, final))
  {
  }

  /** A change of a node's own fields. */
  lemma ValuePreserves(n: Node, n': Node, spared: Option<seq<string>>)
    requires Unique(n) && n'.name == n.name && n'.children == n.children
    requires n.final && n.val.Some? && spared != Some([]) ==> n'.final && n'.val == n.val
    ensures Preserves(n, n', spared)
  {
    hide Unique;
    UniqueIsList(n);
    UniqueIsList(n');
  }

  /** After a final value was set at a path, it is there. */
  lemma {:induction false} SetFinalHolds(n: Node, path: seq<string>, val: string)
    ensures Holds(SetAt(n, path, val, true), path, val)
    decreases |path|
  {
    if path != [] {
      var c := Lookup(n.children, path[0]);
      LookupFacts(n.children, path[0]);
      if c.None? {
        var c' := SetAt(NewNode(path[0], true), path[1..], val, true);
        SetFinalHolds(NewNode(path[0], true), path[1..], val);
        SetKeepsName(NewNode(path[0], true), path[1..], val, true);
        LookupAppend(n.children, c', path[0]);
      } else {
        SetFinalHolds(c.value, path[1..], val);
        SetKeepsName(c.value, path[1..], val, true);
        LookupReplace(n.children, path[0], SetAt(c.value, path[1..], val, true), path[0]);
      }
    }
  }

  lemma SetKeepsName(n: Node, path: seq<string>, val: string, final: bool)
    ensures SetAt(n, path, val, final).name == n.name
  {
  }

  lemma {:induction false} HoldsFinds(n: Node, path: seq<string>, v: string)
    requires Holds(n, path, v)
    ensures Find(n, path).Some? && Find(n, path).value.val == Some(v) && Find(n, path).value.final
    decreases |path|
  {
    if path != [] {
      HoldsFinds(Lookup(n.children, path[0]).value, path[1..], v);
    }
  }

  /** What is at a path after a value was set there. */
  lemma {:induction false} FindAfterSet(n: Node, path: seq<string>, val: string, final: bool)
    ensures var was, now := Find(n, path), Find(SetAt(n, path, val, final), path);
      && now.Some?
      && (final ==> now.value.val == Some(val) && now.value.final)
      && (!final && was.Some? && was.value.final ==> now == was)
      && (!final && !(was.Some? && was.value.final) ==> now.value.val == Some(val) && !now.value.final)
    decreases |path|
  {
    if path != [] {
      var c := Lookup(n.children, path[0]);
      LookupFacts(n.children, path[0]);
      if c.None? {
        var added := NewNode(path[0], final);
        FindAfterSet(added, path[1..], val, final);
        SetKeepsName(added, path[1..], val, final);
        LookupAppend(n.children, SetAt(added, path[1..], val, final), path[0]);
        if path[1..] != [] {
          assert Find(added, path[1..]).None?;
        }
      } else {
        FindAfterSet(c.value, path[1..], val, final);
        SetKeepsName(c.value, path[1..], val, final);
        LookupReplace(n.children, path[0], SetAt(c.value, path[1..], val, final), path[0]);
      }
    }
  }

  /** Setting a value succeeds exactly when the name is short enough and not final; then the
      value can be read back, and otherwise what was there stays. */
  lemma SetThenGet(root: Node, name: string, val: string)
    ensures var (ok, root') := Set(root, name, val, false);
      && (ok <==> |name| < NODE_NAME_MAX &&
                  !(Find(root, Split(name)).Some? && Find(root, Split(name)).value.final))
      && (ok ==> Get(root', name) == Some(Some(val)))
      && (!ok ==> Get(root', name) == Get(root, name))
  {
    hide SetAt, Find;
    FindAfterSet(root, Split(name), val, false);
  }
}
