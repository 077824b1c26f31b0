/**
 What a document does to a tree that is there already.  Every name that the document gives
 a text reads as that text, unless it is final; what a key overrides is gone, but for final
 nodes and those on the way to one; and all that is not mentioned stays as it was.
 */
module YamlReading {
  import opened Options
  import opened ConfigTree
  import opened ConfigLaws
  import opened YamlSpec
  import opened YamlDocs
  import opened YamlMeaning

  // -------------------------------------------------------- the places of a document

  /** What a mapping has for a key, in itself or in a file included in it. */
  function EntryOf(fields: seq<Field>, key: string): Option<Doc>
    decreases fields
  {
    if fields == [] then None
    else
      match fields[0]
      case Field(k, d) => if k == key then Some(d) else EntryOf(fields[1..], key)
      case Include(_, d) =>
        var e := if d.Fields? then EntryOf(d.fields, key) else None;
        if e.Some? then e else EntryOf(fields[1..], key)
  }

  /** What a document has at a path of keys. */
  function At(doc: Doc, path: seq<string>): Option<Doc>
    decreases |path|, doc
  {
    match doc
    case File(_, d) => At(d, path)
    case Fields(fields) =>
      if path == [] then Some(doc)
      else
        var d := EntryOf(fields, path[0]);
        if d.None? then None else At(d.value, path[1..])
    case _ => if path == [] then Some(doc) else None
  }

  lemma {:induction false} EntryIsKey(fields: seq<Field>, key: string)
    ensures EntryOf(fields, key).Some? <==> key in Keys(fields)
    decreases fields
  {
    if fields != [] {
      EntryIsKey(fields[1..], key);
      FirstField(fields);
      if fields[0].Include? && fields[0].doc.Fields? {
        EntryIsKey(fields[0].doc.fields, key);
      }
    }
  }

  lemma {:induction false} EntryTidy(fields: seq<Field>, key: string)
    requires EntryOf(fields, key).Some? && forall x | x in fields :: FieldTidy(x)
    ensures Tidy(EntryOf(fields, key).value)
    decreases fields
  {
    var x := fields[0];
    assert x in fields && forall y | y in fields[1..] :: y in fields;
    match x
    case Field(k, d) => if k != key { EntryTidy(fields[1..], key); }
    case Include(_, d) =>
      assert Tidy(d);
      if EntryOf(d.fields, key).Some? { EntryTidy(d.fields, key); } else { EntryTidy(fields[1..], key); }
  }

  // ------------------------------------------------------------------ mappings

  lemma PutLookup(n: Node, c: Node, key: string)
    ensures Lookup(PutChild(n, c).children, key) == if key == c.name then Some(c) else Lookup(n.children, key)
  {
    if Lookup(n.children, c.name).None? {
      LookupAppend(n.children, c, key);
    } else {
      LookupReplace(n.children, c.name, c, key);
    }
  }

  /** What one entry of a mapping has for a key. */
  function EntryIn(x: Field, key: string): Option<Doc> {
    match x
    case Field(k, d) => if k == key then Some(d) else None
    case Include(_, d) => if d.Fields? then EntryOf(d.fields, key) else None
  }

  lemma EntryFirst(fields: seq<Field>, key: string)
    requires fields != []
    ensures EntryOf(fields, key)
         == if EntryIn(fields[0], key).Some? then EntryIn(fields[0], key) else EntryOf(fields[1..], key)
  {
  }

  lemma NoEntry(key: string)
    ensures EntryOf([], key) == None
  {
  }

  /** What a mapping does to the children of a node: each key's child is filled, all others
      stay. */
  lemma {:induction false} FieldsLookup(n: Node, fields: seq<Field>, key: string)
    requires NoDuplicates(Keys(fields)) && forall x | x in fields :: FieldTidy(x)
    ensures Filled(n, FillFields(n, fields), key, EntryOf(fields, key))
    decreases fields, 0
  {
    hide Fill, Base, Lookup, NoDuplicates, FieldTidy, EntryIn, EntryOf, FillField;
    if fields == [] {
      NoEntry(key);
    } else {
      var x, rest := fields[0], fields[1..];
      assert x in fields && forall y | y in rest :: y in fields;
      FirstField(fields);
      InOnePart(KeysOf(x), Keys(rest), key);
      EntryFirst(fields, key);
      EntryIsKey(rest, key);
      FieldLookup(n, x, key);
      SameBase(n, FillField(n, x), key);
      FieldsLookup(FillField(n, x), rest, key);
    }
  }

  /** The child of a key is filled with its document, if it has one, or left as it was. */
  ghost predicate Filled(n: Node, n': Node, key: string, e: Option<Doc>) {
    Lookup(n'.children, key) == if e.None? then Lookup(n.children, key) else Some(Fill(Base(n, key), e.value))
  }

  lemma SameBase(n: Node, n': Node, key: string)
    ensures Lookup(n'.children, key) == Lookup(n.children, key) ==> Base(n', key) == Base(n, key)
  {
    hide Prune;
  }

  lemma FieldLookup(n: Node, x: Field, key: string)
    requires FieldTidy(x)
    ensures Filled(n, FillField(n, x), key, EntryIn(x, key)) && (EntryIn(x, key).Some? <==> key in KeysOf(x))
    decreases x
  {
    hide Fill, Base, Lookup, NoDuplicates;
    match x
    case Field(k, d) =>
      BaseName(n, k);
      PutLookup(n, Fill(Base(n, k), d), key);
    case Include(_, d) =>
      TidyFields(x);
      FillIsFields(n, d.fields);
      EntryIsKey(d.fields, key);
      FieldsLookup(n, d.fields, key);
  }

  lemma TidyFields(x: Field)
    requires FieldTidy(x) && x.Include?
    ensures x.doc.Fields? && NoDuplicates(Keys(x.doc.fields)) && forall y | y in x.doc.fields :: FieldTidy(y)
  {
    assert Tidy(x.doc);
  }

  lemma InOnePart(a: seq<string>, b: seq<string>, key: string)
    requires NoDuplicates(a + b)
    ensures key in a ==> key !in b
    ensures NoDuplicates(a) && NoDuplicates(b)
  {
    assert forall i | 0 <= i < |a| :: (a + b)[i] == a[i];
    assert forall j | 0 <= j < |b| :: (a + b)[|a| + j] == b[j];
  }

  // ----------------------------------------------------- names with a text

  /** What lies at a path below the child that a key stands for, before its value. */
  lemma BaseAt(n: Node, key: string, p: seq<string>)
    requires Unique(n)
    ensures var was, b := Find(n, [key] + p), Find(Base(n, key), p);
      && ((b.Some? && b.value.final) <==> (was.Some? && was.value.final))
      && (b.Some? && b.value.final ==> b == was)
  {
    hide Unique, Prune;
    var c := Lookup(n.children, key);
    LookupFacts(n.children, key);
    assert ([key] + p)[1..] == p;
    if c.Some? && !c.value.final {
      UniqueChild(n, c.value);
      if p == [] {
        PruneFields(c.value);
      } else {
        PruneExact(c.value, p);
        if Find(c.value, p).Some? && Find(c.value, p).value.final { FinalPasses(c.value, p); }
      }
    }
  }

  lemma BaseUnique(n: Node, key: string)
    requires Unique(n)
    ensures Unique(Base(n, key))
  {
    hide Unique;
    var c := Lookup(n.children, key);
    LookupFacts(n.children, key);
    if c.None? {
      UniqueNew(key, false);
    } else {
      UniqueChild(n, c.value);
      if !c.value.final { PrunePreserves(c.value); }
    }
  }

  /** One step down: what is at a path of the filled node is at its rest in the filled child. */
  lemma StepDown(n: Node, fields: seq<Field>, path: seq<string>)
    requires Tidy(Fields(fields)) && path != []
    ensures var e := EntryOf(fields, path[0]);
      Find(Fill(n, Fields(fields)), path)
        == if e.None? then Find(n, path) else Find(Fill(Base(n, path[0]), e.value), path[1..])
  {
    hide Fill, Base;
    FillIsFields(n, fields);
    FieldsLookup(n, fields, path[0]);
  }

  /** Every name that a document gives a text reads as that text, unless it is final. */
  lemma {:induction false} TextReads(n: Node, doc: Doc, path: seq<string>, v: string)
    requires Unique(n) && Tidy(doc) && At(doc, path) == Some(Text(v))
    ensures var was, now := Find(n, path), Find(Fill(n, doc), path);
      && now.Some?
      && (if was.Some? && was.value.final then now.value.final && now.value.val == was.value.val
          else !now.value.final && now.value.val == Some(v))
    decreases |path|, doc
  {
    hide Unique, Base, EntryOf;
    match doc
    case Text(_) =>
    case File(_, d) =>
      TextReads(n, d, path, v);
    case Fields(fields) =>
      var d := EntryOf(fields, path[0]).value;
      EntryTidy(fields, path[0]);
      StepDown(n, fields, path);
      BaseUnique(n, path[0]);
      TextReads(Base(n, path[0]), d, path[1..], v);
      assert path == [path[0]] + path[1..];
      BaseAt(n, path[0], path[1..]);
  }

  // ---------------------------------------------------- what is overridden

  /** A document that says nothing about a key. */
  predicate Silent(d: Doc, key: string) {
    d.Text? || (d.Fields? && EntryOf(d.fields, key).None?)
  }

  lemma {:induction false} FillResolved(n: Node, doc: Doc, d: Doc)
    requires At(doc, []) == Some(d)
    ensures Fill(n, doc) == Fill(n, d)
    decreases doc
  {
    if doc.File? {
      FillResolved(n, doc.doc, d);
    }
  }

  lemma {:induction false} TidyResolved(doc: Doc, d: Doc)
    requires At(doc, []) == Some(d) && Tidy(doc)
    ensures Tidy(d)
    decreases doc
  {
    if doc.File? {
      TidyResolved(doc.doc, d);
    }
  }

  lemma SilentStays(n: Node, d: Doc, q: seq<string>)
    requires Tidy(d) && q != [] && Silent(d, q[0])
    ensures Find(Fill(n, d), q) == Find(n, q)
  {
    if d.Fields? {
      StepDown(n, d.fields, q);
    }
  }

  /** Below a name that a document mentions, what the document is silent about is what
      pruning leaves there; a final node keeps all that is below it. */
  lemma {:induction false} Overrides(n: Node, doc: Doc, m: seq<string>, q: seq<string>)
    requires Unique(n) && Tidy(doc) && m != [] && q != []
    requires At(doc, m).Some? && Silent(At(doc, m).value, q[0])
    ensures var was := Find(n, m);
      Find(Fill(n, doc), m + q) ==
        if was.None? then None
        else if was.value.final then Find(was.value, q)
        else Find(Prune(was.value), q)
    decreases |m|, doc
  {
    hide Unique, Base, EntryOf, Prune, Fill, Tidy;
    match doc
    case Text(_) =>
    case Items(_) =>
    case File(_, d) =>
      TidyFile(doc);
      FillFile(n, doc);
      Overrides(n, d, m, q);
    case Fields(fields) =>
      var key, d := m[0], EntryOf(fields, m[0]).value;
      TidyEntry(fields, key);
      StepDown(n, fields, m + q);
      assert (m + q)[1..] == m[1..] + q && m == [key] + m[1..];
      BaseUnique(n, key);
      if |m| == 1 {
        assert m[1..] == [] && [] + q == q;
        FillResolved(Base(n, key), d, At(doc, m).value);
        TidyResolved(d, At(doc, m).value);
        SilentStays(Base(n, key), At(doc, m).value, q);
        FirstOverride(n, key, q);
      } else {
        Overrides(Base(n, key), d, m[1..], q);
        FurtherOverride(n, key, m[1..], q);
      }
  }

  lemma TidyFile(doc: Doc)
    requires doc.File? && Tidy(doc)
    ensures Tidy(doc.doc)
  {
  }

  lemma FillFile(n: Node, doc: Doc)
    requires doc.File?
    ensures Fill(n, doc) == Fill(n, doc.doc)
  {
  }

  lemma TidyEntry(fields: seq<Field>, key: string)
    requires Tidy(Fields(fields)) && EntryOf(fields, key).Some?
    ensures Tidy(EntryOf(fields, key).value)
  {
    EntryTidy(fields, key);
  }

  lemma FirstOverride(n: Node, key: string, q: seq<string>)
    requires q != []
    ensures var was := Find(n, [key]);
      Find(Base(n, key), q) ==
        if was.None? then None
        else if was.value.final then Find(was.value, q)
        else Find(Prune(was.value), q)
  {
    hide Prune;
    assert [key][1..] == [];
  }

  lemma FurtherOverride(n: Node, key: string, m: seq<string>, q: seq<string>)
    requires Unique(n) && m != [] && q != []
    ensures var was, b := Find(n, [key] + m), Find(Base(n, key), m);
      (if b.None? then None else if b.value.final then Find(b.value, q) else Find(Prune(b.value), q))
      == (if was.None? then None else if was.value.final then Find(was.value, q) else Find(Prune(was.value), q))
  {
    hide Unique, Prune, PruneAll, LeadsToFinal;
    var c := Lookup(n.children, key);
    LookupFacts(n.children, key);
    assert ([key] + m)[1..] == m;
    if c.Some? && !c.value.final {
      UniqueChild(n, c.value);
      PruneAt(c.value, m);
      if Find(c.value, m).Some? {
        var x := Find(c.value, m).value;
        PruneTwice(x);
        PruneFields(x);
        if x.final { FinalPasses(c.value, m); }
        UniqueAt(c.value, m);
        PrunedHasChildren(x);
      }
    }
  }

  lemma {:induction false} UniqueAt(n: Node, q: seq<string>)
    requires Unique(n) && Find(n, q).Some?
    ensures Unique(Find(n, q).value)
    decreases |q|
  {
    hide Unique;
    if q != [] {
      var c := Lookup(n.children, q[0]);
      LookupFacts(n.children, q[0]);
      UniqueChild(n, c.value);
      UniqueAt(c.value, q[1..]);
    }
  }

  // ------------------------------------------------------------------ sequences

  /** The item of a number, as it is put at the end.  A child that is there already keeps its
      value, and its other children. */
  function ItemAt(n: Node, d: Doc, i: nat): (c: Node)
    requires ItemFlat(d)
  {
    if d.Text? then ChildOr(n, Node(Decimal(i), Some(d.value), false, false, []))
    else FillFields(ChildOr(n, NewNode(Decimal(i), false)).(isSeq := true), d.fields)
  }

  function Placed(n: Node, items: seq<Doc>, i: nat): seq<Node>
    requires forall d | d in items :: ItemFlat(d)
  {
    seq(|items|, x requires 0 <= x < |items| => ItemAt(n, items[x], i + x))
  }

  /** The name of an item with a number from `i` to below `j`. */
  predicate IsNumber(key: string, i: nat, j: nat) {
    exists x: nat :: i <= x < j && key == Decimal(x)
  }

  /** The children that are not named by such a number, in order. */
  ghost function Others(cs: seq<Node>, i: nat, j: nat): seq<Node> {
    if cs == [] then []
    else (if IsNumber(cs[0].name, i, j) then [] else [cs[0]]) + Others(cs[1..], i, j)
  }

  /** A sequence leaves the children that it does not number where they are, and puts its
      items behind them, in order. */
  lemma {:induction false} ItemsInOrder(n: Node, items: seq<Doc>, i: nat)
    requires NoDuplicates(Names(n.children)) && forall d | d in items :: ItemFlat(d)
    ensures FillItems(n, items, i).children == Others(n.children, i, i + |items|) + Placed(n, items, i)
    decreases items
  {
    hide ItemFlat, ItemAt, FillItem, MoveToEnd, Names, NoDuplicates, Placed, Others;
    if items == [] {
      OthersAll(n.children, i);
      NonePlaced(n, i);
    } else {
      var d, rest := items[0], items[1..];
      assert d in items && forall y | y in rest :: y in items;
      var c := ItemAt(n, d, i);
      ItemPlaced(n, d, i);
      var n1 := MoveToEnd(n, c);
      MovedNames(n, c);
      ItemsInOrder(n1, rest, i + 1);
      MovedOthers(n, c, i, i + |items|);
      PlacedFirst(n, items, i);
      assert (Others(n.children, i, i + |items|) + [c]) + Placed(n1, rest, i + 1)
          == Others(n.children, i, i + |items|) + Placed(n, items, i);
    }
  }

  lemma NonePlaced(n: Node, i: nat)
    ensures Placed(n, [], i) == [] && forall cs: seq<Node> :: cs + [] == cs
  {
  }

  lemma PlacedFirst(n: Node, items: seq<Doc>, i: nat)
    requires items != [] && forall d | d in items :: ItemFlat(d)
    ensures ItemAt(n, items[0], i).name == Decimal(i)
    ensures forall d | d in items[1..] :: d in items
    ensures var c := ItemAt(n, items[0], i);
      Placed(n, items, i) == [c] + Placed(MoveToEnd(n, c), items[1..], i + 1)
  {
    hide Decimal, ItemFlat, ItemAt, MoveToEnd;
    var c, rest := ItemAt(n, items[0], i), items[1..];
    assert items[0] in items && forall d | d in rest :: d in items;
    ItemPlaced(n, items[0], i);
    forall x | 0 <= x < |rest| ensures ItemAt(MoveToEnd(n, c), rest[x], i + 1 + x) == ItemAt(n, rest[x], i + 1 + x) {
      SameItem(n, c, rest[x], i, i + 1 + x);
    }
  }

  lemma ItemPlaced(n: Node, d: Doc, i: nat)
    requires ItemFlat(d)
    ensures FillItem(n, d, i) == (MoveToEnd(n, ItemAt(n, d, i)), i + 1) && ItemAt(n, d, i).name == Decimal(i)
  {
    hide Decimal, FillFields, MoveToEnd;
    LookupFacts(n.children, Decimal(i));
  }

  lemma {:induction false} OthersAll(cs: seq<Node>, i: nat)
    ensures Others(cs, i, i) == cs
  {
    if cs != [] {
      OthersAll(cs[1..], i);
    }
  }

  lemma {:induction false} RemovedNames(cs: seq<Node>, key: string)
    requires NoDuplicates(Names(cs))
    ensures NoDuplicates(Names(Remove(cs, key)))
    ensures forall x | x in Names(Remove(cs, key)) :: x in Names(cs) && x != key
  {
    if cs != [] {
      TailNames(cs);
      RemovedNames(cs[1..], key);
      if cs[0].name != key {
        var r := Remove(cs[1..], key);
        assert Names([cs[0]] + r) == [cs[0].name] + Names(r);
        assert Names(cs) == [cs[0].name] + Names(cs[1..]);
      }
    }
  }

  lemma TailNames(cs: seq<Node>)
    requires cs != [] && NoDuplicates(Names(cs))
    ensures Names(cs) == [cs[0].name] + Names(cs[1..]) && NoDuplicates(Names(cs[1..])) && cs[0].name !in Names(cs[1..])
  {
    assert Names(cs) == [cs[0].name] + Names(cs[1..]);
    InOnePart([cs[0].name], Names(cs[1..]), cs[0].name);
  }

  lemma MovedNames(n: Node, c: Node)
    requires NoDuplicates(Names(n.children))
    ensures NoDuplicates(Names(MoveToEnd(n, c).children))
  {
    RemovedNames(n.children, c.name);
    var r := Names(Remove(n.children, c.name));
    NamesAppend(Remove(n.children, c.name), [c]);
    assert Names([c]) == [c.name];
    forall i | 0 <= i < |r| ensures r[i] != c.name {
      assert r[i] in r;
    }
  }

  lemma MovedOthers(n: Node, c: Node, i: nat, j: nat)
    requires NoDuplicates(Names(n.children)) && i < j && c.name == Decimal(i)
    ensures Others(MoveToEnd(n, c).children, i + 1, j) == Others(n.children, i, j) + [c]
  {
    hide Decimal, IsNumber;
    var r := Remove(n.children, c.name);
    OthersAppend(r, c, i + 1, j);
    NotLater(i, j);
    OthersRemoved(n.children, i, j);
  }

  lemma NotLater(i: nat, j: nat)
    ensures !IsNumber(Decimal(i), i + 1, j)
  {
    hide Decimal;
    forall x: nat | i + 1 <= x < j ensures Decimal(i) != Decimal(x) {
      if Decimal(i) == Decimal(x) { DecimalInjective(i, x); }
    }
  }

  lemma {:induction false} OthersAppend(cs: seq<Node>, c: Node, i: nat, j: nat)
    ensures Others(cs + [c], i, j) == Others(cs, i, j) + if IsNumber(c.name, i, j) then [] else [c]
  {
    hide IsNumber;
    if cs == [] {
      assert [] + [c] == [c] && [c][1..] == [];
    } else {
      OthersAppend(cs[1..], c, i, j);
      assert (cs + [c])[1..] == cs[1..] + [c];
    }
  }

  lemma {:induction false} OthersRemoved(cs: seq<Node>, i: nat, j: nat)
    requires NoDuplicates(Names(cs)) && i < j
    ensures Others(Remove(cs, Decimal(i)), i + 1, j) == Others(cs, i, j)
  {
    hide Decimal, IsNumber, Names, NoDuplicates;
    if cs != [] {
      TailNames(cs);
      NumberFrom(cs[0].name, i, j);
      if cs[0].name == Decimal(i) {
        NoneNumbered(cs[1..], i, j);
      } else {
        OthersRemoved(cs[1..], i, j);
      }
    }
  }

  lemma NumberFrom(key: string, i: nat, j: nat)
    requires i < j
    ensures IsNumber(key, i, j) <==> key == Decimal(i) || IsNumber(key, i + 1, j)
  {
    hide Decimal;
  }

  lemma {:induction false} NoneNumbered(cs: seq<Node>, i: nat, j: nat)
    requires Decimal(i) !in Names(cs) && i < j
    ensures Others(cs, i + 1, j) == Others(cs, i, j)
  {
    hide Decimal, IsNumber;
    if cs != [] {
      assert Names(cs) == [cs[0].name] + Names(cs[1..]);
      NumberFrom(cs[0].name, i, j);
      NoneNumbered(cs[1..], i, j);
    }
  }

  /** An item is the same whatever items before it were moved. */
  lemma SameItem(n: Node, c: Node, d: Doc, i: nat, x: nat)
    requires ItemFlat(d) && c.name == Decimal(i) && i < x
    ensures ItemAt(MoveToEnd(n, c), d, x) == ItemAt(n, d, x)
  {
    hide Decimal, FillFields;
    if Decimal(i) == Decimal(x) { DecimalInjective(i, x); }
    LookupAppend(Remove(n.children, c.name), c, Decimal(x));
    LookupRemove(n.children, c.name, Decimal(x));
  }

  /** The numbers of items are written in decimal, without leading zeros. */
  function Value(s: string): nat {
    if s == "" then 0
    else 10 * Value(s[..|s| - 1]) + (if '0' <= s[|s| - 1] <= '9' then (s[|s| - 1] - '0') as nat else 0)
  }

  lemma {:induction false} DecimalReads(i: nat)
    ensures Value(Decimal(i)) == i && forall c | c in Decimal(i) :: '0' <= c <= '9'
    ensures i > 0 ==> Decimal(i)[0] != '0'
    decreases i
  {
    DecimalSize(i);
    if i >= 10 {
      DecimalReads(i / 10);
      assert Decimal(i)[..|Decimal(i)| - 1] == Decimal(i / 10);
    } else {
      assert Decimal(i)[..0] == "" && Value("") == 0;
    }
  }

  // ------------------------------------------------------------ loading a document

  /** Loading a mapping: a name that it gives a text reads as the text unless it is final;
      below a name that it mentions, what it is silent about is pruned, unless the name is
      final; and with all other names nothing happens. */
  lemma LoadReads(root: Node, fields: seq<Field>, path: seq<string>, q: seq<string>)
    requires var doc := Fields(fields); Written(doc) && Tidy(doc) && Fits(doc, RECURSION_LIMIT)
    requires Unique(root) && q != []
    ensures var doc := Fields(fields); var r := Parse(Stream(doc), root, false, 0);
      var was, now, d := Find(root, path), Find(r.parent, path), At(doc, path);
      && r.ok
      && (d.Some? && d.value.Text? ==>
          now.Some? && (if was.Some? && was.value.final then now.value.final && now.value.val == was.value.val
                        else !now.value.final && now.value.val == Some(d.value.value)))
      && (path != [] && d.Some? && Silent(d.value, q[0]) ==>
          Find(r.parent, path + q) ==
            if was.None? then None else if was.value.final then Find(was.value, q) else Find(Prune(was.value), q))
      && (q[0] !in Keys(fields) ==> Find(r.parent, q) == Find(root, q))
  {
    hide Parse, Stream, Fill, Unique, Tidy, Fits, Written, Find, Prune, EntryOf, Silent;
    var doc := Fields(fields);
    StreamRead(doc, root);
    var d := At(doc, path);
    if d.Some? && d.value.Text? {
      TextReads(root, doc, path, d.value.value);
    }
    if path != [] && d.Some? && Silent(d.value, q[0]) {
      Overrides(root, doc, path, q);
    }
    StepDown(root, fields, q);
    EntryIsKey(fields, q[0]);
  }

  /** Loading a sequence. */
  lemma LoadOrders(root: Node, items: seq<Doc>)
    requires var doc := Items(items); Written(doc) && Flat(doc) && Fits(doc, RECURSION_LIMIT)
    requires Unique(root)
    ensures var r := Parse(Stream(Items(items)), root, false, 0);
      && r.ok && r.parent.isSeq && r.parent.val == root.val
      && r.parent.children == Others(root.children, 0, |items|) + Placed(root, items, 0)
  {
    hide Parse, Stream, Fits, Written, FillItems;
    StreamRead(Items(items), root);
    FillIsItems(root, items);
    assert NoDuplicates(Names(root.children));
    ItemsInOrder(root, items, 0);
    ItemsKeepValue(root, items, 0);
  }

  lemma {:induction false} ItemsKeepValue(n: Node, items: seq<Doc>, i: nat)
    requires forall d | d in items :: ItemFlat(d)
    ensures FillItems(n, items, i).val == n.val && FillItems(n, items, i).final == n.final
    decreases items
  {
    hide Decimal, ItemFlat, ItemAt, FillItem;
    if items != [] {
      assert items[0] in items && forall y | y in items[1..] :: y in items;
      ItemPlaced(n, items[0], i);
      ItemsKeepValue(MoveToEnd(n, ItemAt(n, items[0], i)), items[1..], i + 1);
    }
  }

  // ---------------------------------------------------------------- failures

  /** A document of another version, or of none, changes nothing and fails. */
  lemma VersionNeeded(version: Option<(int, int)>, events: seq<Event>, root: Node)
    requires version != Some((1, 1))
    ensures Parse([StreamStart, DocumentStart(version)] + events, root, false, 0) == Outcome(false, root, events)
  {
    var all := [StreamStart, DocumentStart(version)] + events;
    assert all[1..] == [DocumentStart(version)] + events && all[1..][1..] == events;
    assert Simple(Frame(root, None, Key, 0), StreamStart, false) == Some(Frame(root, None, Key, 0));
    LoopStep(StreamStart, all[1..], Frame(root, None, Key, 0), false, 1);
    assert [StreamStart] + all[1..] == all;
  }

  /** More events behind a run that went well are left unread. */
  lemma LoopExtends(a: seq<Event>, b: seq<Event>, f: Frame, inseq: bool, rlevel: nat)
    requires Loop(a, f, inseq, rlevel).ok
    ensures var r := Loop(a, f, inseq, rlevel);
      Loop(a + b, f, inseq, rlevel) == Outcome(true, r.parent, r.rest + b)
    decreases Size(a), 0
  {
    hide Simple, WithCurrent, Current, OpenItem, Closed, Included, Target;
    var e, rest := a[0], a[1..];
    assert (a + b)[1..] == rest + b && (a + b)[0] == e;
    if Ends(e) {
    } else if e.SequenceStart? {
      ParseExtends(rest, b, Current(f), true, rlevel);
      var r := Parse(rest, Current(f), true, rlevel);
      LoopExtends(r.rest, b, WithCurrent(f, r.parent.(isSeq := true)).(state := Key), inseq, rlevel);
    } else if e.MappingStart? {
      var f' := if inseq then OpenItem(f) else f;
      ParseExtends(rest, b, Current(f'), false, rlevel);
      var r := Parse(rest, Current(f'), false, rlevel);
      LoopExtends(r.rest, b, Closed(f', r.parent, inseq).(state := Key), inseq, rlevel);
    } else if Includes(f, e, inseq) {
      var r := Parse(e.file.events, Current(Target(f)), false, 0);
      LoopExtends(rest, b, Included(f, r.parent), inseq, rlevel);
    } else {
      LoopExtends(rest, b, Simple(f, e, inseq).value, inseq, rlevel);
    }
  }

  lemma ParseExtends(a: seq<Event>, b: seq<Event>, parent: Node, inseq: bool, rlevel: nat)
    requires Parse(a, parent, inseq, rlevel).ok
    ensures var r := Parse(a, parent, inseq, rlevel);
      Parse(a + b, parent, inseq, rlevel) == Outcome(true, r.parent, r.rest + b)
    decreases Size(a), 1
  {
    LoopExtends(a, b, Frame(parent, None, Key, 0), inseq, rlevel + 1);
  }

  /** A file that is cut off anywhere fails. */
  lemma CutOffFails(root: Node, doc: Doc, events: seq<Event>)
    requires Collection(doc) && Written(doc) && Unique(root) && events < Stream(doc)
    ensures !Parse(events, root, false, 0).ok
  {
    hide Parse, Stream, Fill, Unique, Fits, Written;
    StreamRead(doc, root);
    var more := Stream(doc)[|events|..];
    assert events + more == Stream(doc);
    if Parse(events, root, false, 0).ok {
      ParseExtends(events, more, root, false, 0);
    }
  }

  /** A file that is missing where it is to be included fails. */
  lemma MissingFails(f: Frame, e: Event, rest: seq<Event>, inseq: bool, rlevel: nat)
    requires Includes(f, e, inseq) && e.file.Missing?
    ensures Loop([e] + rest, f, inseq, rlevel) == Outcome(false, f.parent, rest)
  {
    assert ([e] + rest)[1..] == rest;
  }
}
