/**
 What loading a document means for the tree: below an empty node it gives exactly the tree
 that the document describes, and in any tree every name reads as the document says, unless
 it is final.
 */
module YamlMeaning {
  import opened Options
  import opened ConfigTree
  import opened ConfigLaws
  import opened YamlSpec
  import opened YamlDocs

  // ---------------------------------------------------------- the tree that is meant

  function Keys(fields: seq<Field>): seq<string>
    decreases fields
  {
    if fields == [] then []
    else
      (match fields[0]
       case Field(key, _) => [key]
       case Include(_, d) => if d.Fields? then Keys(d.fields) else [])
      + Keys(fields[1..])
  }

  predicate NoDuplicates(ks: seq<string>) {
    forall i, j :: 0 <= i < j < |ks| ==> ks[i] != ks[j]
  }

  /** No mapping has a key twice, and what is included in a mapping is one. */
  predicate Tidy(doc: Doc)
    decreases doc
  {
    match doc
    case Text(_) => true
    case Items(items) => forall d | d in items :: Tidy(d)
    case Fields(fields) => NoDuplicates(Keys(fields)) && forall x | x in fields :: FieldTidy(x)
    case File(_, d) => Tidy(d)
  }

  predicate FieldTidy(x: Field)
    decreases x
  {
    match x
    case Field(_, d) => Tidy(d)
    case Include(_, d) => d.Fields? && Tidy(d)
  }

  function Meant(name: string, doc: Doc): (n: Node)
    ensures n.name == name
    decreases doc
  {
    match doc
    case Text(v) => Node(name, Some(v), false, false, [])
    case Items(items) => Node(name, None, true, false, MeantItems(items, 0))
    case Fields(fields) => Node(name, None, false, false, MeantFields(fields))
    case File(_, d) => Meant(name, d)
  }

  function MeantFields(fields: seq<Field>): seq<Node>
    decreases fields
  {
    if fields == [] then []
    else
      (match fields[0]
       case Field(key, d) => [Meant(key, d)]
       case Include(_, d) => if d.Fields? then MeantFields(d.fields) else [])
      + MeantFields(fields[1..])
  }

  /** The items of a sequence are named by their numbers.  One that is a mapping is marked
      as a sequence, and its value is its first key. */
  function MeantItems(items: seq<Doc>, i: nat): seq<Node>
    decreases items
  {
    if items == [] then []
    else
      (match items[0]
       case Text(v) => [Node(Decimal(i), Some(v), false, false, [])]
       case Items(more) => [Node(Decimal(i), None, true, false, MeantItems(more, 0))]
       case Fields(fields) => [Node(Decimal(i), FirstName(MeantFields(fields)), true, false, MeantFields(fields))]
       case File(_, _) => [])
      + MeantItems(items[1..], i + 1)
  }

  function FirstName(cs: seq<Node>): Option<string> {
    if cs == [] then None else Some(cs[0].name)
  }

  /** No item of a sequence is an empty text or again a sequence. */
  predicate Flat(doc: Doc)
    decreases doc, 0
  {
    match doc
    case Text(_) => true
    case Items(items) => forall d | d in items :: ItemFlat(d)
    case Fields(fields) => forall x | x in fields :: FieldFlat(x)
    case File(_, d) => Flat(d)
  }

  predicate FieldFlat(x: Field)
    decreases x
  {
    match x
    case Field(_, d) => Flat(d)
    case Include(_, d) => Flat(d)
  }

  predicate ItemFlat(d: Doc)
    decreases d, 1
  {
    match d
    case Text(v) => v != ""
    case Fields(_) => Flat(d)
    case _ => false
  }

  // ------------------------------------------------------------------ mappings

  lemma {:induction false} MeantNames(fields: seq<Field>)
    ensures Names(MeantFields(fields)) == Keys(fields)
    decreases fields
  {
    hide Names;
    if fields == [] {
      NoNames();
    } else {
      MeantNames(fields[1..]);
      FirstField(fields);
      NamesAppend(MeantField(fields[0]), MeantFields(fields[1..]));
      match fields[0]
      case Field(key, d) => OneName(Meant(key, d));
      case Include(_, d) => if d.Fields? { MeantNames(d.fields); } else { NoNames(); }
    }
  }

  lemma NamesAppend(a: seq<Node>, b: seq<Node>)
    ensures Names(a + b) == Names(a) + Names(b)
  {
  }

  function KeysOf(x: Field): seq<string> {
    match x
    case Field(key, _) => [key]
    case Include(_, d) => if d.Fields? then Keys(d.fields) else []
  }

  function MeantField(x: Field): seq<Node> {
    match x
    case Field(key, d) => [Meant(key, d)]
    case Include(_, d) => if d.Fields? then MeantFields(d.fields) else []
  }

  /** A node with children added behind its own. */
  function Extended(n: Node, cs: seq<Node>): Node {
    n.(val := if n.isSeq && n.val.None? then FirstName(cs) else n.val, children := n.children + cs)
  }

  lemma ExtendedTwice(n: Node, a: seq<Node>, b: seq<Node>)
    ensures Extended(Extended(n, a), b) == Extended(n, a + b) && Extended(n, []) == n
  {
    assert n.children + (a + b) == (n.children + a) + b && n.children + [] == n.children;
  }

  /** New children go behind the others, in the order of the document. */
  lemma {:induction false} FieldsAppend(n: Node, fields: seq<Field>)
    requires NoDuplicates(Names(n.children) + Keys(fields))
    requires forall x | x in fields :: FieldTidy(x) && FieldFlat(x)
    ensures FillFields(n, fields) == Extended(n, MeantFields(fields))
    decreases fields, 0
  {
    hide MeantField, FillField, KeysOf, Names, NoDuplicates, Extended, FieldTidy, FieldFlat;
    if fields == [] {
      ExtendedTwice(n, [], []);
    } else {
      var x, rest := fields[0], fields[1..];
      assert x in fields && forall y | y in rest :: y in fields;
      FirstField(fields);
      SplitKeys(Names(n.children), KeysOf(x), Keys(rest));
      FieldAppends(n, x);
      ExtendedNames(n, x);
      FieldsAppend(FillField(n, x), rest);
      ExtendedTwice(n, MeantField(x), MeantFields(rest));
    }
  }

  lemma FirstField(fields: seq<Field>)
    requires fields != []
    ensures Keys(fields) == KeysOf(fields[0]) + Keys(fields[1..])
    ensures MeantFields(fields) == MeantField(fields[0]) + MeantFields(fields[1..])
  {
  }

  lemma ExtendedNames(n: Node, x: Field)
    ensures Names(Extended(n, MeantField(x)).children) == Names(n.children) + KeysOf(x)
  {
    hide Names;
    NamesAppend(n.children, MeantField(x));
    match x
    case Field(key, d) => OneName(Meant(key, d));
    case Include(_, d) => if d.Fields? { MeantNames(d.fields); } else { NoNames(); }
  }

  lemma OneName(c: Node)
    ensures Names([c]) == [c.name]
  {
  }

  lemma NoNames()
    ensures Names([]) == []
  {
  }

  lemma FieldAppends(n: Node, x: Field)
    requires NoDuplicates(Names(n.children) + KeysOf(x)) && FieldTidy(x) && FieldFlat(x)
    ensures FillField(n, x) == Extended(n, MeantField(x))
    decreases x
  {
    hide Meant, Fill, Names, NoDuplicates, FillFields, MeantFields;
    match x
    case Field(key, d) =>
      assert [key] + [] == [key];
      NewChild(n, key, []);
      FillNew(key, d);
    case Include(_, d) =>
      assert Tidy(d) && Flat(d);
      FillIsFields(n, d.fields);
      FieldsAppend(n, d.fields);
  }

  lemma NewChild(n: Node, key: string, more: seq<string>)
    requires NoDuplicates(Names(n.children) + ([key] + more))
    ensures Lookup(n.children, key).None? && Base(n, key) == NewNode(key, false)
  {
    var all := Names(n.children) + ([key] + more);
    LookupIsFirst(n.children, key);
    forall i | 0 <= i < |n.children| ensures n.children[i].name != key {
      assert all[i] == n.children[i].name && all[|n.children|] == key;
    }
  }

  lemma SplitKeys(a: seq<string>, b: seq<string>, c: seq<string>)
    requires NoDuplicates(a + (b + c))
    ensures NoDuplicates(a + b) && NoDuplicates((a + b) + c) && NoDuplicates(b)
  {
    assert a + (b + c) == (a + b) + c;
    var all := a + (b + c);
    assert forall i | 0 <= i < |a + b| :: (a + b)[i] == all[i];
    assert forall i | 0 <= i < |b| :: b[i] == all[|a| + i];
  }

  /** Below a new node a document gives the tree that it means. */
  lemma FillNew(key: string, doc: Doc)
    requires Tidy(doc) && Flat(doc)
    ensures Fill(NewNode(key, false), doc) == Meant(key, doc)
    decreases doc, 1
  {
    hide FillItems, FillFields, MeantFields, MeantItems;
    var n := NewNode(key, false);
    match doc
    case Text(_) =>
    case Items(items) =>
      ItemsAppend(n, items, 0);
      assert [] + MeantItems(items, 0) == MeantItems(items, 0);
    case Fields(fields) =>
      assert Names([]) + Keys(fields) == Keys(fields);
      NoNames();
      FieldsAppend(n, fields);
      assert [] + MeantFields(fields) == MeantFields(fields);
    case File(_, d) =>
      FillNew(key, d);
  }

  // ----------------------------------------------------------------- sequences

  lemma {:induction false} DecimalInjective(i: nat, j: nat)
    requires Decimal(i) == Decimal(j)
    ensures i == j
    decreases i
  {
    DecimalSize(i);
    DecimalSize(j);
    var a, b := Decimal(i), Decimal(j);
    assert a[|a| - 1] == (i % 10) as char + '0' && b[|b| - 1] == (j % 10) as char + '0';
    assert i % 10 == j % 10;
    if i >= 10 && j >= 10 {
      assert a[..|a| - 1] == Decimal(i / 10) && b[..|b| - 1] == Decimal(j / 10);
      DecimalInjective(i / 10, j / 10);
    }
  }

  lemma DecimalSize(i: nat)
    ensures |Decimal(i)| >= 1 && (|Decimal(i)| == 1 <==> i < 10)
  {
  }

  /** New items go behind the others, in order. */
  lemma {:induction false} ItemsAppend(n: Node, items: seq<Doc>, i: nat)
    requires forall d | d in items :: ItemFlat(d) && Tidy(d)
    requires forall j | j >= i :: Lookup(n.children, Decimal(j)).None?
    ensures FillItems(n, items, i) == n.(children := n.children + MeantItems(items, i))
    decreases items, 0
  {
    hide Decimal, MeantItems, MeantItem, FillItem, ItemFlat, Tidy;
    if items == [] {
      NothingMeant(i);
      assert n.children + [] == n.children;
    } else {
      var d, rest := items[0], items[1..];
      assert d in items && forall y | y in rest :: y in items;
      var c := MeantItem(d, i);
      ItemNew(n, d, i);
      FirstItem(items, i);
      var n' := n.(children := n.children + [c]);
      forall j | j >= i + 1 ensures Lookup(n'.children, Decimal(j)).None? {
        LookupAppend(n.children, c, Decimal(j));
        if Decimal(i) == Decimal(j) { DecimalInjective(i, j); }
      }
      ItemsAppend(n', rest, i + 1);
      assert (n.children + [c]) + MeantItems(rest, i + 1) == n.children + MeantItems(items, i);
    }
  }

  lemma NothingMeant(i: nat)
    ensures MeantItems([], i) == [] && ItemsWeight([]) == 0
  {
  }

  lemma FirstItem(items: seq<Doc>, i: nat)
    requires items != [] && ItemFlat(items[0])
    ensures MeantItems(items, i) == [MeantItem(items[0], i)] + MeantItems(items[1..], i + 1)
  {
    hide Decimal, MeantFields;
  }

  function MeantItem(d: Doc, i: nat): (n: Node)
    requires ItemFlat(d)
    ensures n.name == Decimal(i)
  {
    if d.Text? then Node(Decimal(i), Some(d.value), false, false, [])
    else Node(Decimal(i), FirstName(MeantFields(d.fields)), true, false, MeantFields(d.fields))
  }

  lemma ItemNew(n: Node, d: Doc, i: nat)
    requires ItemFlat(d) && Tidy(d) && Lookup(n.children, Decimal(i)).None?
    ensures FillItem(n, d, i) == (n.(children := n.children + [MeantItem(d, i)]), i + 1)
    decreases d, 2
  {
    hide Decimal, MeantFields, FillFields;
    RemoveAbsent(n.children, Decimal(i));
    if d.Fields? {
      var item := NewNode(Decimal(i), false).(isSeq := true);
      assert Names([]) + Keys(d.fields) == Keys(d.fields);
      FieldsAppend(item, d.fields);
      assert [] + MeantFields(d.fields) == MeantFields(d.fields);
    }
  }

  // -------------------------------------------------- when the tree is the one meant

  function Nodes(n: Node): nat
    decreases n
  {
    1 + AllNodes(n.children)
  }

  function AllNodes(cs: seq<Node>): nat
    decreases cs
  {
    if cs == [] then 0 else Nodes(cs[0]) + AllNodes(cs[1..])
  }

  /** How many nodes a document adds at most. */
  function Weight(doc: Doc): nat
    decreases doc
  {
    match doc
    case Text(_) => 0
    case Items(items) => ItemsWeight(items)
    case Fields(fields) => FieldsWeight(fields)
    case File(_, d) => Weight(d)
  }

  function FieldsWeight(fields: seq<Field>): nat
    decreases fields
  {
    if fields == [] then 0
    else
      (match fields[0]
       case Field(_, d) => 1 + Weight(d)
       case Include(_, d) => Weight(d))
      + FieldsWeight(fields[1..])
  }

  function ItemsWeight(items: seq<Doc>): nat
    decreases items
  {
    if items == [] then 0
    else
      (match items[0]
       case Text(v) => if v == "" then 0 else 1
       case Items(more) => ItemsWeight(more)
       case Fields(fields) => 1 + FieldsWeight(fields)
       case File(_, _) => 0)
      + ItemsWeight(items[1..])
  }

  lemma {:induction false} NodesAppend(a: seq<Node>, b: seq<Node>)
    ensures AllNodes(a + b) == AllNodes(a) + AllNodes(b)
  {
    if a == [] {
      assert a + b == b;
    } else {
      assert (a + b)[1..] == a[1..] + b;
      NodesAppend(a[1..], b);
    }
  }

  lemma {:induction false} NodesReplace(cs: seq<Node>, key: string, c: Node)
    requires Lookup(cs, key).Some?
    ensures AllNodes(Replace(cs, key, c)) + Nodes(Lookup(cs, key).value) == AllNodes(cs) + Nodes(c)
    ensures AllNodes(Remove(cs, key)) + Nodes(Lookup(cs, key).value) == AllNodes(cs)
  {
    if cs[0].name != key {
      NodesReplace(cs[1..], key, c);
      assert Replace(cs, key, c)[1..] == Replace(cs[1..], key, c);
      assert Remove(cs, key)[1..] == Remove(cs[1..], key);
    } else {
      assert Replace(cs, key, c)[1..] == cs[1..];
    }
  }

  lemma PruneNodes(n: Node)
    ensures Nodes(Prune(n)) <= Nodes(n)
    decreases n, 1
  {
    PruneAllNodes(n.children);
  }

  lemma PruneAllNodes(cs: seq<Node>)
    ensures AllNodes(PruneAll(cs)) <= AllNodes(cs)
    decreases cs
  {
    if cs != [] {
      PruneAllNodes(cs[1..]);
      PruneNodes(cs[0]);
      var r, c := PruneAll(cs[1..]), if cs[0].final then cs[0] else Prune(cs[0]);
      assert ([c] + r)[1..] == r && [] + r == r;
    }
  }

  lemma FillNodes(n: Node, doc: Doc)
    requires Written(doc)
    ensures Nodes(Fill(n, doc)) <= Nodes(n) + Weight(doc)
    decreases doc, 0
  {
    match doc
    case Text(_) =>
    case Items(items) => FillItemsNodes(n, items, 0);
    case Fields(fields) => FillFieldsNodes(n, fields);
    case File(_, d) => FillNodes(n, d);
  }

  lemma FillFieldsNodes(n: Node, fields: seq<Field>)
    requires forall x | x in fields :: FieldWritten(x)
    ensures Nodes(FillFields(n, fields)) <= Nodes(n) + FieldsWeight(fields)
    decreases fields
  {
    hide Nodes, Fill, FieldWritten;
    if fields != [] {
      var x := fields[0];
      assert x in fields && forall y | y in fields[1..] :: y in fields;
      FillFieldNodes(n, x);
      FillFieldsNodes(FillField(n, x), fields[1..]);
    }
  }

  lemma FillFieldNodes(n: Node, x: Field)
    requires FieldWritten(x)
    ensures Nodes(FillField(n, x)) <= Nodes(n) + (if x.Field? then 1 + Weight(x.doc) else Weight(x.doc))
    decreases x
  {
    hide Fill, Weight, Prune;
    match x
    case Field(key, d) =>
      var b := Base(n, key);
      FillNodes(b, d);
      BaseName(n, key);
      var was := Lookup(n.children, key);
      if was.Some? {
        PruneNodes(was.value);
        NodesReplace(n.children, key, Fill(b, d));
      } else {
        NodesAppend(n.children, [Fill(b, d)]);
      }
    case Include(_, d) =>
      FillNodes(n, d);
  }

  lemma FillItemsNodes(n: Node, items: seq<Doc>, i: nat)
    requires forall d | d in items :: !d.File? && Written(d)
    ensures Nodes(FillItems(n, items, i)) <= Nodes(n) + ItemsWeight(items)
    decreases items
  {
    hide Nodes, Written, FillItem;
    if items != [] {
      var d := items[0];
      assert d in items && forall y | y in items[1..] :: y in items;
      FillItemNodes(n, d, i);
      var (n', i') := FillItem(n, d, i);
      FillItemsNodes(n', items[1..], i');
      assert items == [d] + items[1..];
    }
  }

  lemma FillItemNodes(n: Node, d: Doc, i: nat)
    requires !d.File? && Written(d)
    ensures Nodes(FillItem(n, d, i).0) <= Nodes(n) + ItemsWeight([d])
    decreases d, 1
  {
    hide Decimal, FillFields;
    var name := Decimal(i);
    LookupFacts(n.children, name);
    match d
    case Text(v) =>
      var item := Node(name, Some(v), false, false, []);
      if v != "" { MovedNodes(n, item, 0, ChildOr(n, item)); }
    case Items(_) =>
      FillNodes(n, d);
    case Fields(fields) =>
      var c := ChildOr(n, NewNode(name, false));
      FillFieldsNodes(c.(isSeq := true), fields);
      MovedNodes(n, NewNode(name, false), FieldsWeight(fields), FillFields(c.(isSeq := true), fields));
  }

  /** Moving an item to the end adds a node at most. */
  lemma MovedNodes(n: Node, item: Node, more: nat, c: Node)
    requires item.children == [] && c.name == item.name && Nodes(c) <= Nodes(ChildOr(n, item)) + more
    ensures Nodes(MoveToEnd(n, c)) <= Nodes(n) + 1 + more
  {
    NodesAppend(Remove(n.children, c.name), [c]);
    if Lookup(n.children, c.name).None? {
      RemoveAbsent(n.children, c.name);
    } else {
      NodesReplace(n.children, c.name, c);
    }
  }

  /** The tree that is meant has a node for everything that adds one, and more if some item
      is an empty text or a sequence. */
  lemma MeantNodes(name: string, doc: Doc)
    requires Written(doc) && Tidy(doc)
    ensures Nodes(Meant(name, doc)) >= 1 + Weight(doc) + if Flat(doc) then 0 else 1
    decreases doc, 0
  {
    match doc
    case Text(_) =>
    case Items(items) => MeantItemsNodes(items, 0);
    case Fields(fields) => MeantFieldsNodes(fields);
    case File(_, d) => MeantNodes(name, d);
  }

  lemma MeantFieldsNodes(fields: seq<Field>)
    requires forall x | x in fields :: FieldWritten(x) && FieldTidy(x)
    ensures AllNodes(MeantFields(fields))
         >= FieldsWeight(fields) + if forall x | x in fields :: FieldFlat(x) then 0 else 1
    decreases fields
  {
    hide Meant, FieldWritten, FieldTidy, FieldFlat;
    if fields != [] {
      var x := fields[0];
      assert x in fields && forall y | y in fields[1..] :: y in fields;
      MeantFieldsNodes(fields[1..]);
      MeantFieldNodes(x);
      FirstField(fields);
      NodesAppend(MeantField(x), MeantFields(fields[1..]));
      assert forall y | y in fields :: y == x || y in fields[1..];
    }
  }

  lemma MeantFieldNodes(x: Field)
    requires FieldWritten(x) && FieldTidy(x)
    ensures AllNodes(MeantField(x))
         >= (if x.Field? then 1 + Weight(x.doc) else Weight(x.doc)) + if FieldFlat(x) then 0 else 1
    decreases x
  {
    match x
    case Field(key, d) =>
      MeantNodes(key, d);
      assert AllNodes([Meant(key, d)]) == Nodes(Meant(key, d));
    case Include(_, d) =>
      assert Written(d) && Tidy(d);
      MeantFieldsNodes(d.fields);
  }

  lemma MeantItemsNodes(items: seq<Doc>, i: nat)
    requires forall d | d in items :: !d.File? && Written(d) && Tidy(d)
    ensures AllNodes(MeantItems(items, i))
         >= ItemsWeight(items) + if forall d | d in items :: ItemFlat(d) then 0 else 1
    decreases items
  {
    hide MeantItems, ItemsWeight, Written, Tidy, ItemFlat;
    if items == [] {
      NothingMeant(i);
    } else {
      var d := items[0];
      assert d in items && forall y | y in items[1..] :: y in items;
      MeantItemsNodes(items[1..], i + 1);
      MeantItemNodes(d, i);
      NodesAppend(MeantItems([d], i), MeantItems(items[1..], i + 1));
      ItemByItem(items, i);
      assert forall y | y in items :: y == d || y in items[1..];
    }
  }

  lemma ItemByItem(items: seq<Doc>, i: nat)
    requires items != []
    ensures MeantItems(items, i) == MeantItems([items[0]], i) + MeantItems(items[1..], i + 1)
    ensures ItemsWeight(items) == ItemsWeight([items[0]]) + ItemsWeight(items[1..])
  {
    hide Decimal, MeantFields, FieldsWeight;
    assert [items[0]][1..] == [];
  }

  lemma MeantItemNodes(d: Doc, i: nat)
    requires !d.File? && Written(d) && Tidy(d)
    ensures AllNodes(MeantItems([d], i)) >= ItemsWeight([d]) + if ItemFlat(d) then 0 else 1
    decreases d, 1
  {
    hide Decimal;
    match d
    case Text(_) =>
    case Items(more) => MeantItemsNodes(more, 0);
    case Fields(fields) => MeantFieldsNodes(fields);
  }

  /** A document loaded at an empty root gives exactly the tree that it means, if and only if
      it has no item that is an empty text or a sequence. */
  lemma LoadsWhatIsMeant(name: string, doc: Doc)
    requires Collection(doc) && Written(doc) && Tidy(doc) && Fits(doc, RECURSION_LIMIT)
    ensures Parse(Stream(doc), NewNode(name, false), false, 0) == Outcome(true, Meant(name, doc), []) <==> Flat(doc)
  {
    hide Parse, Fill, Meant, Flat, Tidy, Written, Fits, Nodes, Stream;
    var root := NewNode(name, false);
    UniqueNew(name, false);
    StreamRead(doc, root);
    if Flat(doc) {
      FillNew(name, doc);
    } else {
      FillNodes(root, doc);
      MeantNodes(name, doc);
      OneNode(name);
    }
  }

  lemma OneNode(name: string)
    ensures Nodes(NewNode(name, false)) == 1
  {
  }

  /** A document is loaded exactly when it is nested no deeper than the limit. */
  lemma LoadsUnlessDeep(root: Node, doc: Doc)
    requires Collection(doc) && Written(doc) && Unique(root)
    ensures Parse(Stream(doc), root, false, 0).ok <==> Fits(doc, RECURSION_LIMIT)
  {
    StreamRead(doc, root);
  }
}
