/** `XmlDsigWorkaround.FixDocument`: before canonicalisation, the
    attributes in the `xml:` namespace (`xml:lang`, `xml:space`, ...) are
    moved off the elements a transform leaves out of its node set and
    stamped on the nearest retained descendants, so that the framework's
    own inheritance of those attributes has nothing left to propagate.

    The node set is given by the tree paths of its elements. The walk keeps
    an accumulator of pending `xml:` attributes keyed by local name; it is
    copied before it is changed, so each element only affects its own
    subtree.

    Two variants share the walk. As written, a retained element receives
    every pending attribute through `SetAttributeNode`, which replaces an
    attribute of the same name that the element already carries. The
    corrected variant keeps the element's own value, as Canonical XML 1.0
    section 2.4 prescribes for inherited `xml:` attributes. */
module XmlAttributeFix {
  import opened Wrappers
  import opened Seqs
  import opened Dictionaries
  import opened Xml
  import opened Filter2

  predicate IsXmlAttribute(a: Attribute) {
    a.ns == XmlNamespaceUri
  }

  predicate NotXmlAttribute(a: Attribute) {
    !IsXmlAttribute(a)
  }

  /** A DOM attribute list: no two attributes share namespace and name. */
  predicate DistinctNames(attrs: seq<Attribute>) {
    forall i, j :: 0 <= i < j < |attrs| ==> attrs[i].ns != attrs[j].ns || attrs[i].local != attrs[j].local
  }

  /** The attributes that are not in the `xml:` namespace. */
  function OtherAttributes(attrs: seq<Attribute>): (r: seq<Attribute>)
    ensures forall i :: 0 <= i < |r| ==> !IsXmlAttribute(r[i])
  {
    Filter(attrs, NotXmlAttribute)
  }

  /** A position one further along. */
  function Shifted(r: Option<nat>): Option<nat> {
    match r
    case None => None
    case Some(j) => Some(j + 1)
  }

  /** Position of `xml:k`, if present. */
  function XmlIndex(attrs: seq<Attribute>, k: string): (r: Option<nat>)
    ensures r.None? <==> forall i :: 0 <= i < |attrs| ==> !(IsXmlAttribute(attrs[i]) && attrs[i].local == k)
    ensures r.Some? ==> r.value < |attrs| && IsXmlAttribute(attrs[r.value]) && attrs[r.value].local == k
  {
    if |attrs| == 0 then None
    else if IsXmlAttribute(attrs[0]) && attrs[0].local == k then Some(0)
    else Shifted(XmlIndex(attrs[1..], k))
  }

  /** The value of `xml:k`, if present. */
  function XmlValue(attrs: seq<Attribute>, k: string): Option<string> {
    match XmlIndex(attrs, k)
    case None => None
    case Some(i) => Some(attrs[i].value)
  }

  lemma XmlValueCons(a: Attribute, rest: seq<Attribute>, k: string)
    ensures XmlValue([a] + rest, k) == if IsXmlAttribute(a) && a.local == k then Some(a.value) else XmlValue(rest, k)
  {
    assert ([a] + rest)[1..] == rest;
  }

  lemma FilterUpdate(s: seq<Attribute>, i: nat, x: Attribute)
    requires i < |s| && IsXmlAttribute(s[i]) && IsXmlAttribute(x)
    ensures OtherAttributes(s[i := x]) == OtherAttributes(s)
  {
    if i > 0 {
      FilterUpdate(s[1..], i - 1, x);
      assert s[i := x][1..] == s[1..][i - 1 := x];
    }
  }

  /** `SetAttributeNode` with a new `xml:k` attribute: an attribute of the
      same name is replaced in place, otherwise it is appended. */
  function SetXmlAttribute(attrs: seq<Attribute>, k: string, v: string): (r: seq<Attribute>)
    ensures OtherAttributes(r) == OtherAttributes(attrs)
  {
    var a := Attribute(XmlNamespaceUri, k, v);
    match XmlIndex(attrs, k)
    case None =>
      FilterConcat(attrs, [a], NotXmlAttribute);
      attrs + [a]
    case Some(i) =>
      FilterUpdate(attrs, i, a);
      attrs[i := a]
  }

  /** After `SetAttributeNode`, `xml:k` reads `v` and every other `xml:`
      attribute reads as before. */
  lemma SetXmlAttributeValue(attrs: seq<Attribute>, k: string, v: string, q: string)
    ensures XmlValue(SetXmlAttribute(attrs, k, v), q) == if q == k then Some(v) else XmlValue(attrs, q)
  {
    var a := Attribute(XmlNamespaceUri, k, v);
    match XmlIndex(attrs, k)
    case None =>
      XmlIndexAppend(attrs, a, q);
    case Some(i) =>
      XmlIndexUpdate(attrs, i, a, q);
  }

  lemma XmlIndexAppend(attrs: seq<Attribute>, a: Attribute, q: string)
    requires IsXmlAttribute(a) && XmlIndex(attrs, a.local).None?
    ensures XmlIndex(attrs + [a], q) == if q == a.local then Some(|attrs|) else XmlIndex(attrs, q)
  {
    if |attrs| > 0 {
      assert (attrs + [a])[1..] == attrs[1..] + [a];
      XmlIndexAppend(attrs[1..], a, q);
    }
  }

  lemma XmlIndexUpdate(attrs: seq<Attribute>, i: nat, a: Attribute, q: string)
    requires IsXmlAttribute(a) && XmlIndex(attrs, a.local) == Some(i)
    ensures XmlIndex(attrs[i := a], q) == if q == a.local then Some(i) else XmlIndex(attrs, q)
  {
    var b := attrs[i := a];
    if i == 0 {
      assert b[1..] == attrs[1..];
    } else {
      assert b[0] == attrs[0] && !(IsXmlAttribute(attrs[0]) && attrs[0].local == a.local);
      assert b[1..] == attrs[1..][i - 1 := a];
      XmlIndexUpdate(attrs[1..], i - 1, a, q);
      if !(IsXmlAttribute(attrs[0]) && attrs[0].local == q) {
        assert XmlIndex(b, q) == Shifted(XmlIndex(b[1..], q));
        assert XmlIndex(attrs, q) == Shifted(XmlIndex(attrs[1..], q));
      }
    }
  }

  /** Writing the pending attributes, in accumulator order, onto a retained
      element. With `overwrite` (the code as written) an entry replaces the
      element's own attribute of that name; without it the element's own
      value is kept. */
  function Stamp(attrs: seq<Attribute>, acc: Dict, overwrite: bool): (r: seq<Attribute>)
    ensures OtherAttributes(r) == OtherAttributes(attrs)
    decreases |acc|
  {
    if |acc| == 0 then attrs
    else
      var next := if overwrite || XmlIndex(attrs, acc[0].0).None? then SetXmlAttribute(attrs, acc[0].0, acc[0].1) else attrs;
      Stamp(next, acc[1..], overwrite)
  }

  /** What a retained element ends up with for `xml:k`: the pending value
      wins as written; the element's own value wins once corrected. */
  lemma {:induction false} StampValue(attrs: seq<Attribute>, acc: Dict, overwrite: bool, k: string)
    requires UniqueKeys(acc)
    ensures XmlValue(Stamp(attrs, acc, overwrite), k)
         == if overwrite then OrElse(Get(acc, k), XmlValue(attrs, k)) else OrElse(XmlValue(attrs, k), Get(acc, k))
    decreases |acc|
  {
    if |acc| > 0 {
      var next := if overwrite || XmlIndex(attrs, acc[0].0).None? then SetXmlAttribute(attrs, acc[0].0, acc[0].1) else attrs;
      assert UniqueKeys(acc[1..]);
      StampValue(next, acc[1..], overwrite, k);
      SetXmlAttributeValue(attrs, acc[0].0, acc[0].1, k);
      if acc[0].0 == k {
        assert Get(acc, k) == Some(acc[0].1);
        assert Get(acc[1..], k).None?;
      } else {
        assert Get(acc, k) == Get(acc[1..], k);
      }
    }
  }

  /** The accumulator after a left-out element: each of its `xml:`
      attributes is removed from it and recorded under its local name,
      overriding what a farther ancestor recorded. */
  function Collect(attrs: seq<Attribute>, acc: Dict): (r: Dict)
    requires UniqueKeys(acc)
    ensures UniqueKeys(r)
    decreases |attrs|
  {
    if |attrs| == 0 then acc
    else
      var next := if IsXmlAttribute(attrs[0]) then Put(acc, attrs[0].local, attrs[0].value) else acc;
      Collect(attrs[1..], next)
  }

  /** With distinct names, an `xml:k` at the head is the only one. */
  lemma LaterNamesDiffer(attrs: seq<Attribute>, k: string)
    requires DistinctNames(attrs) && |attrs| > 0 && IsXmlAttribute(attrs[0]) && attrs[0].local == k
    ensures XmlIndex(attrs[1..], k).None?
  {
    forall i | 0 <= i < |attrs| - 1
      ensures !(IsXmlAttribute(attrs[1..][i]) && attrs[1..][i].local == k)
    {
      assert attrs[1..][i] == attrs[i + 1];
    }
  }

  /** A nearer left-out element overrides a farther one: after `Collect`,
      `k` maps to the element's own `xml:k` if it has one, else to what was
      pending before. */
  lemma {:induction false} CollectGet(attrs: seq<Attribute>, acc: Dict, k: string)
    requires UniqueKeys(acc) && DistinctNames(attrs)
    ensures Get(Collect(attrs, acc), k) == OrElse(XmlValue(attrs, k), Get(acc, k))
    decreases |attrs|
  {
    if |attrs| > 0 {
      var a := attrs[0];
      var next := if IsXmlAttribute(a) then Put(acc, a.local, a.value) else acc;
      assert DistinctNames(attrs[1..]);
      CollectGet(attrs[1..], next, k);
      XmlValueCons(a, attrs[1..], k);
      assert [a] + attrs[1..] == attrs;
      if IsXmlAttribute(a) {
        PutGet(acc, a.local, a.value, k);
        if a.local == k {
          LaterNamesDiffer(attrs, k);
        }
      }
    }
  }

  /** A left-out element without `xml:` attributes passes the accumulator
      on unchanged. */
  lemma {:induction false} CollectNone(attrs: seq<Attribute>, acc: Dict)
    requires UniqueKeys(acc)
    requires forall i :: 0 <= i < |attrs| ==> !IsXmlAttribute(attrs[i])
    ensures Collect(attrs, acc) == acc
    decreases |attrs|
  {
    if |attrs| > 0 {
      CollectNone(attrs[1..], acc);
    }
  }

  // ---------------------------------------------------------------------
  // The walk (`IterateNodes`)

  /** The attribute list an element ends up with, given whether it is in
      the node set and the accumulator it receives. */
  function LocalAttributes(attrs: seq<Attribute>, retained: bool, acc: Dict, overwrite: bool): seq<Attribute> {
    if retained then Stamp(attrs, acc, overwrite) else OtherAttributes(attrs)
  }

  /** The accumulator an element hands to its children: empty after a
      retained element, extended by `Collect` after a left-out one. */
  function ChildAccumulator(attrs: seq<Attribute>, retained: bool, acc: Dict): (r: Dict)
    requires UniqueKeys(acc)
    ensures UniqueKeys(r)
  {
    if retained then [] else Collect(attrs, acc)
  }

  /** `IterateNodes` on the node at `path`; text and comments pass through. */
  function FixNode(n: Node, path: seq<nat>, nodeSet: set<seq<nat>>, acc: Dict, overwrite: bool): (r: Node)
    requires UniqueKeys(acc)
    decreases n, 1
  {
    match n
    case Element(ns, local, attrs, cs) =>
      var inSet := path in nodeSet;
      Element(ns, local, LocalAttributes(attrs, inSet, acc, overwrite),
              FixChildren(cs, path, 0, nodeSet, ChildAccumulator(attrs, inSet, acc), overwrite))
    case _ => n
  }

  /** Every child is visited, the `k`-th at path `parent + [k]`, each with
      the same accumulator. */
  function FixChildren(cs: seq<Node>, parent: seq<nat>, k: nat, nodeSet: set<seq<nat>>, acc: Dict, overwrite: bool): (r: seq<Node>)
    requires UniqueKeys(acc)
    ensures |r| == |cs|
    decreases cs, 0
  {
    if |cs| == 0 then []
    else [FixNode(cs[0], parent + [k], nodeSet, acc, overwrite)] + FixChildren(cs[1..], parent, k + 1, nodeSet, acc, overwrite)
  }

  /** `FixDocument`: the walk from the document node with no pending
      attributes; `overwrite` selects the code as written. */
  function Fix(d: Document, nodeSet: set<seq<nat>>, overwrite: bool): Document {
    Document(FixChildren(d.children, [], 0, nodeSet, [], overwrite))
  }

  // ---------------------------------------------------------------------
  // What the walk leaves unchanged

  /** A tree with its `xml:` attributes dropped. */
  function StripXml(n: Node): (r: Node)
    decreases n, 1
  {
    match n
    case Element(ns, local, attrs, cs) => Element(ns, local, OtherAttributes(attrs), StripXmlAll(cs))
    case _ => n
  }

  function StripXmlAll(cs: seq<Node>): (r: seq<Node>)
    ensures |r| == |cs|
    decreases cs, 0
  {
    if |cs| == 0 then [] else [StripXml(cs[0])] + StripXmlAll(cs[1..])
  }

  lemma OtherAttributesIdempotent(attrs: seq<Attribute>)
    ensures OtherAttributes(OtherAttributes(attrs)) == OtherAttributes(attrs)
  {
    FilterAll(OtherAttributes(attrs), NotXmlAttribute);
  }

  /** Tree shape, names, text and every attribute outside the `xml:`
      namespace are unchanged by the walk. */
  lemma {:induction false} FixNodeKeepsRest(n: Node, path: seq<nat>, nodeSet: set<seq<nat>>, acc: Dict, overwrite: bool)
    requires UniqueKeys(acc)
    ensures StripXml(FixNode(n, path, nodeSet, acc, overwrite)) == StripXml(n)
    decreases n, 1
  {
    match n
    case Element(ns, local, attrs, cs) =>
      var inSet := path in nodeSet;
      FixChildrenKeepsRest(cs, path, 0, nodeSet, ChildAccumulator(attrs, inSet, acc), overwrite);
      if !inSet {
        OtherAttributesIdempotent(attrs);
      }
    case _ =>
  }

  lemma {:induction false} FixChildrenKeepsRest(cs: seq<Node>, parent: seq<nat>, k: nat, nodeSet: set<seq<nat>>, acc: Dict, overwrite: bool)
    requires UniqueKeys(acc)
    ensures StripXmlAll(FixChildren(cs, parent, k, nodeSet, acc, overwrite)) == StripXmlAll(cs)
    decreases cs, 0
  {
    if |cs| > 0 {
      var r := FixChildren(cs, parent, k, nodeSet, acc, overwrite);
      FixNodeKeepsRest(cs[0], parent + [k], nodeSet, acc, overwrite);
      FixChildrenKeepsRest(cs[1..], parent, k + 1, nodeSet, acc, overwrite);
      assert r[1..] == FixChildren(cs[1..], parent, k + 1, nodeSet, acc, overwrite);
    }
  }

  lemma FixKeepsRest(d: Document, nodeSet: set<seq<nat>>, overwrite: bool)
    ensures StripXmlAll(Fix(d, nodeSet, overwrite).children) == StripXmlAll(d.children)
  {
    FixChildrenKeepsRest(d.children, [], 0, nodeSet, [], overwrite);
  }

  // ---------------------------------------------------------------------
  // Left-out elements lose their `xml:` attributes

  /** No element outside the node set carries an `xml:` attribute. */
  predicate Clean(n: Node, path: seq<nat>, nodeSet: set<seq<nat>>)
    decreases n, 1
  {
    match n
    case Element(_, _, attrs, cs) =>
      (path !in nodeSet ==> forall i :: 0 <= i < |attrs| ==> !IsXmlAttribute(attrs[i]))
      && CleanAll(cs, path, 0, nodeSet)
    case _ => true
  }

  predicate CleanAll(cs: seq<Node>, parent: seq<nat>, k: nat, nodeSet: set<seq<nat>>)
    decreases cs, 0
  {
    |cs| > 0 ==> Clean(cs[0], parent + [k], nodeSet) && CleanAll(cs[1..], parent, k + 1, nodeSet)
  }

  lemma {:induction false} FixNodeCleans(n: Node, path: seq<nat>, nodeSet: set<seq<nat>>, acc: Dict, overwrite: bool)
    requires UniqueKeys(acc)
    ensures Clean(FixNode(n, path, nodeSet, acc, overwrite), path, nodeSet)
    decreases n, 1
  {
    match n
    case Element(ns, local, attrs, cs) =>
      FixChildrenCleans(cs, path, 0, nodeSet, ChildAccumulator(attrs, path in nodeSet, acc), overwrite);
    case _ =>
  }

  lemma {:induction false} FixChildrenCleans(cs: seq<Node>, parent: seq<nat>, k: nat, nodeSet: set<seq<nat>>, acc: Dict, overwrite: bool)
    requires UniqueKeys(acc)
    ensures CleanAll(FixChildren(cs, parent, k, nodeSet, acc, overwrite), parent, k, nodeSet)
    decreases cs, 0
  {
    if |cs| > 0 {
      var r := FixChildren(cs, parent, k, nodeSet, acc, overwrite);
      FixNodeCleans(cs[0], parent + [k], nodeSet, acc, overwrite);
      FixChildrenCleans(cs[1..], parent, k + 1, nodeSet, acc, overwrite);
      assert r[1..] == FixChildren(cs[1..], parent, k + 1, nodeSet, acc, overwrite);
    }
  }

  /** After the walk no left-out element carries an `xml:` attribute. */
  lemma FixCleans(d: Document, nodeSet: set<seq<nat>>, overwrite: bool)
    ensures CleanAll(Fix(d, nodeSet, overwrite).children, [], 0, nodeSet)
  {
    FixChildrenCleans(d.children, [], 0, nodeSet, [], overwrite);
  }

  // ---------------------------------------------------------------------
  // Applying the walk twice

  lemma {:induction false} FixNodeOfClean(n: Node, path: seq<nat>, nodeSet: set<seq<nat>>, overwrite: bool)
    requires Clean(n, path, nodeSet)
    ensures FixNode(n, path, nodeSet, [], overwrite) == n
    decreases n, 1
  {
    match n
    case Element(ns, local, attrs, cs) =>
      var inSet := path in nodeSet;
      if !inSet {
        CollectNone(attrs, []);
        FilterAll(attrs, NotXmlAttribute);
      }
      FixChildrenOfClean(cs, path, 0, nodeSet, overwrite);
    case _ =>
  }

  lemma {:induction false} FixChildrenOfClean(cs: seq<Node>, parent: seq<nat>, k: nat, nodeSet: set<seq<nat>>, overwrite: bool)
    requires CleanAll(cs, parent, k, nodeSet)
    ensures FixChildren(cs, parent, k, nodeSet, [], overwrite) == cs
    decreases cs, 0
  {
    if |cs| > 0 {
      FixNodeOfClean(cs[0], parent + [k], nodeSet, overwrite);
      FixChildrenOfClean(cs[1..], parent, k + 1, nodeSet, overwrite);
      assert [cs[0]] + cs[1..] == cs;
    }
  }

  /** Applying the fix twice equals applying it once. */
  lemma FixIdempotent(d: Document, nodeSet: set<seq<nat>>, overwrite: bool)
    ensures Fix(Fix(d, nodeSet, overwrite), nodeSet, overwrite) == Fix(d, nodeSet, overwrite)
  {
    var once := Fix(d, nodeSet, overwrite);
    FixCleans(d, nodeSet, overwrite);
    FixChildrenOfClean(once.children, [], 0, nodeSet, overwrite);
  }

  // ---------------------------------------------------------------------
  // Locality: an element's result depends only on its ancestors

  /** The node reached from `cs` by the child indices `q`. */
  function Descendant(cs: seq<Node>, q: seq<nat>): Option<Node>
    decreases |q|
  {
    if |q| == 0 || q[0] >= |cs| then None
    else if |q| == 1 then Some(cs[q[0]])
    else
      match cs[q[0]]
      case Element(_, _, _, children) => Descendant(children, q[1..])
      case _ => None
  }

  /** The accumulator that reaches the node at `q`: built from the
      elements on the way down only, never from their siblings. */
  function Pending(cs: seq<Node>, parent: seq<nat>, q: seq<nat>, nodeSet: set<seq<nat>>, acc: Dict): (r: Dict)
    requires UniqueKeys(acc)
    ensures UniqueKeys(r)
    decreases |q|
  {
    if |q| <= 1 || q[0] >= |cs| then acc
    else
      match cs[q[0]]
      case Element(_, _, attrs, children) =>
        var here := parent + [q[0]];
        Pending(children, here, q[1..], nodeSet, ChildAccumulator(attrs, here in nodeSet, acc))
      case _ => acc
  }

  lemma {:induction false} FixChildrenAt(cs: seq<Node>, parent: seq<nat>, k: nat, nodeSet: set<seq<nat>>, acc: Dict, overwrite: bool, i: nat)
    requires UniqueKeys(acc) && i < |cs|
    ensures FixChildren(cs, parent, k, nodeSet, acc, overwrite)[i] == FixNode(cs[i], parent + [k + i], nodeSet, acc, overwrite)
    decreases i
  {
    if i > 0 {
      FixChildrenAt(cs[1..], parent, k + 1, nodeSet, acc, overwrite, i - 1);
    }
  }

  /** The element at `q` after the walk carries exactly the attributes its
      own retention and the accumulator of its ancestors give it. */
  lemma {:induction false} FixLocality(cs: seq<Node>, parent: seq<nat>, q: seq<nat>, nodeSet: set<seq<nat>>, acc: Dict, overwrite: bool)
    requires UniqueKeys(acc)
    requires Descendant(cs, q).Some? && Descendant(cs, q).value.Element?
    ensures var m := Descendant(FixChildren(cs, parent, 0, nodeSet, acc, overwrite), q);
            m.Some? && m.value.Element?
            && m.value.attrs == LocalAttributes(Descendant(cs, q).value.attrs, parent + q in nodeSet, Pending(cs, parent, q, nodeSet, acc), overwrite)
    decreases |q|
  {
    FixChildrenAt(cs, parent, 0, nodeSet, acc, overwrite, q[0]);
    if |q| == 1 {
      assert q == [q[0]];
    } else {
      var n := cs[q[0]];
      var here := parent + [q[0]];
      var childAcc := ChildAccumulator(n.attrs, here in nodeSet, acc);
      var fixed := FixChildren(n.children, here, 0, nodeSet, childAcc, overwrite);
      var r := FixChildren(cs, parent, 0, nodeSet, acc, overwrite);
      FixLocality(n.children, here, q[1..], nodeSet, childAcc, overwrite);
      assert r[q[0]].Element? && r[q[0]].children == fixed;
      FixLocalityStep(cs, r, fixed, parent, q, nodeSet, acc, overwrite);
    }
  }

  /** One level of `FixLocality`: when the walk turns the element at
      `q[0]` of `cs` into the element at `q[0]` of `r` with children
      `fixed`, the walk below it answers for the rest of the path. */
  lemma FixLocalityStep(cs: seq<Node>, r: seq<Node>, fixed: seq<Node>, parent: seq<nat>, q: seq<nat>,
                        nodeSet: set<seq<nat>>, acc: Dict, overwrite: bool)
    requires UniqueKeys(acc)
    requires |q| > 1 && q[0] < |cs| && q[0] < |r| && cs[q[0]].Element? && r[q[0]].Element? && r[q[0]].children == fixed
    requires var n := cs[q[0]];
             var here := parent + [q[0]];
             var m := Descendant(fixed, q[1..]);
             && Descendant(n.children, q[1..]).Some? && Descendant(n.children, q[1..]).value.Element? && m.Some? && m.value.Element?
             && m.value.attrs == LocalAttributes(Descendant(n.children, q[1..]).value.attrs, here + q[1..] in nodeSet,
                                                 Pending(n.children, here, q[1..], nodeSet,
                                                         ChildAccumulator(n.attrs, here in nodeSet, acc)), overwrite)
    ensures var m := Descendant(r, q);
            && Descendant(cs, q).Some? && Descendant(cs, q).value.Element? && m.Some? && m.value.Element?
            && m.value.attrs == LocalAttributes(Descendant(cs, q).value.attrs, parent + q in nodeSet, Pending(cs, parent, q, nodeSet, acc), overwrite)
  {
    DescendantOf(cs, q);
    DescendantOf(r, q);
    PathSplit(parent, q);
  }

  /** A path is its first step followed by the rest. */
  lemma PathSplit(parent: seq<nat>, q: seq<nat>)
    requires |q| > 0
    ensures parent + [q[0]] + q[1..] == parent + q
  {
    assert q == [q[0]] + q[1..];
  }

  /** Below an element, the path continues among its children. */
  lemma DescendantOf(cs: seq<Node>, q: seq<nat>)
    requires |q| > 1 && q[0] < |cs| && cs[q[0]].Element?
    ensures Descendant(cs, q) == Descendant(cs[q[0]].children, q[1..])
  {
  }

  /** The attributes of the element at path `q` of the fixed document. */
  lemma FixDocumentLocality(d: Document, nodeSet: set<seq<nat>>, overwrite: bool, q: seq<nat>)
    requires Descendant(d.children, q).Some? && Descendant(d.children, q).value.Element?
    ensures var m := Descendant(Fix(d, nodeSet, overwrite).children, q);
            m.Some? && m.value.Element?
            && m.value.attrs == LocalAttributes(Descendant(d.children, q).value.attrs, q in nodeSet, Pending(d.children, [], q, nodeSet, []), overwrite)
  {
    FixLocality(d.children, [], q, nodeSet, [], overwrite);
    assert [] + q == q;
  }

  // ---------------------------------------------------------------------
  // Examples

  function XmlAttr(k: string, v: string): Attribute {
    Attribute(XmlNamespaceUri, k, v)
  }

  lemma FixOne(c: Node, parent: seq<nat>, nodeSet: set<seq<nat>>, acc: Dict, overwrite: bool)
    requires UniqueKeys(acc)
    ensures FixChildren([c], parent, 0, nodeSet, acc, overwrite) == [FixNode(c, parent + [0], nodeSet, acc, overwrite)]
  {
  }

  lemma FixTwo(c0: Node, c1: Node, parent: seq<nat>, nodeSet: set<seq<nat>>, acc: Dict, overwrite: bool)
    requires UniqueKeys(acc)
    ensures FixChildren([c0, c1], parent, 0, nodeSet, acc, overwrite)
         == [FixNode(c0, parent + [0], nodeSet, acc, overwrite), FixNode(c1, parent + [1], nodeSet, acc, overwrite)]
  {
    assert [c0, c1][1..] == [c1];
  }

  /** A leaf element after the walk. */
  lemma FixLeaf(ns: string, local: string, attrs: seq<Attribute>, path: seq<nat>, nodeSet: set<seq<nat>>, acc: Dict, overwrite: bool)
    requires UniqueKeys(acc)
    ensures FixNode(Element(ns, local, attrs, []), path, nodeSet, acc, overwrite)
         == Element(ns, local, LocalAttributes(attrs, path in nodeSet, acc, overwrite), [])
  {
  }

  /** A carries `xml:lang="en"`; A and B are left out; grandchild C is
      retained. C gains `xml:lang="en"` and neither A nor B keeps it. */
  lemma ExampleGrandchild(overwrite: bool)
    ensures Fix(Document([Element("", "A", [XmlAttr("lang", "en")], [Element("", "B", [], [Element("", "C", [], [])])])]), {[0, 0, 0]}, overwrite)
         == Document([Element("", "A", [], [Element("", "B", [], [Element("", "C", [XmlAttr("lang", "en")], [])])])])
  {
    var a0 := Element("", "A", [XmlAttr("lang", "en")], [Element("", "B", [], [Element("", "C", [], [])])]);
    GrandchildOuter(overwrite);
    FixOne(a0, [], {[0, 0, 0]}, [], overwrite);
    PathSnoc([], 0);
  }

  /** A of the grandchild example. */
  lemma GrandchildOuter(overwrite: bool)
    ensures FixNode(Element("", "A", [XmlAttr("lang", "en")], [Element("", "B", [], [Element("", "C", [], [])])]), [0], {[0, 0, 0]}, [], overwrite)
         == Element("", "A", [], [Element("", "B", [], [Element("", "C", [XmlAttr("lang", "en")], [])])])
  {
    var nodeSet: set<seq<nat>> := {[0, 0, 0]};
    var acc := [("lang", "en")];
    var en := [XmlAttr("lang", "en")];
    assert Collect(en, []) == acc;
    assert OtherAttributes(en) == [];
    GrandchildInner(overwrite);
    FixOne(Element("", "B", [], [Element("", "C", [], [])]), [0], nodeSet, acc, overwrite);
    PathSnoc([0], 0);
  }

  /** B of the grandchild example, with `xml:lang="en"` pending. */
  lemma GrandchildInner(overwrite: bool)
    ensures FixNode(Element("", "B", [], [Element("", "C", [], [])]), [0, 0], {[0, 0, 0]}, [("lang", "en")], overwrite)
         == Element("", "B", [], [Element("", "C", [XmlAttr("lang", "en")], [])])
  {
    var nodeSet: set<seq<nat>> := {[0, 0, 0]};
    var acc := [("lang", "en")];
    assert Stamp([], acc, overwrite) == [XmlAttr("lang", "en")];
    FixLeaf("", "C", [], [0, 0, 0], nodeSet, acc, overwrite);
    FixOne(Element("", "C", [], []), [0, 0], nodeSet, acc, overwrite);
    PathSnoc([0, 0], 0);
  }

  /** A (`xml:lang="en"`) is left out and has two children: B is left out
      with `xml:space="preserve"` and a retained child D; C is retained.
      D receives both attributes, C only `xml:lang`: what B records is
      invisible to its sibling. */
  lemma ExampleSiblings(overwrite: bool)
    ensures Fix(Document([Element("", "A", [XmlAttr("lang", "en")],
                  [Element("", "B", [XmlAttr("space", "preserve")], [Element("", "D", [], [])]),
                   Element("", "C", [], [])])]), {[0, 0, 0], [0, 1]}, overwrite)
         == Document([Element("", "A", [],
                  [Element("", "B", [], [Element("", "D", [XmlAttr("lang", "en"), XmlAttr("space", "preserve")], [])]),
                   Element("", "C", [XmlAttr("lang", "en")], [])])])
  {
    var a0 := Element("", "A", [XmlAttr("lang", "en")],
                  [Element("", "B", [XmlAttr("space", "preserve")], [Element("", "D", [], [])]),
                   Element("", "C", [], [])]);
    SiblingsOuter(overwrite);
    FixOne(a0, [], {[0, 0, 0], [0, 1]}, [], overwrite);
    PathSnoc([], 0);
  }

  /** A of the sibling example. */
  lemma SiblingsOuter(overwrite: bool)
    ensures FixNode(Element("", "A", [XmlAttr("lang", "en")],
                  [Element("", "B", [XmlAttr("space", "preserve")], [Element("", "D", [], [])]),
                   Element("", "C", [], [])]), [0], {[0, 0, 0], [0, 1]}, [], overwrite)
         == Element("", "A", [],
                  [Element("", "B", [], [Element("", "D", [XmlAttr("lang", "en"), XmlAttr("space", "preserve")], [])]),
                   Element("", "C", [XmlAttr("lang", "en")], [])])
  {
    var nodeSet: set<seq<nat>> := {[0, 0, 0], [0, 1]};
    assert [0] !in nodeSet && [0, 0] !in nodeSet && [0, 1] in nodeSet && [0, 0, 0] in nodeSet;
    var a := [("lang", "en")];
    LangAccumulator(overwrite);
    var b0 := Element("", "B", [XmlAttr("space", "preserve")], [Element("", "D", [], [])]);
    var c0 := Element("", "C", [], []);
    SiblingsInner(overwrite, nodeSet);
    FixLeaf("", "C", [], [0, 1], nodeSet, a, overwrite);
    FixTwo(b0, c0, [0], nodeSet, a, overwrite);
    PathSnoc([0], 0);
    PathSnoc([0], 1);
  }

  /** `xml:lang="en"` collected from a left-out element and stamped on a
      retained one without attributes. */
  lemma LangAccumulator(overwrite: bool)
    ensures Collect([XmlAttr("lang", "en")], []) == [("lang", "en")]
    ensures OtherAttributes([XmlAttr("lang", "en")]) == []
    ensures Stamp([], [("lang", "en")], overwrite) == [XmlAttr("lang", "en")]
  {
  }

  /** B of the sibling example, reached with `xml:lang="en"` pending. */
  lemma SiblingsInner(overwrite: bool, nodeSet: set<seq<nat>>)
    requires [0, 0] !in nodeSet && [0, 0, 0] in nodeSet
    ensures FixNode(Element("", "B", [XmlAttr("space", "preserve")], [Element("", "D", [], [])]), [0, 0], nodeSet, [("lang", "en")], overwrite)
         == Element("", "B", [], [Element("", "D", [XmlAttr("lang", "en"), XmlAttr("space", "preserve")], [])])
  {
    var ab := [("lang", "en"), ("space", "preserve")];
    SiblingsAccumulator();
    SiblingsStamp(overwrite);
    var d0 := Element("", "D", [], []);
    var d1 := Element("", "D", [XmlAttr("lang", "en"), XmlAttr("space", "preserve")], []);
    ElementStep(d0, [0, 0, 0], nodeSet, ab, overwrite, d1.attrs, [], []);
    FixOne(d0, [0, 0], nodeSet, ab, overwrite);
    PathSnoc([0, 0], 0);
    ElementStep(Element("", "B", [XmlAttr("space", "preserve")], [d0]), [0, 0], nodeSet, [("lang", "en")], overwrite, [], ab, [d1]);
  }

  lemma PathSnoc(p: seq<nat>, k: nat)
    ensures |p| == 0 ==> p + [k] == [k]
    ensures |p| == 1 ==> p + [k] == [p[0], k]
    ensures |p| == 2 ==> p + [k] == [p[0], p[1], k]
  {
  }

  /** One element of the walk, given its attributes, the accumulator it
      hands down and its children's results. */
  lemma ElementStep(n: Node, path: seq<nat>, nodeSet: set<seq<nat>>, acc: Dict, overwrite: bool,
                    attrs: seq<Attribute>, childAcc: Dict, children: seq<Node>)
    requires UniqueKeys(acc) && n.Element?
    requires LocalAttributes(n.attrs, path in nodeSet, acc, overwrite) == attrs
    requires ChildAccumulator(n.attrs, path in nodeSet, acc) == childAcc
    requires FixChildren(n.children, path, 0, nodeSet, childAcc, overwrite) == children
    ensures FixNode(n, path, nodeSet, acc, overwrite) == Element(n.ns, n.local, attrs, children)
  {
  }

  lemma SiblingsAccumulator()
    ensures Collect([XmlAttr("space", "preserve")], [("lang", "en")]) == [("lang", "en"), ("space", "preserve")]
    ensures OtherAttributes([XmlAttr("space", "preserve")]) == []
  {
    assert IndexOf([("lang", "en")], "space").None?;
  }

  lemma SiblingsStamp(overwrite: bool)
    ensures Stamp([], [("lang", "en"), ("space", "preserve")], overwrite) == [XmlAttr("lang", "en"), XmlAttr("space", "preserve")]
  {
    var ab := [("lang", "en"), ("space", "preserve")];
    var en := [XmlAttr("lang", "en")];
    assert Stamp([], ab, overwrite) == Stamp(en, ab[1..], overwrite);
    assert XmlIndex(en, "space").None?;
  }

  /** A (`xml:lang="en"`) is left out; its retained child B has its own
      `xml:lang="nl"`. As written, B's value is replaced by A's. */
  lemma OwnAttributeOverwritten()
    ensures Fix(Document([Element("", "A", [XmlAttr("lang", "en")], [Element("", "B", [XmlAttr("lang", "nl")], [])])]), {[0, 0]}, true)
         == Document([Element("", "A", [], [Element("", "B", [XmlAttr("lang", "en")], [])])])
  {
    OwnAttributeExample(true, [XmlAttr("lang", "en")]);
  }

  /** The same document, corrected: B keeps `xml:lang="nl"`. */
  lemma OwnAttributeKept()
    ensures Fix(Document([Element("", "A", [XmlAttr("lang", "en")], [Element("", "B", [XmlAttr("lang", "nl")], [])])]), {[0, 0]}, false)
         == Document([Element("", "A", [], [Element("", "B", [XmlAttr("lang", "nl")], [])])])
  {
    OwnAttributeExample(false, [XmlAttr("lang", "nl")]);
  }

  lemma OwnAttributeExample(overwrite: bool, bAttrs: seq<Attribute>)
    requires bAttrs == if overwrite then [XmlAttr("lang", "en")] else [XmlAttr("lang", "nl")]
    ensures Fix(Document([Element("", "A", [XmlAttr("lang", "en")], [Element("", "B", [XmlAttr("lang", "nl")], [])])]), {[0, 0]}, overwrite)
         == Document([Element("", "A", [], [Element("", "B", bAttrs, [])])])
  {
    var nodeSet: set<seq<nat>> := {[0, 0]};
    var acc := [("lang", "en")];
    var en := [XmlAttr("lang", "en")];
    var nl := [XmlAttr("lang", "nl")];
    assert Collect(en, []) == acc;
    assert OtherAttributes(en) == [];
    assert XmlIndex(nl, "lang") == Some(0);
    assert Stamp(nl, acc, overwrite) == bAttrs;
    var b0 := Element("", "B", nl, []);
    FixLeaf("", "B", nl, [0, 0], nodeSet, acc, overwrite);
    FixOne(b0, [0], nodeSet, acc, overwrite);
    PathSnoc([0], 0);
    var a0 := Element("", "A", en, [b0]);
    assert FixNode(a0, [0], nodeSet, [], overwrite) == Element("", "A", [], [Element("", "B", bAttrs, [])]);
    FixOne(a0, [], nodeSet, [], overwrite);
    PathSnoc([], 0);
  }

  // ---------------------------------------------------------------------
  // The transforms that apply the fix

  /** The elements of a node list, by tree path. */
  function ElementPaths(nodes: seq<Pos>): (r: set<seq<nat>>)
    ensures forall p :: p in r <==> NodeAt(p) in nodes
  {
    set i | 0 <= i < |nodes| && nodes[i].NodeAt? :: nodes[i].path
  }

  /** `XmlDsigXPathTransformFix.GetOutput` with the corrected walk (an
      element's own `xml:` attribute wins over a pending one): the base
      XPath transform's node list is returned as is, and the document is
      fixed against it. */
  function XPathTransformOutput(d: Document, nodeList: seq<Pos>): (r: (Document, seq<Pos>))
    ensures r.1 == nodeList
    ensures StripXmlAll(r.0.children) == StripXmlAll(d.children)
    ensures CleanAll(r.0.children, [], 0, ElementPaths(nodeList))
  {
    var nodeSet := ElementPaths(nodeList);
    FixKeepsRest(d, nodeSet, false);
    FixCleans(d, nodeSet, false);
    (Fix(d, nodeSet, false), nodeList)
  }

  /** `XmlDsigFilterTransform.GetOutput` with the corrected walk: the
      filtered node list, and the document fixed against it. */
  method FilterTransformOutput(d: Document, steps: seq<FilterStep>, namespaceNodes: seq<Pos>) returns (doc: Document, output: seq<Pos>)
    ensures forall p :: p in output <==> (p in AllNodes(d) && Z([RootStep] + steps, p)) || p in namespaceNodes
    ensures StripXmlAll(doc.children) == StripXmlAll(d.children)
    ensures CleanAll(doc.children, [], 0, ElementPaths(output))
  {
    output := GetOutput(d, steps, namespaceNodes);
    var nodeSet := ElementPaths(output);
    doc := Fix(d, nodeSet, false);
    FixKeepsRest(d, nodeSet, false);
    FixCleans(d, nodeSet, false);
  }

  /** `XmlDsigXPathTransformFix.GetOutput` as written: the walk overwrites
      an element's own `xml:` attribute with a pending one. */
  function XPathTransformOutputAsWritten(d: Document, nodeList: seq<Pos>): (r: (Document, seq<Pos>))
    ensures r.1 == nodeList
    ensures StripXmlAll(r.0.children) == StripXmlAll(d.children)
    ensures CleanAll(r.0.children, [], 0, ElementPaths(nodeList))
  {
    var nodeSet := ElementPaths(nodeList);
    FixKeepsRest(d, nodeSet, true);
    FixCleans(d, nodeSet, true);
    (Fix(d, nodeSet, true), nodeList)
  }

  /** `XmlDsigFilterTransform.GetOutput` as written: the filtered node
      list, and the document fixed against it by the overwriting walk. */
  method FilterTransformOutputAsWritten(d: Document, steps: seq<FilterStep>, namespaceNodes: seq<Pos>) returns (doc: Document, output: seq<Pos>)
    ensures forall p :: p in output <==> (p in AllNodes(d) && Z([RootStep] + steps, p)) || p in namespaceNodes
    ensures StripXmlAll(doc.children) == StripXmlAll(d.children)
    ensures CleanAll(doc.children, [], 0, ElementPaths(output))
  {
    output := GetOutput(d, steps, namespaceNodes);
    var nodeSet := ElementPaths(output);
    doc := Fix(d, nodeSet, true);
    FixKeepsRest(d, nodeSet, true);
    FixCleans(d, nodeSet, true);
  }
}
