/** The XML-Signature XPath Filter 2.0 transform (W3C Recommendation,
    section 3): the set algebra of `XmlDsigFilterTransform.GetOutput`, and
    the parsing and writing of its `XPath` parameter elements.

    XPath evaluation is not modelled: each filter step carries the nodes
    its expression selected, in the order the node iterator returns them. */
module Filter2 {
  import opened Wrappers
  import opened Seqs
  import opened Strings
  import opened Xml
  import opened Dictionaries
  import opened XmlMarkup

  datatype FilterOp = Intersect | Subtract | Union

  /** A node of the input document: the node at a child-index path (the
      document node is `NodeAt([])`), the `index`-th attribute of the
      element at `owner`, or a namespace node of that element. */
  datatype Pos =
    | NodeAt(path: seq<nat>)
    | AttrAt(owner: seq<nat>, index: nat)
    | NsAt(owner: seq<nat>, index: nat)

  /** One filter step: its set operation and the nodes its XPath selected. */
  datatype FilterStep = FilterStep(op: FilterOp, selected: seq<Pos>)

  predicate IsPrefix(a: seq<nat>, b: seq<nat>) {
    |a| <= |b| && b[..|a|] == a
  }

  function OwnerPath(p: Pos): seq<nat> {
    match p
    case NodeAt(b) => b
    case AttrAt(o, _) => o
    case NsAt(o, _) => o
  }

  /** `q.IsSamePosition(p) || q.IsDescendant(p)`: `p` is `q` or lies below
      it; attribute and namespace nodes count as below their element and
      have nothing below them. */
  predicate Covers(q: Pos, p: Pos) {
    q == p || (q.NodeAt? && IsPrefix(q.path, OwnerPath(p)))
  }

  /** `IsInSet`: scans the selected nodes in order and stops at the first
      that covers `p` (membership in the subtree-expanded set). */
  function IsInSet(selected: seq<Pos>, p: Pos): (r: bool)
    ensures r <==> exists i :: 0 <= i < |selected| && Covers(selected[i], p)
  {
    if |selected| == 0 then false
    else if Covers(selected[0], p) then true
    else
      var r := IsInSet(selected[1..], p);
      assert r ==> exists i :: 0 <= i < |selected| && Covers(selected[i], p) by {
        if r {
          var i :| 0 <= i < |selected[1..]| && Covers(selected[1..][i], p);
          assert Covers(selected[i + 1], p);
        }
      }
      r
  }

  /** `XmlDsigFilterElement.Include`: `Some(b)` sets the flag to `b`,
      `None` leaves it as it is. An intersect step acts on nodes outside
      its set, the other two on nodes inside; only a union sets `true`. */
  function Include(op: FilterOp, inSet: bool): (r: Option<bool>)
    ensures r.Some? <==> (inSet != (op == Intersect))
    ensures r.Some? ==> r.value == (op == Union)
  {
    match op
    case Intersect => if !inSet then Some(false) else None
    case Subtract => if inSet then Some(false) else None
    case Union => if inSet then Some(true) else None
  }

  function Effect(s: FilterStep, p: Pos): Option<bool> {
    Include(s.op, IsInSet(s.selected, p))
  }

  /** The flag after the steps, in declared order, starting from `true`
      (`include = e.Include(node) ?? include`). */
  function Fold(steps: seq<FilterStep>, p: Pos): bool {
    if |steps| == 0 then true
    else Effect(steps[|steps| - 1], p).GetOr(Fold(steps[..|steps| - 1], p))
  }

  // ---------------------------------------------------------------------
  // The flag Z of the Recommendation (section 3.4)

  /** A step does not veto `p`: `p` is in every later intersect set and in
      no later subtract set. */
  predicate Admits(s: FilterStep, p: Pos) {
    match s.op
    case Intersect => IsInSet(s.selected, p)
    case Subtract => !IsInSet(s.selected, p)
    case Union => true
  }

  /** Z: `p` is in some union set and admitted by every step after it. */
  predicate Z(steps: seq<FilterStep>, p: Pos) {
    exists i :: 0 <= i < |steps| && steps[i].op == Union && IsInSet(steps[i].selected, p)
                && forall j :: i < j < |steps| ==> Admits(steps[j], p)
  }

  /** The union step the Recommendation prepends: just the document node. */
  const RootStep: FilterStep := FilterStep(Union, [NodeAt([])])

  lemma {:induction false} ZSnoc(steps: seq<FilterStep>, x: FilterStep, p: Pos)
    ensures Z(steps + [x], p) == Effect(x, p).GetOr(Z(steps, p))
  {
    var t := steps + [x];
    var n := |steps|;
    var e := Effect(x, p);
    if e == Some(true) {
      assert t[n] == x;
      assert Z(t, p);
    } else if e == Some(false) {
      assert !Admits(t[n], p) && t[n].op != Union;
      forall i | 0 <= i < |t| && t[i].op == Union
        ensures i < n
      {
      }
      assert !Z(t, p);
    } else {
      assert Admits(x, p);
      if Z(t, p) {
        var i :| 0 <= i < |t| && t[i].op == Union && IsInSet(t[i].selected, p)
                 && forall j :: i < j < |t| ==> Admits(t[j], p);
        assert i < n;
        assert steps[i] == t[i];
        assert forall j :: i < j < n ==> steps[j] == t[j];
        assert Z(steps, p);
      }
      if Z(steps, p) {
        var i :| 0 <= i < n && steps[i].op == Union && IsInSet(steps[i].selected, p)
                 && forall j :: i < j < n ==> Admits(steps[j], p);
        assert t[i] == steps[i];
        assert forall j :: i < j < |t| ==> Admits(t[j], p) by {
          forall j | i < j < |t|
            ensures Admits(t[j], p)
          {
            if j < n {
              assert t[j] == steps[j];
            }
          }
        }
        assert Z(t, p);
      }
    }
  }

  /** Starting the fold at `true` is the same as prepending a union step
      that selects the document node: the flag the code computes is Z. */
  lemma {:induction false} FoldIsZ(steps: seq<FilterStep>, p: Pos)
    ensures Fold(steps, p) == Z([RootStep] + steps, p)
  {
    if |steps| == 0 {
      assert IsPrefix([], OwnerPath(p));
      assert Covers(RootStep.selected[0], p);
      assert ([RootStep] + steps)[0] == RootStep;
    } else {
      var init := steps[..|steps| - 1];
      var x := steps[|steps| - 1];
      FoldIsZ(init, p);
      ZSnoc([RootStep] + init, x, p);
      assert ([RootStep] + init) + [x] == [RootStep] + steps;
    }
  }

  /** The loop of `GetOutput` for one node. */
  method ComputeInclude(steps: seq<FilterStep>, p: Pos) returns (keep: bool)
    ensures keep == Z([RootStep] + steps, p)
  {
    keep := true;
    var i := 0;
    while i < |steps|
      invariant 0 <= i <= |steps|
      invariant keep == Fold(steps[..i], p)
    {
      var e := Effect(steps[i], p);
      keep := e.GetOr(keep);
      assert steps[..i + 1][..i] == steps[..i];
      i := i + 1;
    }
    assert steps[..|steps|] == steps;
    FoldIsZ(steps, p);
  }

  // ---------------------------------------------------------------------
  // The node-set

  /** Positions of the attributes `attrs[k..]` of the element at `owner`
      that XPath sees (namespace declarations are not attributes there). */
  function AttrPositions(owner: seq<nat>, attrs: seq<Attribute>, k: nat): (r: seq<Pos>)
    requires k <= |attrs|
    ensures forall i :: 0 <= i < |r| ==> r[i].AttrAt? && r[i].owner == owner
    decreases |attrs| - k
  {
    if k == |attrs| then []
    else (if attrs[k].ns == XmlnsNs then [] else [AttrAt(owner, k)]) + AttrPositions(owner, attrs, k + 1)
  }

  /** `//. | //@*` below a node at `path`, in document order: the node, its
      attributes, then its children's subtrees. */
  function NodesOf(n: Node, path: seq<nat>): (r: seq<Pos>)
    ensures |r| > 0 && r[0] == NodeAt(path)
    decreases n, 1
  {
    [NodeAt(path)] + (if n.Element? then AttrPositions(path, n.attrs, 0) + NodesIn(n.children, path, 0) else [])
  }

  /** The subtrees of `cs`, the first of which is child number `k` of the
      node at `parent`. */
  function NodesIn(cs: seq<Node>, parent: seq<nat>, k: nat): seq<Pos>
    decreases cs, 0
  {
    if |cs| == 0 then [] else NodesOf(cs[0], parent + [k]) + NodesIn(cs[1..], parent, k + 1)
  }

  /** Every node the iterator `//. | //@*` visits, in document order. */
  function AllNodes(d: Document): (r: seq<Pos>)
    ensures |r| > 0 && r[0] == NodeAt([])
  {
    [NodeAt([])] + NodesIn(d.children, [], 0)
  }

  /** The document nodes and attributes kept by the steps, in document order. */
  function Retained(d: Document, steps: seq<FilterStep>): (r: seq<Pos>)
    ensures IsSubsequence(r, AllNodes(d))
    ensures forall i :: 0 <= i < |r| ==> r[i] in AllNodes(d) && Z([RootStep] + steps, r[i])
    ensures forall i :: 0 <= i < |AllNodes(d)| && Z([RootStep] + steps, AllNodes(d)[i]) ==> AllNodes(d)[i] in r
  {
    var keep := (p: Pos) => Fold(steps, p);
    FilterIsSubsequence(AllNodes(d), keep);
    forall p: Pos {
      FoldIsZ(steps, p);
    }
    Filter(AllNodes(d), keep)
  }

  /** `GetOutput` (before the attribute fix): the retained nodes followed
      by every namespace node. */
  method GetOutput(d: Document, steps: seq<FilterStep>, namespaceNodes: seq<Pos>) returns (output: seq<Pos>)
    ensures forall p :: p in output <==> (p in AllNodes(d) && Z([RootStep] + steps, p)) || p in namespaceNodes
    ensures |namespaceNodes| <= |output|
    ensures IsSubsequence(output[..|output| - |namespaceNodes|], AllNodes(d))
    ensures output[|output| - |namespaceNodes|..] == namespaceNodes
  {
    var all := AllNodes(d);
    var keep := (p: Pos) => Fold(steps, p);
    output := [];
    var i := 0;
    while i < |all|
      invariant 0 <= i <= |all|
      invariant output == Filter(all[..i], keep)
    {
      var keepIt := ComputeInclude(steps, all[i]);
      FoldIsZ(steps, all[i]);
      FilterConcat(all[..i], [all[i]], keep);
      assert all[..i + 1] == all[..i] + [all[i]];
      if keepIt {
        output := output + [all[i]];
      }
      i := i + 1;
    }
    assert all[..|all|] == all;
    var retained := output;
    assert retained == Retained(d, steps);
    output := output + namespaceNodes;
    assert output[..|output| - |namespaceNodes|] == retained;
    assert forall p :: p in output <==> p in retained || p in namespaceNodes;
  }

  /** With no steps every node and attribute is kept. */
  lemma NoStepsKeepsAll(d: Document)
    ensures Retained(d, []) == AllNodes(d)
  {
    FilterAll(AllNodes(d), (p: Pos) => Fold([], p));
  }

  // ---------------------------------------------------------------------
  // Worked examples on the document A > B > C

  function Abc(): Document {
    Document([Element("", "A", [], [Element("", "B", [], [Element("", "C", [], [])])])])
  }

  const A: Pos := NodeAt([0])
  const B: Pos := NodeAt([0, 0])
  const C: Pos := NodeAt([0, 0, 0])

  lemma AbcNodes()
    ensures AllNodes(Abc()) == [NodeAt([]), A, B, C]
  {
    var c := Element("", "C", [], []);
    var b := Element("", "B", [], [c]);
    var a := Element("", "A", [], [b]);
    assert [0] + [0] == [0, 0] && [0, 0] + [0] == [0, 0, 0] && [] + [0] == [0];
    assert [c][1..] == [] && [b][1..] == [] && [a][1..] == [];
    assert NodesOf(c, [0, 0, 0]) == [C];
    assert NodesIn([c], [0, 0], 0) == NodesOf(c, [0, 0, 0]) + NodesIn([], [0, 0], 1);
    assert NodesOf(b, [0, 0]) == [B] + ([] + [C]);
    assert NodesIn([b], [0], 0) == NodesOf(b, [0, 0]) + NodesIn([], [0], 1);
    assert NodesOf(a, [0]) == [A] + ([] + [B, C]);
    assert NodesIn([a], [], 0) == NodesOf(a, [0]) + NodesIn([], [], 1);
  }

  lemma CoversAbc()
    ensures Covers(A, A) && Covers(A, B) && Covers(A, C) && !Covers(A, NodeAt([]))
    ensures Covers(B, B) && Covers(B, C) && !Covers(B, A) && !Covers(B, NodeAt([]))
    ensures Covers(C, C) && !Covers(C, B) && !Covers(C, A) && !Covers(C, NodeAt([]))
  {
    assert [0, 0][..1] == [0] && [0, 0, 0][..1] == [0] && [0, 0, 0][..2] == [0, 0];
  }

  lemma IsInSetSingle(q: Pos, p: Pos)
    ensures IsInSet([q], p) == Covers(q, p)
  {
  }

  /** The flag of two steps. */
  lemma FoldTwo(s0: FilterStep, s1: FilterStep, p: Pos)
    ensures Fold([s0, s1], p) == Effect(s1, p).GetOr(Effect(s0, p).GetOr(true))
  {
    assert [s0, s1][..1] == [s0] && [s0][..0] == [];
    assert Fold([s0], p) == Effect(s0, p).GetOr(Fold([], p));
  }

  /** `union A` then `intersect B` keeps B and C. */
  lemma ExampleUnionIntersect()
    ensures Retained(Abc(), [FilterStep(Union, [A]), FilterStep(Intersect, [B])]) == [B, C]
  {
    var u := FilterStep(Union, [A]);
    var x := FilterStep(Intersect, [B]);
    var keep := (p: Pos) => Fold([u, x], p);
    KeepAbc(u, x);
    assert !keep(NodeAt([])) && !keep(A) && keep(B) && keep(C);
    FilterFour(NodeAt([]), A, B, C, keep);
    AbcNodes();
  }

  /** `union A` then `subtract C` keeps the document node, A and B: nodes
      outside every union set keep the initial `true`. */
  lemma ExampleUnionSubtract()
    ensures Retained(Abc(), [FilterStep(Union, [A]), FilterStep(Subtract, [C])]) == [NodeAt([]), A, B]
  {
    var u := FilterStep(Union, [A]);
    var x := FilterStep(Subtract, [C]);
    var keep := (p: Pos) => Fold([u, x], p);
    KeepAbc(u, x);
    assert keep(NodeAt([])) && keep(A) && keep(B) && !keep(C);
    FilterFour(NodeAt([]), A, B, C, keep);
    AbcNodes();
  }

  /** The flags of the four nodes of A > B > C under two single-node steps. */
  lemma KeepAbc(s0: FilterStep, s1: FilterStep)
    requires s0 == FilterStep(Union, [A])
    requires s1 == FilterStep(Intersect, [B]) || s1 == FilterStep(Subtract, [C])
    ensures s1.op == Intersect ==> !Fold([s0, s1], NodeAt([])) && !Fold([s0, s1], A) && Fold([s0, s1], B) && Fold([s0, s1], C)
    ensures s1.op == Subtract ==> Fold([s0, s1], NodeAt([])) && Fold([s0, s1], A) && Fold([s0, s1], B) && !Fold([s0, s1], C)
  {
    CoversAbc();
    IsInSetSingle(A, NodeAt([]));
    IsInSetSingle(A, A);
    IsInSetSingle(A, B);
    IsInSetSingle(A, C);
    IsInSetSingle(s1.selected[0], NodeAt([]));
    IsInSetSingle(s1.selected[0], A);
    IsInSetSingle(s1.selected[0], B);
    IsInSetSingle(s1.selected[0], C);
    FoldTwo(s0, s1, NodeAt([]));
    FoldTwo(s0, s1, A);
    FoldTwo(s0, s1, B);
    FoldTwo(s0, s1, C);
  }

  function Kept(x: Pos, keep: Pos -> bool): seq<Pos> {
    if keep(x) then [x] else []
  }

  lemma FilterTwo(n2: Pos, n3: Pos, keep: Pos -> bool)
    ensures Filter([n2, n3], keep) == Kept(n2, keep) + Kept(n3, keep)
  {
    assert [n2, n3][1..] == [n3] && [n3][1..] == [];
  }

  lemma FilterThree(n1: Pos, n2: Pos, n3: Pos, keep: Pos -> bool)
    ensures Filter([n1, n2, n3], keep) == Kept(n1, keep) + (Kept(n2, keep) + Kept(n3, keep))
  {
    assert [n1, n2, n3][1..] == [n2, n3];
    FilterTwo(n2, n3, keep);
  }

  lemma FilterFour(n0: Pos, n1: Pos, n2: Pos, n3: Pos, keep: Pos -> bool)
    ensures Filter([n0, n1, n2, n3], keep) == Kept(n0, keep) + (Kept(n1, keep) + (Kept(n2, keep) + Kept(n3, keep)))
  {
    assert [n0, n1, n2, n3][1..] == [n1, n2, n3];
    FilterThree(n1, n2, n3, keep);
  }

  /** Step order matters: a later step overrides an earlier one. */
  lemma ExampleOrderMatters()
    ensures Fold([FilterStep(Subtract, [A]), FilterStep(Union, [B])], B)
    ensures !Fold([FilterStep(Union, [B]), FilterStep(Subtract, [A])], B)
  {
    CoversAbc();
    assert [FilterStep(Subtract, [A]), FilterStep(Union, [B])][..1] == [FilterStep(Subtract, [A])];
    assert [FilterStep(Union, [B]), FilterStep(Subtract, [A])][..1] == [FilterStep(Union, [B])];
  }

  // ---------------------------------------------------------------------
  // Parameters: XPath elements

  /** `XmlDSigFilterType.ToString("f")`. */
  function OpName(op: FilterOp): string {
    match op
    case Intersect => "intersect"
    case Subtract => "subtract"
    case Union => "union"
  }

  /** `Enum.TryParse<XmlDSigFilterType>`, restricted to the three names. */
  function ParseOp(s: Option<string>): (r: Option<FilterOp>)
    ensures r.Some? <==> s.Some? && s.value in {"intersect", "subtract", "union"}
    ensures r.Some? ==> OpName(r.value) == s.value
  {
    match s
    case None => None
    case Some(t) =>
      if t == "intersect" then Some(Intersect)
      else if t == "subtract" then Some(Subtract)
      else if t == "union" then Some(Union)
      else None
  }

  lemma ParseOpName(op: FilterOp)
    ensures ParseOp(Some(OpName(op))) == Some(op)
  {
  }

  /** An `XmlNamespaceManager`'s own declarations, in declaration order,
      one entry per prefix; `AddNamespace` is `Put`: re-declaring a prefix
      replaces its URI in place, a new prefix is appended. */
  type Namespaces = Dict

  /** Declarations from a list of (prefix, URI) pairs, added in order. */
  function NamespacesOf(pairs: seq<(string, string)>): (r: Namespaces)
    ensures UniqueKeys(r)
  {
    if |pairs| == 0 then []
    else Put(NamespacesOf(pairs[..|pairs| - 1]), pairs[|pairs| - 1].0, pairs[|pairs| - 1].1)
  }

  /** One filter step as configured: expression, operation, namespaces. */
  datatype FilterElement = FilterElement(xpath: string, op: FilterOp, namespaces: Namespaces)

  /** `xmlns:p` declarations (not the default `xmlns`). */
  predicate IsPrefixDeclaration(a: Attribute) {
    a.ns == XmlnsNs && a.local != "xmlns"
  }

  /** The namespace manager built from an element's `xmlns:p` attributes. */
  function DeclaredNamespaces(attrs: seq<Attribute>): (r: Namespaces)
    ensures UniqueKeys(r)
  {
    if |attrs| == 0 then []
    else
      var m := DeclaredNamespaces(attrs[..|attrs| - 1]);
      var a := attrs[|attrs| - 1];
      if IsPrefixDeclaration(a) then Put(m, a.local, a.value) else m
  }

  /** The value of the un-namespaced attribute `name`; `None` when absent
      (`Attributes[name]?.Value`). */
  function AttributeValue(e: Node, name: string): Option<string>
    requires e.Element?
  {
    match AttributeIndex(e.attrs, name)
    case None => None
    case Some(i) => Some(e.attrs[i].value)
  }

  /** `new XmlDsigFilterElement(node as XmlElement)`. */
  function ParseFilterElement(n: Node): (r: Result<FilterElement>)
    ensures r.Success? <==> n.Element? && n.local == "XPath" && ParseOp(AttributeValue(n, "Filter")).Some?
    ensures r.Failure? ==> r.error == (if n.Element? && n.local == "XPath" then "Invalid transform parameters" else "Unknown transform type")
    ensures r.Success? ==> r.value.xpath == Trim(InnerXml(n.children))
    ensures r.Success? ==> r.value.op == ParseOp(AttributeValue(n, "Filter")).value
    ensures r.Success? ==> r.value.namespaces == DeclaredNamespaces(n.attrs)
  {
    if n.Element? && n.local == "XPath" then
      match ParseOp(AttributeValue(n, "Filter"))
      case None => Failure("Invalid transform parameters")
      case Some(op) => Success(FilterElement(Trim(InnerXml(n.children)), op, DeclaredNamespaces(n.attrs)))
    else Failure("Unknown transform type")
  }

  /** The prefixes `GetInnerXml` writes out: not `xml`, `xmlns` or empty. */
  predicate Writable(prefix: string) {
    prefix != "xml" && prefix != "xmlns" && |prefix| > 0
  }

  function WritableNamespaces(m: Namespaces): (r: Namespaces)
    ensures forall i :: 0 <= i < |r| ==> r[i] in m && Writable(r[i].0)
    ensures UniqueKeys(m) ==> UniqueKeys(r)
  {
    if |m| == 0 then []
    else
      var rest := WritableNamespaces(m[1..]);
      if Writable(m[0].0) then
        assert UniqueKeys(m) ==> forall i :: 0 <= i < |rest| ==> rest[i].0 != m[0].0 by {
          if UniqueKeys(m) {
            forall i | 0 <= i < |rest|
              ensures rest[i].0 != m[0].0
            {
              var k :| 0 <= k < |m[1..]| && m[1..][k] == rest[i];
              assert m[k + 1] == rest[i];
            }
          }
        }
        [m[0]] + rest
      else rest
  }

  function DeclarationAttributes(m: Namespaces): (r: seq<Attribute>)
    ensures |r| == |m|
    ensures forall i :: 0 <= i < |r| ==> r[i] == Attribute(XmlnsNs, m[i].0, m[i].1)
  {
    seq(|m|, i requires 0 <= i < |m| => Attribute(XmlnsNs, m[i].0, m[i].1))
  }

  /** `XmlDsigFilterElement.GetInnerXml`: an `XPath` element in the filter
      namespace with the writable declarations, the expression set as its
      markup content (`InnerXml`, which fails on an expression that is
      not well-formed character data) and the `Filter` attribute. */
  function WriteFilterElement(f: FilterElement): (r: Result<Node>)
    ensures r.Success? <==> DecodeText(f.xpath).Success?
    ensures r.Success? ==> r.value.Element? && r.value.ns == Filter2Ns && r.value.local == "XPath"
    ensures r.Success? ==> InnerText(r.value) == DecodeText(f.xpath).value
  {
    var e := Element(Filter2Ns, "XPath", DeclarationAttributes(WritableNamespaces(f.namespaces)), []);
    match SetInnerXml(e, f.xpath)
    case Failure(err) => Failure(err)
    case Success(withText) => Success(SetAttribute(withText, "Filter", OpName(f.op)))
  }

  /** What reading back a written step gives: the expression as the
      content's markup reads it, trimmed, and the writable declarations. */
  function Normalized(f: FilterElement): FilterElement {
    FilterElement(Trim(Reread(f.xpath)), f.op, WritableNamespaces(f.namespaces))
  }

  lemma WriteFilterElementShape(f: FilterElement)
    requires DecodeText(f.xpath).Success?
    ensures WriteFilterElement(f)
            == Success(Element(Filter2Ns, "XPath", DeclarationAttributes(WritableNamespaces(f.namespaces)) + [Attribute("", "Filter", OpName(f.op))],
                               TextChildren(DecodeText(f.xpath).value)))
  {
    var decls := DeclarationAttributes(WritableNamespaces(f.namespaces));
    assert AttributeIndex(decls, "Filter").None?;
  }

  /** Attributes other than prefix declarations do not change the
      declared namespaces. */
  lemma {:induction false} DeclaredNamespacesIgnoresTail(attrs: seq<Attribute>, tail: seq<Attribute>)
    requires forall i :: 0 <= i < |tail| ==> !IsPrefixDeclaration(tail[i])
    ensures DeclaredNamespaces(attrs + tail) == DeclaredNamespaces(attrs)
  {
    if |tail| > 0 {
      var all := attrs + tail;
      assert all[..|all| - 1] == attrs + tail[..|tail| - 1];
      assert all[|all| - 1] == tail[|tail| - 1];
      DeclaredNamespacesIgnoresTail(attrs, tail[..|tail| - 1]);
    } else {
      assert attrs + tail == attrs;
    }
  }

  /** Reading back written declarations gives them unchanged. */
  lemma {:induction false} DeclaredNamespacesOfDeclarations(m: Namespaces)
    requires UniqueKeys(m)
    requires forall i :: 0 <= i < |m| ==> m[i].0 != "xmlns"
    ensures DeclaredNamespaces(DeclarationAttributes(m)) == m
  {
    if |m| > 0 {
      var init := m[..|m| - 1];
      var last := m[|m| - 1];
      var attrs := DeclarationAttributes(m);
      DeclarationAttributesInit(m);
      DeclaredNamespacesOfDeclarations(init);
      DeclarationsStep(attrs, init, last);
      assert forall i :: 0 <= i < |init| ==> init[i].0 != last.0;
      DeclarationsAppend(init, last);
      assert init + [last] == m;
    }
  }

  lemma DeclarationAttributesInit(m: Namespaces)
    requires |m| > 0
    ensures DeclarationAttributes(m)[..|m| - 1] == DeclarationAttributes(m[..|m| - 1])
  {
    var a := DeclarationAttributes(m)[..|m| - 1];
    var b := DeclarationAttributes(m[..|m| - 1]);
    assert |a| == |b|;
    forall i | 0 <= i < |a| ensures a[i] == b[i] { }
  }

  /** One declaration step: the last `xmlns:p` attribute adds its prefix. */
  lemma DeclarationsStep(attrs: seq<Attribute>, init: Namespaces, last: (string, string))
    requires |attrs| > 0 && attrs[|attrs| - 1] == Attribute(XmlnsNs, last.0, last.1) && last.0 != "xmlns"
    requires DeclaredNamespaces(attrs[..|attrs| - 1]) == init
    ensures DeclaredNamespaces(attrs) == Put(init, last.0, last.1)
  {
  }

  /** Putting a fresh key appends it. */
  lemma DeclarationsAppend(init: Namespaces, last: (string, string))
    requires UniqueKeys(init)
    requires forall i :: 0 <= i < |init| ==> init[i].0 != last.0
    ensures Put(init, last.0, last.1) == init + [last]
  {
    assert IndexOf(init, last.0).None?;
  }

  /** Writing a filter step fails exactly when its expression is not
      character data; reading a written step back keeps its operation,
      its writable namespace declarations, and its expression in the form
      the content's markup gives it, up to surrounding white space. */
  lemma ParseWriteFilterElement(f: FilterElement)
    requires UniqueKeys(f.namespaces)
    ensures WriteFilterElement(f).Success? <==> DecodeText(f.xpath).Success?
    ensures WriteFilterElement(f).Success? ==> ParseFilterElement(WriteFilterElement(f).value) == Success(Normalized(f))
  {
    if DecodeText(f.xpath).Success? {
      var n := WriteFilterElement(f).value;
      WrittenFilterAttribute(f);
      ParseOpName(f.op);
      WrittenDeclarations(f);
      WrittenMarkup(f);
      ParseParts(n, f);
    }
  }

  /** An expression in written form with no surrounding white space comes
      back exactly, with the writable declarations. */
  lemma ParseWriteEscaped(f: FilterElement)
    requires UniqueKeys(f.namespaces)
    requires IsEscapedText(f.xpath) && Trim(f.xpath) == f.xpath
    ensures WriteFilterElement(f).Success?
    ensures ParseFilterElement(WriteFilterElement(f).value) == Success(f.(namespaces := WritableNamespaces(f.namespaces)))
  {
    ParseWriteFilterElement(f);
    assert Reread(f.xpath) == f.xpath;
  }

  /** A `>` in the content reads back as `&gt;`: the expression is the
      content's markup, not its text. */
  lemma ReadsMarkupNotText(n: Node)
    requires n == Element(Filter2Ns, "XPath", [Attribute("", "Filter", "union")], [Text(">")])
    ensures ParseFilterElement(n) == Success(FilterElement("&gt;", Union, []))
  {
    assert EscapeText(">") == "&gt;" + EscapeText("");
    assert InnerXml(n.children) == "&gt;" + InnerXml([]);
    TrimUnchanged("&gt;");
  }

  /** An expression with `<` or a bare `&` cannot be written. */
  lemma WriteRejectsMarkup(f: FilterElement)
    requires |f.xpath| > 0 && (f.xpath[0] == '<' || (f.xpath[0] == '&' && SemicolonIndex(f.xpath).None?))
    ensures WriteFilterElement(f).Failure?
  {
  }

  lemma WrittenMarkup(f: FilterElement)
    requires DecodeText(f.xpath).Success?
    ensures InnerXml(WriteFilterElement(f).value.children) == Reread(f.xpath)
  {
    var e := Element(Filter2Ns, "XPath", DeclarationAttributes(WritableNamespaces(f.namespaces)), []);
    WriteFilterElementShape(f);
    assert WriteFilterElement(f).value.children == SetInnerXml(e, f.xpath).value.children;
  }

  /** An `XPath` element with the step's operation, declarations and
      content parses to the normalized step. */
  lemma ParseParts(n: Node, f: FilterElement)
    requires n.Element? && n.local == "XPath"
    requires ParseOp(AttributeValue(n, "Filter")) == Some(f.op)
    requires DeclaredNamespaces(n.attrs) == WritableNamespaces(f.namespaces)
    requires InnerXml(n.children) == Reread(f.xpath)
    ensures ParseFilterElement(n) == Success(Normalized(f))
  {
  }

  lemma WrittenFilterAttribute(f: FilterElement)
    requires DecodeText(f.xpath).Success?
    ensures AttributeValue(WriteFilterElement(f).value, "Filter") == Some(OpName(f.op))
  {
    var decls := DeclarationAttributes(WritableNamespaces(f.namespaces));
    WriteFilterElementShape(f);
    assert AttributeIndex(decls, "Filter").None?;
    AttributeIndexAppend(decls, Attribute("", "Filter", OpName(f.op)), "Filter");
  }

  lemma WrittenDeclarations(f: FilterElement)
    requires UniqueKeys(f.namespaces)
    requires DecodeText(f.xpath).Success?
    ensures DeclaredNamespaces(WriteFilterElement(f).value.attrs) == WritableNamespaces(f.namespaces)
  {
    var w := WritableNamespaces(f.namespaces);
    var filterAttr := Attribute("", "Filter", OpName(f.op));
    WriteFilterElementShape(f);
    DeclaredNamespacesIgnoresTail(DeclarationAttributes(w), [filterAttr]);
    DeclaredNamespacesOfDeclarations(w);
  }

  // ---------------------------------------------------------------------
  // The transform's parameter list

  /** Parses the elements in order; the first failure is the result. */
  function ParseFilterElements(nodes: seq<Node>): (r: Result<seq<FilterElement>>)
    ensures r.Success? <==> forall i :: 0 <= i < |nodes| ==> ParseFilterElement(nodes[i]).Success?
    ensures r.Success? ==> (|r.value| == |nodes|
              && forall i :: 0 <= i < |nodes| ==> r.value[i] == ParseFilterElement(nodes[i]).value)
  {
    if |nodes| == 0 then Success([])
    else
      match ParseFilterElement(nodes[0])
      case Failure(e) => Failure(e)
      case Success(f) =>
        match ParseFilterElements(nodes[1..])
        case Failure(e) =>
          Failure(e)
        case Success(fs) => Success([f] + fs)
  }

  /** `LoadInnerXml`: a null node list is rejected. */
  function LoadInnerXml(nodes: Option<seq<Node>>): (r: Result<seq<FilterElement>>)
    ensures nodes.None? ==> r == Failure("Unknown transform type")
    ensures nodes.Some? ==> r == ParseFilterElements(nodes.value)
  {
    match nodes
    case None => Failure("Unknown transform type")
    case Some(ns) => ParseFilterElements(ns)
  }

  /** Every step's expression can be written as content. */
  predicate AllWritable(fs: seq<FilterElement>) {
    forall i :: 0 <= i < |fs| ==> DecodeText(fs[i].xpath).Success?
  }

  /** The first step whose expression cannot be written. */
  function FirstUnwritable(fs: seq<FilterElement>): (i: nat)
    requires !AllWritable(fs)
    ensures i < |fs| && DecodeText(fs[i].xpath).Failure?
    ensures forall k :: 0 <= k < i ==> DecodeText(fs[k].xpath).Success?
  {
    if DecodeText(fs[0].xpath).Failure? then 0
    else
      assert !AllWritable(fs[1..]) by {
        var k :| 0 <= k < |fs| && DecodeText(fs[k].xpath).Failure?;
        assert fs[1..][k - 1] == fs[k];
      }
      1 + FirstUnwritable(fs[1..])
  }

  /** The parameter elements of a filter transform, one per step, written
      in order; the first step that cannot be written is the error. */
  function GetInnerXml(fs: seq<FilterElement>): (r: Result<seq<Node>>)
    ensures r.Success? <==> AllWritable(fs)
    ensures r.Success? ==> |r.value| == |fs| && forall i :: 0 <= i < |fs| ==> Success(r.value[i]) == WriteFilterElement(fs[i])
    ensures r.Failure? ==> WriteFilterElement(fs[FirstUnwritable(fs)]) == Failure(r.error)
  {
    if |fs| == 0 then Success([])
    else
      match WriteFilterElement(fs[0])
      case Failure(e) => Failure(e)
      case Success(n) =>
        match GetInnerXml(fs[1..])
        case Failure(e) => Failure(e)
        case Success(ns) =>
          assert forall i :: 1 <= i < |fs| ==> fs[i] == fs[1..][i - 1];
          Success([n] + ns)
  }

  lemma ParseWrittenElements(fs: seq<FilterElement>)
    requires forall i :: 0 <= i < |fs| ==> UniqueKeys(fs[i].namespaces)
    requires AllWritable(fs)
    ensures forall i :: 0 <= i < |fs| ==> ParseFilterElement(GetInnerXml(fs).value[i]) == Success(Normalized(fs[i]))
  {
    forall i | 0 <= i < |fs|
      ensures ParseFilterElement(GetInnerXml(fs).value[i]) == Success(Normalized(fs[i]))
    {
      ParseWriteFilterElement(fs[i]);
    }
  }

  /** Every step, normalized. */
  function NormalizedAll(fs: seq<FilterElement>): (r: seq<FilterElement>)
    ensures |r| == |fs| && forall k :: 0 <= k < |fs| ==> r[k] == Normalized(fs[k])
  {
    seq(|fs|, k requires 0 <= k < |fs| => Normalized(fs[k]))
  }

  /** Writing the parameter list fails exactly when some step's expression
      cannot be written; loading a written list back gives every step in
      order, normalized as `ParseWriteFilterElement` states. */
  lemma LoadInnerXmlGetInnerXml(fs: seq<FilterElement>)
    requires forall i :: 0 <= i < |fs| ==> UniqueKeys(fs[i].namespaces)
    ensures GetInnerXml(fs).Success? <==> AllWritable(fs)
    ensures GetInnerXml(fs).Success? ==> LoadInnerXml(Some(GetInnerXml(fs).value)) == Success(NormalizedAll(fs))
  {
    if AllWritable(fs) {
      ParseWrittenElements(fs);
      var r := ParseFilterElements(GetInnerXml(fs).value);
      assert r.Success?;
      assert r.value == NormalizedAll(fs);
    }
  }

  /** `GetInnerXml` as written: each element is written and then appended
      to one fresh `XmlDocument`, which accepts a single document element,
      so a second step that can be written is rejected when appended. */
  function GetInnerXmlAsWritten(fs: seq<FilterElement>): (r: Result<seq<Node>>)
    ensures r.Success? <==> |fs| <= 1 && GetInnerXml(fs).Success?
    ensures r.Success? ==> r.value == GetInnerXml(fs).value
    ensures |fs| >= 2 && WriteFilterElement(fs[0]).Success? && WriteFilterElement(fs[1]).Success? ==>
              r == Failure("This document already has a 'DocumentElement' node.")
  {
    if |fs| == 0 then Success([])
    else
      match WriteFilterElement(fs[0])
      case Failure(e) => Failure(e)
      case Success(n) =>
        if |fs| == 1 then Success([n])
        else
          match WriteFilterElement(fs[1])
          case Failure(e) => Failure(e)
          case Success(_) => Failure("This document already has a 'DocumentElement' node.")
  }

  /** A two-step filter (as the array constructor builds) cannot be
      written out. */
  lemma GetInnerXmlAsWrittenRejectsTwoSteps()
    ensures FromArrays(["//a", "//b"], [Union, Subtract], []).Success?
    ensures GetInnerXmlAsWritten(FromArrays(["//a", "//b"], [Union, Subtract], []).value).Failure?
  {
  }

  /** The constructor taking parallel arrays of expressions and
      operations, sharing one namespace manager. */
  function FromArrays(xpaths: seq<string>, ops: seq<FilterOp>, pairs: seq<(string, string)>): (r: Result<seq<FilterElement>>)
    ensures r.Failure? <==> |xpaths| != |ops|
    ensures r.Failure? ==> r.error == "Invalid transform parmeters"
    ensures r.Success? ==> (|r.value| == |xpaths|
              && forall i :: 0 <= i < |xpaths| ==> r.value[i] == FilterElement(xpaths[i], ops[i], NamespacesOf(pairs)))
  {
    if |xpaths| != |ops| then Failure("Invalid transform parmeters")
    else
      var m := NamespacesOf(pairs);
      Success(seq(|xpaths|, i requires 0 <= i < |xpaths| => FilterElement(xpaths[i], ops[i], m)))
  }

  /** The constructor taking one expression and operation. */
  function FromSingle(xpath: string, op: FilterOp, pairs: seq<(string, string)>): (r: seq<FilterElement>)
    ensures FromArrays([xpath], [op], pairs) == Success(r)
  {
    var r := [FilterElement(xpath, op, NamespacesOf(pairs))];
    assert FromArrays([xpath], [op], pairs).value == r;
    r
  }
}
