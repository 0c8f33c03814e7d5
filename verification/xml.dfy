/** A small XML DOM: element trees, inner text, the two helpers of
    `XadesXmlExtension` (`CreateChild`, `GetInnerText`) and the child-path
    selections (`SelectSingleNode`/`SelectNodes` with `a:B/c:D[...]`
    expressions) that the signature code issues. */
module Xml {
  import opened Wrappers
  import opened Seqs

  const XmlNamespaceUri: string := "http://www.w3.org/XML/1998/namespace"
  const DsigNs: string := "http://www.w3.org/2000/09/xmldsig#"
  const XadesNs: string := "http://uri.etsi.org/01903/v1.3.2#"
  const Filter2Ns: string := "http://www.w3.org/2002/06/xmldsig-filter2"
  /** Namespace of `xmlns` and `xmlns:p` declaration attributes in the DOM. */
  const XmlnsNs: string := "http://www.w3.org/2000/xmlns/"
  /** `SignedXml.XmlDsigSHA256Url`. */
  const Sha256Url: string := "http://www.w3.org/2001/04/xmlenc#sha256"

  /** An attribute; `ns` is the namespace URI ("" for none). As in the DOM,
      a declaration `xmlns:p="u"` is the attribute `(XmlnsNs, p, u)` and a
      default declaration `xmlns="u"` is `(XmlnsNs, "xmlns", u)`. */
  datatype Attribute = Attribute(ns: string, local: string, value: string)

  datatype Node =
    | Element(ns: string, local: string, attrs: seq<Attribute>, children: seq<Node>)
    | Text(data: string)
    | Comment(data: string)

  /** A document node and its top-level children. */
  datatype Document = Document(children: seq<Node>)

  /** `XmlDocument.DocumentElement`: the first element child, if any. */
  function DocumentElement(d: Document): (r: Option<Node>)
    ensures r.Some? ==> r.value.Element?
    ensures r.None? <==> forall i :: 0 <= i < |d.children| ==> !d.children[i].Element?
  {
    FirstWhere(d.children, (n: Node) => n.Element?)
  }

  function NewElement(ns: string, local: string): (e: Node)
    ensures e.Element? && e.ns == ns && e.local == local
    ensures e.attrs == [] && e.children == []
  {
    Element(ns, local, [], [])
  }

  // ---------------------------------------------------------------------
  // Inner text

  /** `XmlNode.InnerText`: the concatenated text of all descendant text
      nodes; comments contribute nothing. */
  function InnerText(n: Node): string
    decreases n, 1
  {
    match n
    case Text(d) => d
    case Comment(_) => ""
    case Element(_, _, _, cs) => ChildrenText(cs)
  }

  function ChildrenText(cs: seq<Node>): string
    decreases cs, 0
  {
    if |cs| == 0 then "" else InnerText(cs[0]) + ChildrenText(cs[1..])
  }

  /** `XmlNode.Value`: the data of a text or comment node; an element has
      no value. */
  function Value(n: Node): (r: Option<string>)
    ensures r.None? <==> n.Element?
  {
    match n
    case Element(_, _, _, _) => None
    case Text(data) => Some(data)
    case Comment(data) => Some(data)
  }

  /** The inner texts of a node list, in order (`Select(x => x.InnerText)`). */
  function Texts(ns: seq<Node>): (r: seq<string>)
    ensures |r| == |ns| && forall i :: 0 <= i < |ns| ==> r[i] == InnerText(ns[i])
  {
    seq(|ns|, i requires 0 <= i < |ns| => InnerText(ns[i]))
  }

  /** Setting `InnerText` replaces the children by one text node. A null
      value gives a text node whose data reads back as "". */
  function SetInnerText(e: Node, text: Option<string>): (r: Node)
    requires e.Element?
    ensures r.Element? && r.ns == e.ns && r.local == e.local && r.attrs == e.attrs
    ensures InnerText(r) == text.GetOr("")
  {
    var r := e.(children := [Text(text.GetOr(""))]);
    assert ChildrenText(r.children) == text.GetOr("") + ChildrenText([]);
    r
  }

  /** An element holding only the given text. */
  function TextElement(ns: string, local: string, text: Option<string>): (e: Node)
    ensures e.Element? && e.ns == ns && e.local == local && e.attrs == []
    ensures InnerText(e) == text.GetOr("")
  {
    SetInnerText(NewElement(ns, local), text)
  }

  // ---------------------------------------------------------------------
  // Attributes

  /** Index of the un-namespaced attribute `name`, if present. */
  function AttributeIndex(attrs: seq<Attribute>, name: string): (r: Option<nat>)
    ensures r.None? <==> forall i :: 0 <= i < |attrs| ==> !(attrs[i].ns == "" && attrs[i].local == name)
    ensures r.Some? ==> r.value < |attrs| && attrs[r.value].ns == "" && attrs[r.value].local == name
  {
    if |attrs| == 0 then None
    else if attrs[0].ns == "" && attrs[0].local == name then Some(0)
    else
      match AttributeIndex(attrs[1..], name)
      case None => None
      case Some(i) => Some(i + 1)
  }

  /** `XmlElement.GetAttribute(name)`: the value, or "" when absent. */
  function GetAttribute(e: Node, name: string): (v: string)
    requires e.Element?
    ensures AttributeIndex(e.attrs, name).None? ==> v == ""
    ensures AttributeIndex(e.attrs, name).Some? ==> v == e.attrs[AttributeIndex(e.attrs, name).value].value
  {
    match AttributeIndex(e.attrs, name)
    case None => ""
    case Some(i) => e.attrs[i].value
  }

  /** `XmlElement.SetAttribute(name, value)`: overwrites an existing
      attribute in place, otherwise appends one. */
  function SetAttribute(e: Node, name: string, value: string): (r: Node)
    requires e.Element?
    ensures r.Element? && r.ns == e.ns && r.local == e.local && r.children == e.children
    ensures GetAttribute(r, name) == value
  {
    match AttributeIndex(e.attrs, name)
    case None =>
      var r := e.(attrs := e.attrs + [Attribute("", name, value)]);
      assert AttributeIndex(r.attrs, name) == Some(|e.attrs|) by {
        AttributeIndexAppend(e.attrs, Attribute("", name, value), name);
      }
      r
    case Some(i) =>
      var r := e.(attrs := e.attrs[i := Attribute("", name, value)]);
      assert AttributeIndex(r.attrs, name) == Some(i) by {
        AttributeIndexUpdate(e.attrs, i, Attribute("", name, value), name);
      }
      r
  }

  lemma AttributeIndexAppend(attrs: seq<Attribute>, a: Attribute, name: string)
    requires AttributeIndex(attrs, name).None?
    requires a.ns == "" && a.local == name
    ensures AttributeIndex(attrs + [a], name) == Some(|attrs|)
  {
    if |attrs| > 0 {
      assert (attrs + [a])[1..] == attrs[1..] + [a];
      AttributeIndexAppend(attrs[1..], a, name);
    }
  }

  lemma AttributeIndexUpdate(attrs: seq<Attribute>, i: nat, a: Attribute, name: string)
    requires AttributeIndex(attrs, name) == Some(i)
    requires a.ns == "" && a.local == name
    ensures AttributeIndex(attrs[i := a], name) == Some(i)
  {
    if i > 0 {
      assert attrs[i := a][1..] == attrs[1..][i - 1 := a];
      AttributeIndexUpdate(attrs[1..], i - 1, a, name);
    }
  }

  // ---------------------------------------------------------------------
  // CreateChild

  /** `AppendChild`. */
  function AppendChild(parent: Node, child: Node): (r: Node)
    requires parent.Element?
    ensures r.Element? && r.ns == parent.ns && r.local == parent.local && r.attrs == parent.attrs
    ensures |r.children| == |parent.children| + 1
    ensures r.children[..|parent.children|] == parent.children && r.children[|parent.children|] == child
  {
    parent.(children := parent.children + [child])
  }

  /** `CreateChild`: a new empty element with the given name appended as
      the last child; returns the new parent and the child. */
  function CreateChild(parent: Node, ns: string, local: string): (r: (Node, Node))
    requires parent.Element?
    ensures r.1 == NewElement(ns, local)
    ensures r.0 == AppendChild(parent, r.1)
  {
    var child := NewElement(ns, local);
    (AppendChild(parent, child), child)
  }

  // ---------------------------------------------------------------------
  // Child-path selection

  /** A predicate of a location step: none, `[@name='value']`,
      `[p:child='value']` (some child element with that text), or
      `[@xml:lang='value']`. */
  datatype Predicate =
    | Always
    | AttributeIs(name: string, value: string)
    | ChildTextIs(childNs: string, childLocal: string, value: string)
    | LangIs(value: string)

  /** A child step `p:local[pred]` with the prefix already resolved, or,
      when `ns` is `None`, `*[local-name()='local' and pred]`. */
  datatype Step = Step(ns: Option<string>, local: string, pred: Predicate)

  /** `p:local`, with `p` bound to `ns`. */
  function Child(ns: string, local: string): Step {
    Step(Some(ns), local, Always)
  }

  /** `*[local-name()='local']`. */
  function AnyChild(local: string): Step {
    Step(None, local, Always)
  }

  predicate HasChildText(cs: seq<Node>, ns: string, local: string, value: string) {
    exists i :: 0 <= i < |cs| && cs[i].Element? && cs[i].ns == ns && cs[i].local == local && InnerText(cs[i]) == value
  }

  /** The element carries `xml:lang="value"`. */
  predicate HasLang(n: Node, value: string) {
    n.Element? && exists i :: 0 <= i < |n.attrs| && n.attrs[i] == Attribute(XmlNamespaceUri, "lang", value)
  }

  /** `HasLang` as a filter, one term for every use. */
  function InLanguage(value: string): Node -> bool {
    (n: Node) => HasLang(n, value)
  }

  predicate NameMatches(n: Node, s: Step) {
    n.Element? && (s.ns.None? || n.ns == s.ns.value) && n.local == s.local
  }

  predicate Matches(n: Node, s: Step) {
    && NameMatches(n, s)
    && match s.pred
       case Always => true
       case AttributeIs(name, value) => AttributeIndex(n.attrs, name).Some? && GetAttribute(n, name) == value
       case ChildTextIs(cns, clocal, value) => HasChildText(n.children, cns, clocal, value)
       case LangIs(value) => HasLang(n, value)
  }

  /** Every element reached from `n` along `path`, in document order
      (`SelectNodes`). */
  function SelectAll(n: Node, path: seq<Step>): (r: seq<Node>)
    ensures |path| > 0 ==> forall i :: 0 <= i < |r| ==> Matches(r[i], path[|path| - 1])
    decreases n, |path|, 1
  {
    if |path| == 0 then [n]
    else if !n.Element? then []
    else SelectAllIn(n.children, path)
  }

  function SelectAllIn(cs: seq<Node>, path: seq<Step>): (r: seq<Node>)
    requires |path| > 0
    ensures forall i :: 0 <= i < |r| ==> Matches(r[i], path[|path| - 1])
    decreases cs, |path|, 0
  {
    if |cs| == 0 then []
    else
      (if Matches(cs[0], path[0]) then SelectAll(cs[0], path[1..]) else []) + SelectAllIn(cs[1..], path)
  }

  /** The first element reached along `path` (`SelectSingleNode`), found by
      a depth-first search that stops at the first hit. */
  function SelectFirst(n: Node, path: seq<Step>): Option<Node>
    decreases n, |path|, 1
  {
    if |path| == 0 then Some(n)
    else if !n.Element? then None
    else SelectFirstIn(n.children, path)
  }

  function SelectFirstIn(cs: seq<Node>, path: seq<Step>): Option<Node>
    requires |path| > 0
    decreases cs, |path|, 0
  {
    if |cs| == 0 then None
    else if Matches(cs[0], path[0]) && SelectFirst(cs[0], path[1..]).Some? then SelectFirst(cs[0], path[1..])
    else SelectFirstIn(cs[1..], path)
  }

  function Head(s: seq<Node>): Option<Node> {
    if |s| == 0 then None else Some(s[0])
  }

  /** `SelectSingleNode` returns the first node that `SelectNodes` lists. */
  lemma {:induction false} SelectFirstIsFirstOfAll(n: Node, path: seq<Step>)
    ensures SelectFirst(n, path) == Head(SelectAll(n, path))
    decreases n, |path|, 1
  {
    if |path| > 0 && n.Element? {
      SelectFirstInIsFirstOfAll(n.children, path);
    }
  }

  lemma {:induction false} SelectFirstInIsFirstOfAll(cs: seq<Node>, path: seq<Step>)
    requires |path| > 0
    ensures SelectFirstIn(cs, path) == Head(SelectAllIn(cs, path))
    decreases cs, |path|, 0
  {
    if |cs| > 0 {
      SelectFirstInIsFirstOfAll(cs[1..], path);
      if Matches(cs[0], path[0]) {
        SelectFirstIsFirstOfAll(cs[0], path[1..]);
      }
    }
  }

  /** `SelectSingleNode` descends into the first child that matches the
      path's first step, when that child leads to a hit. */
  lemma {:induction false} SelectFirstInAt(cs: seq<Node>, path: seq<Step>, k: nat)
    requires |path| > 0 && k < |cs| && Matches(cs[k], path[0])
    requires SelectFirst(cs[k], path[1..]).Some?
    requires forall j :: 0 <= j < k ==> !Matches(cs[j], path[0])
    ensures SelectFirstIn(cs, path) == SelectFirst(cs[k], path[1..])
    decreases k
  {
    if k > 0 {
      SelectFirstInAt(cs[1..], path, k - 1);
    }
  }

  /** Nothing is found when no child matches the path's first step. */
  lemma {:induction false} SelectFirstInMiss(cs: seq<Node>, path: seq<Step>)
    requires |path| > 0
    requires forall j :: 0 <= j < |cs| ==> !Matches(cs[j], path[0])
    ensures SelectFirstIn(cs, path).None?
    decreases |cs|
  {
    if |cs| > 0 {
      SelectFirstInMiss(cs[1..], path);
    }
  }

  /** Appending a child puts its matches after all earlier ones. */
  lemma {:induction false} SelectAllInAppend(cs: seq<Node>, c: Node, path: seq<Step>)
    requires |path| > 0
    ensures SelectAllIn(cs + [c], path) == SelectAllIn(cs, path) + SelectAllIn([c], path)
    decreases |cs|
  {
    if |cs| > 0 {
      var xs := cs + [c];
      assert xs[0] == cs[0] && xs[1..] == cs[1..] + [c];
      SelectAllInAppend(cs[1..], c, path);
      var h := if Matches(cs[0], path[0]) then SelectAll(cs[0], path[1..]) else [];
      assert SelectAllIn(xs, path) == h + SelectAllIn(xs[1..], path);
      assert SelectAllIn(cs, path) == h + SelectAllIn(cs[1..], path);
      ConcatAssoc(h, SelectAllIn(cs[1..], path), SelectAllIn([c], path));
    } else {
      assert cs + [c] == [c];
    }
  }

  /** Concatenation is associative. */
  lemma ConcatAssoc<T>(a: seq<T>, b: seq<T>, c: seq<T>)
    ensures a + (b + c) == (a + b) + c
  {
  }

  /** After `CreateChild(e, ns, local)` the elements named `ns:local` under
      `e` are the earlier ones followed by the new child. */
  lemma CreateChildSelect(parent: Node, ns: string, local: string)
    requires parent.Element?
    ensures var r := CreateChild(parent, ns, local);
            SelectAll(r.0, [Child(ns, local)]) == SelectAll(parent, [Child(ns, local)]) + [r.1]
  {
    var r := CreateChild(parent, ns, local);
    var path := [Child(ns, local)];
    SelectAllInAppend(parent.children, r.1, path);
    assert SelectAllIn([r.1], path) == SelectAll(r.1, path[1..]) + SelectAllIn([], path);
  }

  /** `GetInnerText`: null for a null element, null when nothing matches,
      otherwise the inner text of the first match. */
  function GetInnerText(e: Option<Node>, path: seq<Step>): (r: Option<string>)
    ensures e.None? ==> r.None?
    ensures e.Some? ==> (r.None? <==> SelectAll(e.value, path) == [])
    ensures e.Some? && r.Some? ==> r.value == InnerText(SelectAll(e.value, path)[0])
  {
    match e
    case None => None
    case Some(n) =>
      SelectFirstIsFirstOfAll(n, path);
      match SelectFirst(n, path)
      case None => None
      case Some(m) => Some(InnerText(m))
  }

  // ---------------------------------------------------------------------
  // Descendant search (`//p:local[pred]` from the document)

  /** All nodes below and including `n`, in document order. */
  function Preorder(n: Node): seq<Node>
    decreases n, 1
  {
    [n] + (if n.Element? then PreorderAll(n.children) else [])
  }

  function PreorderAll(cs: seq<Node>): seq<Node>
    decreases cs, 0
  {
    if |cs| == 0 then [] else Preorder(cs[0]) + PreorderAll(cs[1..])
  }

  /** Depth-first search for the first node in document order matching `s`. */
  function FindDescendant(cs: seq<Node>, s: Step): Option<Node>
    decreases cs, 1
  {
    if |cs| == 0 then None
    else if Matches(cs[0], s) then Some(cs[0])
    else
      match if cs[0].Element? then FindDescendant(cs[0].children, s) else None
      case Some(m) => Some(m)
      case None => FindDescendant(cs[1..], s)
  }

  /** The search finds the first node of the document-order listing that
      matches. */
  lemma {:induction false} FindDescendantIsFirst(cs: seq<Node>, s: Step)
    ensures FindDescendant(cs, s) == FirstWhere(PreorderAll(cs), (m: Node) => Matches(m, s))
    decreases cs, 1
  {
    if |cs| > 0 {
      var p := (m: Node) => Matches(m, s);
      var inner := if cs[0].Element? then PreorderAll(cs[0].children) else [];
      FirstWhereConcat([cs[0]] + inner, PreorderAll(cs[1..]), p);
      FirstWhereConcat([cs[0]], inner, p);
      if cs[0].Element? {
        FindDescendantIsFirst(cs[0].children, s);
      }
      FindDescendantIsFirst(cs[1..], s);
      assert PreorderAll(cs) == ([cs[0]] + inner) + PreorderAll(cs[1..]);
    }
  }

  lemma FirstWhereConcat<T>(a: seq<T>, b: seq<T>, p: T -> bool)
    ensures FirstWhere(a + b, p) == (if FirstWhere(a, p).Some? then FirstWhere(a, p) else FirstWhere(b, p))
  {
    if |a| > 0 {
      assert (a + b)[1..] == a[1..] + b;
      FirstWhereConcat(a[1..], b, p);
    } else {
      assert a + b == b;
    }
  }

  /** `document.SelectSingleNode("//p:local[pred]")`. */
  function SelectDescendant(d: Document, s: Step): (r: Option<Node>)
    ensures r.Some? ==> Matches(r.value, s)
    ensures r.None? <==> forall i :: 0 <= i < |PreorderAll(d.children)| ==> !Matches(PreorderAll(d.children)[i], s)
  {
    FindDescendantIsFirst(d.children, s);
    FindDescendant(d.children, s)
  }

  /** The first element of a listing is the first that satisfies `p`
      once the listing is filtered by `p`. */
  lemma HeadFilter(s: seq<Node>, p: Node -> bool)
    ensures Head(Filter(s, p)) == FirstWhere(s, p)
  {
    if |s| > 0 && !p(s[0]) {
      HeadFilter(s[1..], p);
    }
  }

  /** Narrowing a child step to `[@xml:lang='v']` keeps the matches that
      carry that language, in the same order. */
  lemma {:induction false} SelectAllInLang(cs: seq<Node>, ns: Option<string>, local: string, v: string)
    ensures SelectAllIn(cs, [Step(ns, local, LangIs(v))])
            == Filter(SelectAllIn(cs, [Step(ns, local, Always)]), InLanguage(v))
  {
    if |cs| > 0 {
      var any := [Step(ns, local, Always)];
      var lang := [Step(ns, local, LangIs(v))];
      var p := InLanguage(v);
      SelectAllInLang(cs[1..], ns, local, v);
      var head := if Matches(cs[0], any[0]) then SelectAll(cs[0], any[1..]) else [];
      assert SelectAllIn(cs, any) == head + SelectAllIn(cs[1..], any);
      FilterConcat(head, SelectAllIn(cs[1..], any), p);
      if Matches(cs[0], any[0]) {
        assert head == [cs[0]];
      }
    }
  }

  /** `Matches` against one step, as a filter. */
  function Matching(s: Step): Node -> bool {
    (n: Node) => Matches(n, s)
  }

  /** A one-step path selects the matching children, in order. */
  lemma {:induction false} SelectAllInOne(cs: seq<Node>, s: Step)
    ensures SelectAllIn(cs, [s]) == Filter(cs, Matching(s))
  {
    if |cs| > 0 {
      SelectAllInOne(cs[1..], s);
      if Matches(cs[0], s) {
        assert SelectAll(cs[0], [s][1..]) == [cs[0]];
      }
    }
  }

  /** ... and its first hit is the first matching child. */
  lemma SelectFirstInOne(cs: seq<Node>, s: Step)
    ensures SelectFirstIn(cs, [s]) == FirstWhere(cs, Matching(s))
  {
    SelectFirstInIsFirstOfAll(cs, [s]);
    SelectAllInOne(cs, s);
    HeadFilter(cs, Matching(s));
  }

  // ---------------------------------------------------------------------
  // Descendant paths (`//a:B/c:D/...` from the document)

  /** A node paired with its element ancestors, outermost first. */
  type Placed = (Node, seq<Node>)

  /** Every node below `cs` in document order, with its ancestors. */
  function Located(cs: seq<Node>, ancestors: seq<Node>): seq<Placed>
    decreases cs, 0
  {
    if |cs| == 0 then [] else LocatedOne(cs[0], ancestors) + Located(cs[1..], ancestors)
  }

  function LocatedOne(n: Node, ancestors: seq<Node>): seq<Placed>
    decreases n, 1
  {
    [(n, ancestors)] + (if n.Element? then Located(n.children, ancestors + [n]) else [])
  }

  /** `n`, below `ancestors`, is reached by `//path`: it matches the last
      step and its nearest ancestors match the earlier steps in order. */
  predicate EndsPath(n: Node, ancestors: seq<Node>, path: seq<Step>) {
    && |path| > 0
    && |ancestors| >= |path| - 1
    && Matches(n, path[|path| - 1])
    && forall i :: 0 <= i < |path| - 1 ==> Matches(ancestors[|ancestors| - |path| + 1 + i], path[i])
  }

  function Firsts(ps: seq<Placed>): (r: seq<Node>)
    ensures |r| == |ps| && forall i :: 0 <= i < |ps| ==> r[i] == ps[i].0
  {
    seq(|ps|, i requires 0 <= i < |ps| => ps[i].0)
  }

  lemma FirstsConcat(a: seq<Placed>, b: seq<Placed>)
    ensures Firsts(a + b) == Firsts(a) + Firsts(b)
  {
  }

  /** `document.SelectNodes("//path")`: the nodes reached, in document
      order. */
  function SelectPath(d: Document, path: seq<Step>): (r: seq<Node>)
    ensures |path| > 0 ==> forall i :: 0 <= i < |r| ==> Matches(r[i], path[|path| - 1])
  {
    Firsts(Filter(Located(d.children, []), (p: Placed) => EndsPath(p.0, p.1, path)))
  }

  /** Filtering located nodes by a conjunction is filtering by the first
      part and then the nodes by the second. */
  lemma {:induction false} FirstsFilter(ps: seq<Placed>, a: Placed -> bool,
                                        both: Placed -> bool, b: Node -> bool)
    requires forall i :: 0 <= i < |ps| ==> both(ps[i]) == (a(ps[i]) && b(ps[i].0))
    ensures Firsts(Filter(ps, both)) == Filter(Firsts(Filter(ps, a)), b)
  {
    if |ps| > 0 {
      FirstsFilter(ps[1..], a, both, b);
      var hb := if both(ps[0]) then [ps[0]] else [];
      var ha := if a(ps[0]) then [ps[0]] else [];
      assert Filter(ps, both) == hb + Filter(ps[1..], both);
      assert Filter(ps, a) == ha + Filter(ps[1..], a);
      FirstsConcat(hb, Filter(ps[1..], both));
      FirstsConcat(ha, Filter(ps[1..], a));
      FilterConcat(Firsts(ha), Firsts(Filter(ps[1..], a)), b);
    }
  }

  /** Narrowing the last step of `//path` to `[@xml:lang='v']` keeps the
      nodes reached that carry that language, in the same order. */
  lemma SelectPathLang(d: Document, prefix: seq<Step>, ns: Option<string>, local: string, v: string)
    ensures SelectPath(d, prefix + [Step(ns, local, LangIs(v))])
            == Filter(SelectPath(d, prefix + [Step(ns, local, Always)]), InLanguage(v))
  {
    var lang := prefix + [Step(ns, local, LangIs(v))];
    var any := prefix + [Step(ns, local, Always)];
    var ps := Located(d.children, []);
    var a := (p: Placed) => EndsPath(p.0, p.1, any);
    var both := (p: Placed) => EndsPath(p.0, p.1, lang);
    assert forall i :: 0 <= i < |prefix| ==> lang[i] == prefix[i] == any[i];
    FirstsFilter(ps, a, both, InLanguage(v));
  }
}
