/** Transform sets of the signing application (`SBRAssurance.Model.TransformSet`):
    a named transform chain read from the settings file, with the list of
    file types it is the default for. */
module TransformSets {
  import opened Wrappers
  import opened Seqs
  import opened Strings
  import opened Xml
  import opened Dictionaries
  import opened Filter2

  /** A transform of a reference's chain. The filter transform carries its
      parsed steps; every other registered transform keeps the parameter
      nodes it was loaded from. */
  datatype Transform =
    | FilterTransform(elements: seq<FilterElement>)
    | OtherTransform(algorithm: string, content: seq<Node>)

  function AlgorithmOf(t: Transform): string {
    match t
    case FilterTransform(_) => Filter2Ns
    case OtherTransform(a, _) => a
  }

  /** A set as held by the application. `None` stands for a null field: the
      empty entry has no `DefaultFor` and no chain. */
  datatype TransformSet = TransformSet(name: Option<string>, defaultFor: Option<seq<string>>, chain: Option<seq<Transform>>)

  /** The characters that separate file type names in `defaultfor`. */
  const DefaultForSeparators: set<char> := {',', ';', ' '}

  /** The set is the default for the file type named `typeName`. */
  predicate IsDefaultFor(t: TransformSet, typeName: string) {
    t.defaultFor.Some? && typeName in t.defaultFor.value
  }

  /** `new TransformSet()`: the entry "None", default for nothing, without
      a chain. */
  function NoneSet(): (t: TransformSet)
    ensures t.name == Some("None") && t.chain.None?
    ensures forall typeName :: !IsDefaultFor(t, typeName)
  {
    TransformSet(Some("None"), None, None)
  }

  /** What the crypto configuration knows: the algorithm names
      `CryptoConfig.CreateFromName` creates a transform for, and whether
      the `LoadInnerXml` of a transform other than the filter accepts a
      list of parameter nodes (the framework's XPath and XSLT transforms
      reject a list without their parameter element; the others ignore
      it). The framework's transforms are not part of this model. */
  datatype Registry = Registry(algorithms: set<string>, accepts: (string, seq<Node>) -> bool)

  /** The framework's message when a transform rejects its parameters or
      its algorithm is unknown. */
  const UnknownTransform: string := "Unknown transform has been encountered."

  /** `CryptoConfig.CreateFromName(algorithm)` followed by `LoadInnerXml`:
      the filter transform parses its steps; another registered transform
      keeps its parameters when it accepts them. Either can fail. */
  function LoadTransform(algorithm: string, content: seq<Node>, registry: Registry): (r: Result<Transform>)
    ensures r.Success? ==> AlgorithmOf(r.value) == algorithm
    ensures algorithm != Filter2Ns ==> (r.Success? <==> registry.accepts(algorithm, content))
    ensures algorithm != Filter2Ns && r.Success? ==> r.value == OtherTransform(algorithm, content)
    ensures algorithm == Filter2Ns ==> (r.Success? <==> ParseFilterElements(content).Success?)
    ensures algorithm == Filter2Ns && r.Success? ==> r.value == FilterTransform(ParseFilterElements(content).value)
  {
    if algorithm == Filter2Ns then
      match LoadInnerXml(Some(content))
      case Failure(e) => Failure(e)
      case Success(fs) => Success(FilterTransform(fs))
    else if registry.accepts(algorithm, content) then Success(OtherTransform(algorithm, content))
    else Failure(UnknownTransform)
  }

  /** A child of the set element that names a registered algorithm. */
  predicate IsRegistered(c: Node, registered: Registry) {
    c.Element? && GetAttribute(c, "Algorithm") in registered.algorithms
  }

  /** The children whose algorithm is registered, in document order: the
      transforms a successful load keeps. */
  function RegisteredChildren(cs: seq<Node>, registered: Registry): seq<Node> {
    Filter(cs, (c: Node) => IsRegistered(c, registered))
  }

  /** A child the load can accept: an element, and when its algorithm is
      registered, one whose transform loads its parameters. */
  predicate Loadable(c: Node, registered: Registry) {
    && c.Element?
    && (IsRegistered(c, registered) ==> LoadTransform(GetAttribute(c, "Algorithm"), c.children, registered).Success?)
  }

  /** The loop over `element.ChildNodes`: each child is cast to an element
      (a text or comment child raises an invalid-cast error), unregistered
      algorithms are skipped, the others are loaded and appended. */
  function LoadChain(cs: seq<Node>, registered: Registry): (r: Result<seq<Transform>>)
    ensures r.Success? <==> forall i :: 0 <= i < |cs| ==> Loadable(cs[i], registered)
    ensures r.Success? ==> forall i :: 0 <= i < |r.value| ==> AlgorithmOf(r.value[i]) in registered.algorithms
  {
    if |cs| == 0 then Success([])
    else if !cs[0].Element? then Failure("Specified cast is not valid")
    else
      var alg := GetAttribute(cs[0], "Algorithm");
      var head: Result<seq<Transform>> :=
        if alg in registered.algorithms then
          match LoadTransform(alg, cs[0].children, registered)
          case Failure(e) => Failure(e)
          case Success(t) => Success([t])
        else Success([]);
      match head
      case Failure(e) => Failure(e)
      case Success(h) =>
        match LoadChain(cs[1..], registered)
        case Failure(e) => Failure(e)
        case Success(rest) => Success(h + rest)
  }

  /** A successful load holds exactly one transform per registered child,
      in document order, each loaded from that child. */
  lemma {:induction false} LoadChainKeepsRegistered(cs: seq<Node>, registered: Registry)
    requires LoadChain(cs, registered).Success?
    ensures var r := LoadChain(cs, registered).value;
            var kept := RegisteredChildren(cs, registered);
            && |r| == |kept|
            && forall i :: 0 <= i < |r| ==>
                 r[i] == LoadTransform(GetAttribute(kept[i], "Algorithm"), kept[i].children, registered).value
  {
    if |cs| > 0 {
      LoadChainKeepsRegistered(cs[1..], registered);
      var p := (c: Node) => IsRegistered(c, registered);
      assert RegisteredChildren(cs, registered) == (if p(cs[0]) then [cs[0]] else []) + RegisteredChildren(cs[1..], registered);
    }
  }

  /** `new TransformSet(element)`: the `name` attribute, the `defaultfor`
      attribute split on commas, semicolons and spaces with empty pieces
      dropped, and the chain loaded from the children. */
  function FromElement(e: Node, registered: Registry): (r: Result<TransformSet>)
    requires e.Element?
    ensures r.Success? <==> forall i :: 0 <= i < |e.children| ==> Loadable(e.children[i], registered)
    ensures r.Success? ==> r.value.name == AttributeValue(e, "name")
    ensures r.Success? ==> r.value.chain.Some?
    ensures r.Success? ==> (r.value.defaultFor.Some? <==> AttributeValue(e, "defaultfor").Some?)
    ensures r.Success? && r.value.defaultFor.Some? ==>
              var pieces := r.value.defaultFor.value;
              && (forall i :: 0 <= i < |pieces| ==> |pieces[i]| > 0)
              && (forall i, j :: 0 <= i < |pieces| && 0 <= j < |pieces[i]| ==> pieces[i][j] !in DefaultForSeparators)
  {
    var defaultFor :=
      match AttributeValue(e, "defaultfor")
      case None => None
      case Some(v) => Some(Split(v, DefaultForSeparators));
    match LoadChain(e.children, registered)
    case Failure(err) => Failure(err)
    case Success(chain) => Success(TransformSet(AttributeValue(e, "name"), defaultFor, Some(chain)))
  }

  /** Splitting drops only the separators: the pieces, put together, are
      the attribute text without them. */
  lemma DefaultForKeepsContent(e: Node, registered: Registry)
    requires e.Element?
    requires FromElement(e, registered).Success?
    requires AttributeValue(e, "defaultfor").Some?
    ensures Concat(FromElement(e, registered).value.defaultFor.value)
            == RemoveAll(AttributeValue(e, "defaultfor").value, DefaultForSeparators)
  {
    SplitKeepsContent(AttributeValue(e, "defaultfor").value, DefaultForSeparators);
  }

  /** A `defaultfor` list written with any of the separators reads back as
      the list of type names. */
  lemma DefaultForRoundTrip(e: Node, registered: Registry, typeNames: seq<string>, sep: char)
    requires e.Element?
    requires FromElement(e, registered).Success?
    requires sep in DefaultForSeparators
    requires forall i :: 0 <= i < |typeNames| ==> |typeNames[i]| > 0
    requires forall i, j :: 0 <= i < |typeNames| && 0 <= j < |typeNames[i]| ==> typeNames[i][j] !in DefaultForSeparators
    requires AttributeValue(e, "defaultfor") == Some(Join(typeNames, sep))
    ensures FromElement(e, registered).value.defaultFor == Some(typeNames)
    ensures forall typeName :: IsDefaultFor(FromElement(e, registered).value, typeName) <==> typeName in typeNames
  {
    SplitJoin(typeNames, sep, DefaultForSeparators);
  }

  /** Loading a list of `ds:Transform` elements where every algorithm must
      be registered. */
  function LoadEvery(ts: seq<Node>, registered: Registry): (r: Result<seq<Transform>>)
    requires forall i :: 0 <= i < |ts| ==> ts[i].Element?
    ensures r.Success? <==> forall i :: 0 <= i < |ts| ==>
              GetAttribute(ts[i], "Algorithm") in registered.algorithms && LoadTransform(GetAttribute(ts[i], "Algorithm"), ts[i].children, registered).Success?
    ensures r.Success? ==> |r.value| == |ts| && forall i :: 0 <= i < |ts| ==>
              r.value[i] == LoadTransform(GetAttribute(ts[i], "Algorithm"), ts[i].children, registered).value
  {
    if |ts| == 0 then Success([])
    else
      var alg := GetAttribute(ts[0], "Algorithm");
      if alg !in registered.algorithms then Failure(UnknownTransform)
      else
        match LoadTransform(alg, ts[0].children, registered)
        case Failure(e) => Failure(e)
        case Success(t) =>
          match LoadEvery(ts[1..], registered)
          case Failure(e) => Failure(e)
          case Success(rest) => Success([t] + rest)
  }

  /** The framework's `TransformChain.LoadXml`, which the signature policy
      invokes on its `ds:Transforms` element: one transform per
      `ds:Transform` child, at least one, and, unlike a transform set, an
      unregistered algorithm is an error. */
  function LoadXmlChain(e: Node, registered: Registry): (r: Result<seq<Transform>>)
    requires e.Element?
    ensures var ts := SelectAll(e, [Child(DsigNs, "Transform")]);
            && (r.Success? <==> |ts| > 0 && forall i :: 0 <= i < |ts| ==>
                  GetAttribute(ts[i], "Algorithm") in registered.algorithms && LoadTransform(GetAttribute(ts[i], "Algorithm"), ts[i].children, registered).Success?)
            && (r.Success? ==> |r.value| == |ts| && forall i :: 0 <= i < |ts| ==> AlgorithmOf(r.value[i]) == GetAttribute(ts[i], "Algorithm"))
  {
    var ts := SelectAll(e, [Child(DsigNs, "Transform")]);
    if |ts| == 0 then Failure("Malformed element Transforms.")
    else LoadEvery(ts, registered)
  }

  /** A transform written out as `ds:Transform`, as the code writes it:
      the `Algorithm` attribute and, as content, the filter steps or the
      kept parameter nodes. The filter's parameters go through
      `GetInnerXmlAsWritten`, so a filter of two or more steps cannot be
      written, and neither can a step whose expression is not character
      data. */
  function TransformXml(t: Transform): (r: Result<Node>)
    ensures r.Success? <==> (t.FilterTransform? ==> |t.elements| <= 1 && AllWritable(t.elements))
    ensures r.Success? ==> r.value.Element? && r.value.ns == DsigNs && r.value.local == "Transform"
    ensures r.Success? ==> GetAttribute(r.value, "Algorithm") == AlgorithmOf(t)
    ensures r.Success? && t.OtherTransform? ==> r.value.children == t.content
    ensures r.Success? && t.FilterTransform? ==> r.value.children == GetInnerXml(t.elements).value
    ensures r.Success? ==> r == TransformXmlCorrected(t)
    ensures t.FilterTransform? && |t.elements| >= 2
            && WriteFilterElement(t.elements[0]).Success? && WriteFilterElement(t.elements[1]).Success? ==>
              r == Failure("This document already has a 'DocumentElement' node.")
  {
    var content := match t
      case FilterTransform(fs) => GetInnerXmlAsWritten(fs)
      case OtherTransform(_, c) => Success(c);
    match content
    case Failure(e) => Failure(e)
    case Success(c) => Success(Element(DsigNs, "Transform", [Attribute("", "Algorithm", AlgorithmOf(t))], c))
  }

  /** The writer as evidently intended: every filter step is written,
      however many there are. */
  function TransformXmlCorrected(t: Transform): (r: Result<Node>)
    ensures r.Success? <==> (t.FilterTransform? ==> AllWritable(t.elements))
    ensures r.Success? ==> r.value.Element? && r.value.ns == DsigNs && r.value.local == "Transform"
    ensures r.Success? ==> GetAttribute(r.value, "Algorithm") == AlgorithmOf(t)
    ensures r.Success? && t.OtherTransform? ==> r.value.children == t.content
    ensures r.Success? && t.FilterTransform? ==> r.value.children == GetInnerXml(t.elements).value
  {
    var content := match t
      case FilterTransform(fs) => GetInnerXml(fs)
      case OtherTransform(_, c) => Success(c);
    match content
    case Failure(e) => Failure(e)
    case Success(c) => Success(Element(DsigNs, "Transform", [Attribute("", "Algorithm", AlgorithmOf(t))], c))
  }

  /** The transforms written in order; the first failure is the result. */
  function TransformXmls(chain: seq<Transform>): (r: Result<seq<Node>>)
    ensures r.Success? <==> forall i :: 0 <= i < |chain| ==> TransformXml(chain[i]).Success?
    ensures r.Success? ==> |r.value| == |chain| && forall i :: 0 <= i < |chain| ==> Success(r.value[i]) == TransformXml(chain[i])
  {
    if |chain| == 0 then Success([])
    else
      match TransformXml(chain[0])
      case Failure(e) => Failure(e)
      case Success(n) =>
        match TransformXmls(chain[1..])
        case Failure(e) => Failure(e)
        case Success(ns) =>
          assert forall i :: 1 <= i < |chain| ==> chain[i] == chain[1..][i - 1];
          Success([n] + ns)
  }

  /** The framework's `TransformChain.GetXml`: a `ds:Transforms` element
      holding one `ds:Transform` per transform, in order. */
  function ChainXml(chain: seq<Transform>): (r: Result<Node>)
    ensures r.Success? <==> TransformXmls(chain).Success?
    ensures r.Success? ==> r.value.Element? && r.value.ns == DsigNs && r.value.local == "Transforms"
    ensures r.Success? ==> r.value.children == TransformXmls(chain).value
  {
    match TransformXmls(chain)
    case Failure(e) => Failure(e)
    case Success(ts) => Success(Element(DsigNs, "Transforms", [], ts))
  }

  /** What loading a written transform gives back: filter steps come back
      normalized, other transforms unchanged. */
  function NormalizedTransform(t: Transform): Transform {
    match t
    case FilterTransform(fs) => FilterTransform(NormalizedAll(fs))
    case OtherTransform(_, _) => t
  }

  /** A transform that can be written and loaded back: its algorithm is
      registered; a filter has at most one step, which can be written and
      declares every prefix once; another transform does not claim the filter's
      algorithm and accepts its own parameters. */
  predicate Writable(t: Transform, registered: Registry) {
    && AlgorithmOf(t) in registered.algorithms
    && match t
       case FilterTransform(fs) => |fs| <= 1 && AllWritable(fs) && forall i :: 0 <= i < |fs| ==> UniqueKeys(fs[i].namespaces)
       case OtherTransform(a, c) => a != Filter2Ns && registered.accepts(a, c)
  }

  /** Writing a transform the registry can load, and loading it back. */
  lemma LoadTransformXml(t: Transform, registered: Registry)
    requires Writable(t, registered)
    ensures TransformXml(t).Success?
    ensures LoadTransform(AlgorithmOf(t), TransformXml(t).value.children, registered) == Success(NormalizedTransform(t))
  {
    match t
    case FilterTransform(fs) => LoadInnerXmlGetInnerXml(fs);
    case OtherTransform(_, _) =>
  }

  /** Every transform, as loading a written one gives it back. */
  function NormalizedChain(chain: seq<Transform>): (r: seq<Transform>)
    ensures |r| == |chain| && forall k :: 0 <= k < |chain| ==> r[k] == NormalizedTransform(chain[k])
  {
    seq(|chain|, k requires 0 <= k < |chain| => NormalizedTransform(chain[k]))
  }

  /** Loading every written transform gives each back. */
  lemma LoadEveryWritten(chain: seq<Transform>, registered: Registry)
    requires forall i :: 0 <= i < |chain| ==> Writable(chain[i], registered)
    ensures TransformXmls(chain).Success?
    ensures LoadEvery(TransformXmls(chain).value, registered) == Success(NormalizedChain(chain))
  {
    forall i | 0 <= i < |chain|
      ensures TransformXml(chain[i]).Success?
      ensures LoadTransform(AlgorithmOf(chain[i]), TransformXml(chain[i]).value.children, registered) == Success(NormalizedTransform(chain[i]))
    {
      LoadTransformXml(chain[i], registered);
    }
    var ts := TransformXmls(chain).value;
    assert forall i :: 0 <= i < |chain| ==> ts[i] == TransformXml(chain[i]).value;
    var r := LoadEvery(ts, registered);
    assert r.Success?;
    assert r.value == NormalizedChain(chain);
  }

  /** A chain holding the two-step filter of the array constructor
      cannot be written, with the message of the second document element. */
  lemma ChainXmlRejectsTwoSteps()
    ensures FromArrays(["//a", "//b"], [Union, Subtract], []).Success?
    ensures var fs := FromArrays(["//a", "//b"], [Union, Subtract], []).value;
            ChainXml([FilterTransform(fs)]) == Failure("This document already has a 'DocumentElement' node.")
  {
    GetInnerXmlAsWrittenRejectsTwoSteps();
    var fs := FromArrays(["//a", "//b"], [Union, Subtract], []).value;
    var t := FilterTransform(fs);
    assert TransformXml(t) == Failure("This document already has a 'DocumentElement' node.");
    assert [t][1..] == [];
  }

  /** Writing a non-empty chain of loadable transforms succeeds, and
      loading it back gives the same transforms, filter steps normalized. */
  lemma ChainRoundTrip(chain: seq<Transform>, registered: Registry)
    requires |chain| > 0
    requires forall i :: 0 <= i < |chain| ==> Writable(chain[i], registered)
    ensures ChainXml(chain).Success?
    ensures LoadXmlChain(ChainXml(chain).value, registered) == Success(NormalizedChain(chain))
  {
    LoadEveryWritten(chain, registered);
    var e := ChainXml(chain).value;
    var ts := TransformXmls(chain).value;
    var step := Child(DsigNs, "Transform");
    SelectAllInOne(ts, step);
    FilterAll(ts, Matching(step));
    assert SelectAll(e, [step]) == ts;
  }
}
