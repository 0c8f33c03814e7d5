/** Signature policies (`SBRAssurance.Model.SignPolicy`): the few facts the
    application reads from a policy document, found without regard to the
    policy schema's version, and the recognised commitment types. */
module SignPolicies {
  import opened Wrappers
  import opened Seqs
  import opened Xml
  import opened TransformSets

  /** The identifier of the SBR XML policy, whose document names the wrong
      digest method. */
  const SbrXmlPolicyId: string := "urn:sbr:signature-policy:xml:1.0"

  datatype CommitmentType = CommitmentType(id: Option<string>, description: Option<string>)

  datatype SignPolicy = SignPolicy(
    url: string,
    policyDigest: Option<string>,
    transformChain: Option<seq<Transform>>,
    id: Option<string>,
    description: Option<string>,
    digestMethods: seq<string>,
    commitmentTypes: seq<CommitmentType>)

  function TextOf(n: Option<Node>): Option<string> {
    match n
    case None => None
    case Some(m) => Some(InnerText(m))
  }

  /** The language rule: the text of the first description in the preferred
      language, else of the first description, else none. */
  function DescriptionRule(descriptions: seq<Node>, preferredLanguage: string): (r: Option<string>)
    ensures r.None? <==> |descriptions| == 0
    ensures r.Some? ==> exists i :: 0 <= i < |descriptions| && r.value == InnerText(descriptions[i])
  {
    match FirstWhere(descriptions, InLanguage(preferredLanguage))
    case Some(n) => Some(InnerText(n))
    case None => TextOf(Head(descriptions))
  }

  /** The fallback as the source writes it: a query for the preferred
      language and, when it finds nothing, a query for any description. */
  function Preferred(byLanguage: Option<Node>, descriptions: seq<Node>): Option<Node> {
    if byLanguage.Some? then byLanguage else Head(descriptions)
  }

  /** The language is pasted into the query between apostrophes, so an
      apostrophe in it makes the query malformed. */
  predicate QuotableLanguage(preferredLanguage: string) {
    '\'' !in preferredLanguage
  }

  /** `new CommitmentType(commitmentIdentifier, nsm, preferredLanguage)`:
      the text of the first `Identifier` child (any namespace) and the
      description chosen among the `Description` children. The policy
      parse issues a query with the same language first, so the language
      is always quotable here. */
  function CommitmentTypeOf(e: Node, preferredLanguage: string): (r: CommitmentType)
    requires e.Element?
    ensures r.id == TextOf(Head(SelectAll(e, [AnyChild("Identifier")])))
    ensures r.description == DescriptionRule(SelectAll(e, [AnyChild("Description")]), preferredLanguage)
  {
    var identifier := SelectFirst(e, [AnyChild("Identifier")]);
    var byLanguage := SelectFirst(e, [Step(None, "Description", LangIs(preferredLanguage))]);
    var description := Preferred(byLanguage, SelectAll(e, [AnyChild("Description")]));
    SelectFirstIsFirstOfAll(e, [AnyChild("Identifier")]);
    SelectFirstIsFirstOfAll(e, [Step(None, "Description", LangIs(preferredLanguage))]);
    SelectAllInLang(e.children, None, "Description", preferredLanguage);
    HeadFilter(SelectAll(e, [AnyChild("Description")]), InLanguage(preferredLanguage));
    CommitmentType(TextOf(identifier), TextOf(description))
  }

  function CommitmentTypesOf(es: seq<Node>, preferredLanguage: string): (r: seq<CommitmentType>)
    requires forall i :: 0 <= i < |es| ==> es[i].Element?
    ensures |r| == |es| && forall i :: 0 <= i < |es| ==> r[i] == CommitmentTypeOf(es[i], preferredLanguage)
  {
    seq(|es|, i requires 0 <= i < |es| => CommitmentTypeOf(es[i], preferredLanguage))
  }

  // The queries of the policy parse; `sbrsp` is the namespace of the
  // document element.

  function DigestAlgPath(sbrsp: string): seq<Step> {
    [Child(sbrsp, "SignPolicyDigestAlg")]
  }

  function IdentifierPath(sbrsp: string): seq<Step> {
    [Child(sbrsp, "SignPolicyIdentifier"), AnyChild("Identifier")]
  }

  function DescriptionPath(sbrsp: string): seq<Step> {
    [Child(sbrsp, "SignPolicyIdentifier"), AnyChild("Description")]
  }

  function AlgIdPath(sbrsp: string): seq<Step> {
    [Child(sbrsp, "SignerAlgConstraints"), Child(sbrsp, "AlgAndLength"), Child(sbrsp, "AlgId")]
  }

  function CommitmentPath(sbrsp: string): seq<Step> {
    [Child(sbrsp, "SelCommitmentType"), Child(sbrsp, "RecognizedCommitmentType"), Child(sbrsp, "CommitmentIdentifier")]
  }

  const TransformsPath: seq<Step> := [Child(DsigNs, "Transforms")]

  /** The policy's transform chain: none without a `ds:Transforms`
      element, otherwise the chain loaded from the first one. */
  function PolicyChain(d: Document, registered: Registry): (r: Result<Option<seq<Transform>>>)
    ensures r.Success? ==> (r.value.None? <==> SelectPath(d, TransformsPath) == [])
  {
    match Head(SelectPath(d, TransformsPath))
    case None => Success(None)
    case Some(t) =>
      match LoadXmlChain(t, registered)
      case Failure(e) => Failure(e)
      case Success(chain) => Success(Some(chain))
  }

  /** The policy description: the query for the preferred language, then
      the query for any description. */
  function PolicyDescription(d: Document, sbrsp: string, preferredLanguage: string): (r: Option<string>)
    ensures r == DescriptionRule(SelectPath(d, DescriptionPath(sbrsp)), preferredLanguage)
  {
    var prefix := [Child(sbrsp, "SignPolicyIdentifier")];
    var langPath := prefix + [Step(None, "Description", LangIs(preferredLanguage))];
    var descriptions := SelectPath(d, prefix + [AnyChild("Description")]);
    assert DescriptionPath(sbrsp) == prefix + [AnyChild("Description")];
    SelectPathLang(d, prefix, None, "Description", preferredLanguage);
    HeadFilter(descriptions, InLanguage(preferredLanguage));
    TextOf(Preferred(Head(SelectPath(d, langPath)), descriptions))
  }

  /** The digest method: the `Algorithm` of the first `SignPolicyDigestAlg`,
      overridden by SHA-256 for the SBR XML policy. */
  function PolicyDigest(d: Document, sbrsp: string, id: Option<string>): (r: Option<string>)
    ensures id == Some(SbrXmlPolicyId) ==> r == Some(Sha256Url)
    ensures id != Some(SbrXmlPolicyId) ==>
              var algs := SelectPath(d, DigestAlgPath(sbrsp));
              && (r.None? <==> algs == [])
              && (algs != [] ==> r == Some(GetAttribute(algs[0], "Algorithm")))
  {
    var digestAlg :=
      match Head(SelectPath(d, DigestAlgPath(sbrsp)))
      case None => None
      case Some(e) => Some(GetAttribute(e, "Algorithm"));
    if id == Some(SbrXmlPolicyId) then Some(Sha256Url) else digestAlg
  }

  /** `new SignPolicy(url, preferredLanguage)` over the loaded document `d`.
      `registered` is the set of algorithm names the crypto configuration
      knows. */
  function Parse(url: string, d: Document, preferredLanguage: string, registered: Registry): (r: Result<SignPolicy>)
    ensures r.Success? <==> DocumentElement(d).Some? && QuotableLanguage(preferredLanguage) && PolicyChain(d, registered).Success?
    ensures r.Success? ==>
              var p := r.value;
              var sbrsp := DocumentElement(d).value.ns;
              && p.url == url
              && p.transformChain == PolicyChain(d, registered).value
              && p.id == TextOf(Head(SelectPath(d, IdentifierPath(sbrsp))))
              && p.policyDigest == PolicyDigest(d, sbrsp, p.id)
              && p.description == DescriptionRule(SelectPath(d, DescriptionPath(sbrsp)), preferredLanguage)
              && p.digestMethods == Texts(SelectPath(d, AlgIdPath(sbrsp)))
              && p.commitmentTypes == CommitmentTypesOf(SelectPath(d, CommitmentPath(sbrsp)), preferredLanguage)
  {
    match DocumentElement(d)
    case None => Failure("Root element is missing.")
    case Some(root) =>
      match PolicyChain(d, registered)
      case Failure(e) => Failure(e)
      case Success(chain) =>
        if !QuotableLanguage(preferredLanguage) then Failure("Expression must evaluate to a node-set.")
        else
          var sbrsp := root.ns;
          var id := TextOf(Head(SelectPath(d, IdentifierPath(sbrsp))));
          Success(SignPolicy(
            url,
            PolicyDigest(d, sbrsp, id),
            chain,
            id,
            PolicyDescription(d, sbrsp, preferredLanguage),
            Texts(SelectPath(d, AlgIdPath(sbrsp))),
            CommitmentTypesOf(SelectPath(d, CommitmentPath(sbrsp)), preferredLanguage)))
  }

  function LangDescription(lang: string, text: string): Node {
    Element(XadesNs, "Description", [Attribute(XmlNamespaceUri, "lang", lang)], [Text(text)])
  }

  /** A Dutch and an English description: English is found when it is
      preferred, the first (Dutch) one otherwise, and nothing without
      descriptions. */
  lemma DescriptionRuleExample()
    ensures DescriptionRule([LangDescription("nl", "Beleid"), LangDescription("en", "Policy")], "en") == Some("Policy")
    ensures DescriptionRule([LangDescription("nl", "Beleid"), LangDescription("en", "Policy")], "fr") == Some("Beleid")
    ensures DescriptionRule([], "en") == None
  {
    var nl := LangDescription("nl", "Beleid");
    var en := LangDescription("en", "Policy");
    assert nl.attrs[0] == Attribute(XmlNamespaceUri, "lang", "nl");
    assert en.attrs[0] == Attribute(XmlNamespaceUri, "lang", "en");
    assert HasLang(en, "en") && !HasLang(nl, "en");
    assert !HasLang(nl, "fr") && !HasLang(en, "fr");
    assert [nl, en][1..] == [en];
    var pEn := InLanguage("en");
    var pFr := InLanguage("fr");
    assert FirstWhere([nl, en], pEn) == FirstWhere([en], pEn) == Some(en);
    assert FirstWhere([nl, en], pFr) == FirstWhere([en], pFr) == FirstWhere([], pFr) == None;
    assert InnerText(en) == ChildrenText([Text("Policy")]) == "Policy" + ChildrenText([]);
    assert InnerText(nl) == ChildrenText([Text("Beleid")]) == "Beleid" + ChildrenText([]);
    assert InnerText(en) == "Policy" && InnerText(nl) == "Beleid";
    assert DescriptionRule([nl, en], "en") == Some(InnerText(en));
    assert DescriptionRule([nl, en], "fr") == TextOf(Head([nl, en])) == Some(InnerText(nl));
  }
}
