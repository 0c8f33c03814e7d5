/** The application settings (`SBRAssurance.Settings.Load`), read from the
    settings document: the transform sets offered for the files, the
    preferred language for policy descriptions and the policy locations. */
module AppSettings {
  import opened Wrappers
  import opened Xml
  import opened TransformSets

  datatype Settings = Settings(transformSets: seq<TransformSet>, preferredLanguage: string, policyUrls: seq<string>)

  const DefaultLanguage: string := "en"

  const TransformsPath: seq<Step> := [Child("", "SBRAssuranceSettings"), Child("", "TransformSets"), Child("", "Transforms")]
  const LanguagePath: seq<Step> := [Child("", "SBRAssuranceSettings"), Child("", "PreferredLanguage")]
  const PoliciesPath: seq<Step> := [Child("", "SBRAssuranceSettings"), Child("", "SignaturePolicies"), Child("", "SignaturePolicy")]

  /** Every element describes a transform set that can be built. */
  predicate AllBuild(es: seq<Node>, registered: Registry)
    requires forall i :: 0 <= i < |es| ==> es[i].Element?
  {
    forall i :: 0 <= i < |es| ==> FromElement(es[i], registered).Success?
  }

  /** One transform set per `Transforms` element, in document order; the
      first that cannot be built aborts the load. */
  function SetsOf(es: seq<Node>, registered: Registry): (r: Result<seq<TransformSet>>)
    requires forall i :: 0 <= i < |es| ==> es[i].Element?
    ensures r.Success? <==> AllBuild(es, registered)
    ensures r.Success? ==> |r.value| == |es| && forall i :: 0 <= i < |es| ==> r.value[i] == FromElement(es[i], registered).value
  {
    if |es| == 0 then Success([])
    else
      match FromElement(es[0], registered)
      case Failure(e) => Failure(e)
      case Success(t) =>
        match SetsOf(es[1..], registered)
        case Failure(e) => Failure(e)
        case Success(rest) => Success([t] + rest)
  }

  /** The preferred language as written: the `Value` of the selected
      `PreferredLanguage` node, or "en" when it is null. */
  function LanguageAsWritten(d: Document): string {
    match SelectFirstIn(d.children, LanguagePath)
    case None => DefaultLanguage
    case Some(n) => Value(n).GetOr(DefaultLanguage)
  }

  /** The selected node is an element, whose `Value` is always null, so the
      configured language is never read. */
  lemma LanguageAsWrittenIgnoresSetting(d: Document)
    ensures LanguageAsWritten(d) == DefaultLanguage
  {
    SelectFirstInIsFirstOfAll(d.children, LanguagePath);
  }

  /** A settings document that configures Dutch still yields English. */
  lemma LanguageAsWrittenExample()
    ensures var d := Document([Element("", "SBRAssuranceSettings", [], [TextElement("", "PreferredLanguage", Some("nl"))])]);
            SelectAllIn(d.children, LanguagePath) != [] && LanguageAsWritten(d) == "en"
  {
    var d := Document([Element("", "SBRAssuranceSettings", [], [TextElement("", "PreferredLanguage", Some("nl"))])]);
    var settings := d.children[0];
    assert Matches(settings, LanguagePath[0]);
    assert Matches(settings.children[0], LanguagePath[1]);
    assert SelectAllIn(settings.children, LanguagePath[1..]) != [];
    LanguageAsWrittenIgnoresSetting(d);
  }

  /** The preferred language as intended: the text of the first
      `PreferredLanguage` element, or "en" without one. */
  function Language(d: Document): (r: string)
    ensures SelectAllIn(d.children, LanguagePath) == [] ==> r == DefaultLanguage
    ensures SelectAllIn(d.children, LanguagePath) != [] ==> r == InnerText(SelectAllIn(d.children, LanguagePath)[0])
  {
    SelectFirstInIsFirstOfAll(d.children, LanguagePath);
    match SelectFirstIn(d.children, LanguagePath)
    case None => DefaultLanguage
    case Some(n) => InnerText(n)
  }

  /** The `Transforms` elements of the settings document, in document
      order. */
  function TransformElements(d: Document): (es: seq<Node>)
    ensures forall i :: 0 <= i < |es| ==> es[i].Element?
  {
    SelectAllIn(d.children, TransformsPath)
  }

  /** `Settings.Load` over the loaded settings document: the empty "None"
      set followed by the configured sets, the preferred language, and the
      text of every `SignaturePolicy` element. With `asWritten` the language
      is read the way the source reads it. */
  function Load(d: Document, registered: Registry, asWritten: bool): (r: Result<Settings>)
    ensures r.Success? <==> AllBuild(TransformElements(d), registered)
    ensures r.Success? ==> |r.value.transformSets| == |TransformElements(d)| + 1 && r.value.transformSets[0] == NoneSet()
  {
    var es := TransformElements(d);
    match SetsOf(es, registered)
    case Failure(e) => Failure(e)
    case Success(sets) =>
      Success(Settings(
        [NoneSet()] + sets,
        if asWritten then LanguageAsWritten(d) else Language(d),
        Texts(SelectAllIn(d.children, PoliciesPath))))
  }

  /** A successful load offers one set per `Transforms` element, in
      document order, after the "None" set. */
  lemma LoadSets(d: Document, registered: Registry, asWritten: bool, st: Settings)
    requires Load(d, registered, asWritten) == Success(st)
    ensures var es := TransformElements(d);
            forall i :: 0 <= i < |es| ==> st.transformSets[i + 1] == FromElement(es[i], registered).value
  {
    var es := TransformElements(d);
    var sets := SetsOf(es, registered).value;
    assert st.transformSets == [NoneSet()] + sets;
    forall i | 0 <= i < |es|
      ensures st.transformSets[i + 1] == FromElement(es[i], registered).value
    {
      assert st.transformSets[i + 1] == sets[i];
    }
  }

  /** A successful load reads the policy locations and the language. */
  lemma LoadReads(d: Document, registered: Registry, asWritten: bool, st: Settings)
    requires Load(d, registered, asWritten) == Success(st)
    ensures st.policyUrls == Texts(SelectAllIn(d.children, PoliciesPath))
    ensures st.preferredLanguage == if asWritten then LanguageAsWritten(d) else Language(d)
  {
    var es := TransformElements(d);
    assert SetsOf(es, registered).Success?;
  }
}
