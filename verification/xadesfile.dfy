/** A signed file of a XAdES signature (`OpenSBR.Xades.XadesFile`): its
    reference in `SignedInfo`, and the two qualifying properties written
    for it, `DataObjectFormat` and `CommitmentTypeIndication` (ETSI TS
    101 903 v1.3.2, sections 7.2.5 and 7.2.6). */
module XadesFiles {
  import opened Wrappers
  import opened Seqs
  import opened Bytes
  import opened PercentEncoding
  import opened Xml
  import opened TransformSets

  /** An XML-DSig `Reference` as far as the model needs it; `digestValue`
      is filled in when the signature is computed. */
  datatype Reference = Reference(
    uri: string,
    chain: Option<seq<Transform>>,
    digestMethod: string,
    id: Option<string>,
    refType: Option<string>,
    digestValue: seq<byte>)

  datatype XadesFile = XadesFile(
    uri: string,
    chain: Option<seq<Transform>>,
    digestMethod: Option<string>,
    reference: Option<Reference>,
    id: Option<string>,
    description: Option<string>,
    identifier: Option<string>,
    mimeType: Option<string>,
    encoding: Option<string>,
    commitmentTypeId: Option<string>,
    isValid: bool)

  /** `$"#{id}"`: a same-document reference to the id (a null id gives "#"). */
  function RefTo(id: Option<string>): (r: string)
    ensures |r| > 0 && r[0] == '#' && r[1..] == id.GetOr("")
  {
    "#" + id.GetOr("")
  }

  /** `new XadesFile(uri, transformChain, digestMethod)`: the requested
      digest method is dropped and SHA-256 stored instead. */
  function NewFile(uri: string, chain: Option<seq<Transform>>, digestMethod: Option<string>): (f: XadesFile)
    ensures f.uri == uri && f.chain == chain && f.digestMethod == Some(Sha256Url)
    ensures f.reference.None? && f.id.None? && !f.isValid
    ensures f.description.None? && f.identifier.None? && f.mimeType.None? && f.encoding.None? && f.commitmentTypeId.None?
  {
    XadesFile(uri, chain, Some(Sha256Url), None, None, None, None, None, None, None, false)
  }

  /** `new XadesFile(reference)`: a file read from a signature; the
      reference URI is percent-decoded. */
  function FromReference(r: Reference): (f: XadesFile)
    ensures f.uri == Unescape(r.uri) && f.chain == r.chain && f.digestMethod == Some(r.digestMethod)
    ensures f.id == r.id && f.reference == Some(r) && !f.isValid
    ensures f.description.None? && f.identifier.None? && f.mimeType.None? && f.encoding.None? && f.commitmentTypeId.None?
  {
    XadesFile(Unescape(r.uri), r.chain, Some(r.digestMethod), Some(r), r.id, None, None, None, None, None, false)
  }

  /** `GetReference`: the reference for the file, which the file also
      keeps. Whether the content comes from the resolver or from the URI
      does not change the reference's fields. */
  function GetReference(f: XadesFile): (r: (XadesFile, Reference))
    ensures r.1.uri == Escape(f.uri)
    ensures r.1.chain == f.chain && r.1.id == f.id
    ensures r.1.digestMethod == f.digestMethod.GetOr(Sha256Url)
    ensures r.1.refType.None? && r.1.digestValue == []
    ensures r.0 == f.(reference := Some(r.1))
  {
    var reference := Reference(Escape(f.uri), f.chain, f.digestMethod.GetOr(Sha256Url), f.id, None, []);
    (f.(reference := Some(reference)), reference)
  }

  /** Reading back a written reference gives the file's URI, id and chain,
      and the digest method the reference was written with. */
  lemma ReferenceRoundTrip(f: XadesFile)
    ensures var g := FromReference(GetReference(f).1);
            && g.uri == f.uri && g.id == f.id && g.chain == f.chain
            && g.digestMethod == Some(f.digestMethod.GetOr(Sha256Url))
  {
    UnescapeEscape(f.uri);
  }

  // ---------------------------------------------------------------------
  // DataObjectFormat

  const DescriptionPath: seq<Step> := [Child(XadesNs, "Description")]
  const IdentifierPath: seq<Step> := [Child(XadesNs, "ObjectIdentifier"), Child(XadesNs, "Identifier")]
  const MimeTypePath: seq<Step> := [Child(XadesNs, "MimeType")]
  const EncodingPath: seq<Step> := [Child(XadesNs, "Encoding")]

  /** A `Description` is written when there is one, or when neither an
      identifier nor a MIME type describes the file. */
  predicate WritesDescription(f: XadesFile) {
    f.description.Some? || (f.identifier.None? && f.mimeType.None?)
  }

  /** The description a reader of `DataObjectFormat` finds: the file's
      own, or its URI when that stood in for it. */
  function WrittenDescription(f: XadesFile): Option<string> {
    if WritesDescription(f) then Some(f.description.GetOr(f.uri)) else None
  }

  /** `CreateChild` followed by setting the child's content, when `cond`. */
  function AppendIf(e: Node, cond: bool, child: Node): (r: Node)
    requires e.Element?
    ensures r.Element? && r.ns == e.ns && r.local == e.local && r.attrs == e.attrs
    ensures r.children == e.children + (if cond then [child] else [])
  {
    if cond then AppendChild(e, child) else e
  }

  /** The position of each `DataObjectFormat` child in the schema's order. */
  function FormatRank(local: string): nat {
    if local == "Description" then 0
    else if local == "ObjectIdentifier" then 1
    else if local == "MimeType" then 2
    else 3
  }

  /** The inner text of the first child named `local`, as `GetInnerText`
      would read it from a `DataObjectFormat` with these children. */
  lemma ReadChild(e: Node, local: string, k: nat)
    requires e.Element? && k < |e.children|
    requires e.children[k].Element? && e.children[k].ns == XadesNs && e.children[k].local == local
    requires forall j :: 0 <= j < k ==> !(e.children[j].Element? && e.children[j].local == local)
    ensures GetInnerText(Some(e), [Child(XadesNs, local)]) == Some(InnerText(e.children[k]))
  {
    var step := Child(XadesNs, local);
    SelectFirstInOne(e.children, step);
    FirstWhereAt(e.children, Matching(step), k);
    SelectFirstIsFirstOfAll(e, [step]);
  }

  lemma NoChild(e: Node, local: string)
    requires e.Element?
    requires forall j :: 0 <= j < |e.children| ==> !(e.children[j].Element? && e.children[j].local == local)
    ensures GetInnerText(Some(e), [Child(XadesNs, local)]).None?
  {
    var step := Child(XadesNs, local);
    SelectFirstInOne(e.children, step);
    SelectFirstIsFirstOfAll(e, [step]);
  }

  function ObjectIdentifierOf(identifier: Option<string>): Node {
    AppendChild(NewElement(XadesNs, "ObjectIdentifier"), TextElement(XadesNs, "Identifier", identifier))
  }

  function Opt(cond: bool, n: Node): seq<Node> {
    if cond then [n] else []
  }

  /** The children `GetObjectFormat` writes, in order. */
  function FormatChildren(f: XadesFile): seq<Node> {
    Opt(WritesDescription(f), TextElement(XadesNs, "Description", Some(f.description.GetOr(f.uri))))
    + Opt(f.identifier.Some?, ObjectIdentifierOf(f.identifier))
    + Opt(f.mimeType.Some?, TextElement(XadesNs, "MimeType", f.mimeType))
    + Opt(f.encoding.Some?, TextElement(XadesNs, "Encoding", f.encoding))
  }

  function Flag(b: bool): nat {
    if b then 1 else 0
  }

  /** The name of the child at position `i`, from the counts of written
      children before it. */
  function FormatLocalAt(f: XadesFile, i: nat): string {
    var nd := Flag(WritesDescription(f));
    var ni := Flag(f.identifier.Some?);
    var nm := Flag(f.mimeType.Some?);
    if i < nd then "Description"
    else if i < nd + ni then "ObjectIdentifier"
    else if i < nd + ni + nm then "MimeType"
    else "Encoding"
  }

  lemma FormatChildrenShape(f: XadesFile)
    ensures var cs := FormatChildren(f);
            && |cs| == Flag(WritesDescription(f)) + Flag(f.identifier.Some?) + Flag(f.mimeType.Some?) + Flag(f.encoding.Some?)
            && forall i :: 0 <= i < |cs| ==> cs[i].Element? && cs[i].ns == XadesNs && cs[i].local == FormatLocalAt(f, i)
  {
  }

  lemma FormatRanks()
    ensures FormatRank("Description") == 0 && FormatRank("ObjectIdentifier") == 1
    ensures FormatRank("MimeType") == 2 && FormatRank("Encoding") == 3
  {
  }

  /** The written children follow the schema's order. */
  lemma FormatOrder(f: XadesFile)
    ensures var cs := FormatChildren(f);
            forall i, j :: 0 <= i < j < |cs| ==> FormatRank(cs[i].local) < FormatRank(cs[j].local)
  {
    FormatChildrenShape(f);
    FormatRanks();
  }

  /** The element as `GetObjectFormat` builds it, child by child. */
  function BuildObjectFormat(f: XadesFile): Node {
    var e0 := SetAttribute(NewElement(XadesNs, "DataObjectFormat"), "ObjectReference", RefTo(f.id));
    var e1 := AppendIf(e0, WritesDescription(f), TextElement(XadesNs, "Description", Some(f.description.GetOr(f.uri))));
    var e2 := AppendIf(e1, f.identifier.Some?, ObjectIdentifierOf(f.identifier));
    var e3 := AppendIf(e2, f.mimeType.Some?, TextElement(XadesNs, "MimeType", f.mimeType));
    AppendIf(e3, f.encoding.Some?, TextElement(XadesNs, "Encoding", f.encoding))
  }

  lemma BuildObjectFormatShape(f: XadesFile)
    ensures var r := BuildObjectFormat(f);
            && r.Element? && r.ns == XadesNs && r.local == "DataObjectFormat"
            && r.attrs == [Attribute("", "ObjectReference", RefTo(f.id))]
            && r.children == FormatChildren(f)
  {
  }

  /** `GetObjectFormat`: a `DataObjectFormat` pointing at the file's id,
      with, in this order, the description, the object identifier, the
      MIME type and the encoding, each only when there is something to
      write. */
  function GetObjectFormat(f: XadesFile): (r: Node)
    ensures r.Element? && r.ns == XadesNs && r.local == "DataObjectFormat"
    ensures r.attrs == [Attribute("", "ObjectReference", RefTo(f.id))]
    ensures forall i :: 0 <= i < |r.children| ==> r.children[i].Element? && r.children[i].ns == XadesNs
    ensures forall i, j :: 0 <= i < j < |r.children| ==> FormatRank(r.children[i].local) < FormatRank(r.children[j].local)
    ensures GetInnerText(Some(r), DescriptionPath) == WrittenDescription(f)
    ensures GetInnerText(Some(r), MimeTypePath) == f.mimeType
    ensures GetInnerText(Some(r), EncodingPath) == f.encoding
    ensures GetInnerText(Some(r), IdentifierPath) == f.identifier
  {
    var r := BuildObjectFormat(f);
    BuildObjectFormatShape(f);
    FormatChildrenShape(f);
    FormatOrder(f);
    FormatReadsDescription(f, r);
    FormatReadsMimeType(f, r);
    FormatReadsEncoding(f, r);
    FormatReadsIdentifier(f, r);
    r
  }

  lemma FormatReadsDescription(f: XadesFile, r: Node)
    requires r.Element? && r.children == FormatChildren(f)
    ensures GetInnerText(Some(r), DescriptionPath) == WrittenDescription(f)
  {
    FormatChildrenShape(f);
    if WritesDescription(f) {
      ReadChild(r, "Description", 0);
    } else {
      NoChild(r, "Description");
    }
  }

  lemma FormatReadsMimeType(f: XadesFile, r: Node)
    requires r.Element? && r.children == FormatChildren(f)
    ensures GetInnerText(Some(r), MimeTypePath) == f.mimeType
  {
    FormatChildrenShape(f);
    if f.mimeType.Some? {
      ReadChild(r, "MimeType", Flag(WritesDescription(f)) + Flag(f.identifier.Some?));
    } else {
      NoChild(r, "MimeType");
    }
  }

  lemma FormatReadsEncoding(f: XadesFile, r: Node)
    requires r.Element? && r.children == FormatChildren(f)
    ensures GetInnerText(Some(r), EncodingPath) == f.encoding
  {
    FormatChildrenShape(f);
    if f.encoding.Some? {
      ReadChild(r, "Encoding", |r.children| - 1);
    } else {
      NoChild(r, "Encoding");
    }
  }

  lemma FormatReadsIdentifier(f: XadesFile, r: Node)
    requires r.Element? && r.children == FormatChildren(f)
    ensures GetInnerText(Some(r), IdentifierPath) == f.identifier
  {
    FormatChildrenShape(f);
    var cs := r.children;
    var nd := Flag(WritesDescription(f));
    SelectFirstIsFirstOfAll(r, IdentifierPath);
    if f.identifier.Some? {
      var oi := ObjectIdentifierOf(f.identifier);
      assert cs[nd] == oi;
      assert SelectFirst(oi, IdentifierPath[1..]) == Some(oi.children[0]) by {
        var step := Child(XadesNs, "Identifier");
        assert IdentifierPath[1..] == [step];
        SelectFirstInOne(oi.children, step);
        FirstWhereAt(oi.children, Matching(step), 0);
      }
      ObjectIdentifierHit(cs, oi, nd);
    } else {
      NoObjectIdentifier(cs);
    }
  }

  lemma {:induction false} ObjectIdentifierHit(cs: seq<Node>, oi: Node, k: nat)
    requires k < |cs| && cs[k] == oi
    requires oi.Element? && oi.ns == XadesNs && oi.local == "ObjectIdentifier"
    requires SelectFirst(oi, IdentifierPath[1..]).Some?
    requires forall j :: 0 <= j < k ==> !(cs[j].Element? && cs[j].local == "ObjectIdentifier")
    ensures SelectFirstIn(cs, IdentifierPath) == SelectFirst(oi, IdentifierPath[1..])
    decreases k
  {
    if k > 0 {
      ObjectIdentifierHit(cs[1..], oi, k - 1);
    }
  }

  lemma {:induction false} NoObjectIdentifier(cs: seq<Node>)
    requires forall j :: 0 <= j < |cs| ==> !(cs[j].Element? && cs[j].local == "ObjectIdentifier")
    ensures SelectFirstIn(cs, IdentifierPath).None?
  {
    if |cs| > 0 {
      NoObjectIdentifier(cs[1..]);
    }
  }

  // ---------------------------------------------------------------------
  // CommitmentTypeIndication

  const CommitmentIdPath: seq<Step> := [Child(XadesNs, "CommitmentTypeId"), Child(XadesNs, "Identifier")]

  function CommitmentTypeIdOf(commitmentTypeId: Option<string>): Node {
    AppendChild(NewElement(XadesNs, "CommitmentTypeId"), TextElement(XadesNs, "Identifier", commitmentTypeId))
  }

  /** The element as `GetCommitmentTypeIndication` builds it. */
  function BuildIndication(f: XadesFile): Node {
    var e0 := NewElement(XadesNs, "CommitmentTypeIndication");
    var e1 := AppendChild(e0, CommitmentTypeIdOf(f.commitmentTypeId));
    AppendChild(e1, TextElement(XadesNs, "ObjectReference", Some(RefTo(f.id))))
  }

  lemma IndicationRefers(f: XadesFile, v: string)
    ensures HasChildText(BuildIndication(f).children, XadesNs, "ObjectReference", v) <==> v == RefTo(f.id)
  {
    var cs := BuildIndication(f).children;
    assert cs[0].local == "CommitmentTypeId" && cs[1].local == "ObjectReference";
    assert InnerText(cs[1]) == RefTo(f.id);
  }

  lemma IndicationReads(f: XadesFile)
    ensures GetInnerText(Some(BuildIndication(f)), CommitmentIdPath) == Some(f.commitmentTypeId.GetOr(""))
  {
    var r := BuildIndication(f);
    var c := CommitmentTypeIdOf(f.commitmentTypeId);
    var s0, s1 := CommitmentIdPath[0], CommitmentIdPath[1];
    assert r.children == [c, r.children[1]];
    assert SelectFirst(c, [s1]) == Some(c.children[0]) by {
      SelectFirstInOne(c.children, s1);
      FirstWhereAt(c.children, Matching(s1), 0);
    }
    assert CommitmentIdPath[1..] == [s1];
    assert SelectFirstIn(r.children, CommitmentIdPath) == Some(c.children[0]);
    SelectFirstIsFirstOfAll(r, CommitmentIdPath);
  }

  /** `GetCommitmentTypeIndication`: always written; it names the
      commitment type (an empty identifier when there is none) and points
      at the file's id. */
  function GetCommitmentTypeIndication(f: XadesFile): (r: Node)
    ensures r.Element? && r.ns == XadesNs && r.local == "CommitmentTypeIndication" && r.attrs == []
    ensures forall v :: HasChildText(r.children, XadesNs, "ObjectReference", v) <==> v == RefTo(f.id)
    ensures GetInnerText(Some(r), CommitmentIdPath) == Some(f.commitmentTypeId.GetOr(""))
  {
    forall v
      ensures HasChildText(BuildIndication(f).children, XadesNs, "ObjectReference", v) <==> v == RefTo(f.id)
    {
      IndicationRefers(f, v);
    }
    IndicationReads(f);
    BuildIndication(f)
  }

  // ---------------------------------------------------------------------
  // SignedDataObjectProperties and reading it back

  function ObjectFormats(files: seq<XadesFile>): (r: seq<Node>)
    ensures |r| == |files| && forall i :: 0 <= i < |files| ==> r[i] == GetObjectFormat(files[i])
  {
    seq(|files|, i requires 0 <= i < |files| => GetObjectFormat(files[i]))
  }

  function Indications(files: seq<XadesFile>): (r: seq<Node>)
    ensures |r| == |files| && forall i :: 0 <= i < |files| ==> r[i] == GetCommitmentTypeIndication(files[i])
  {
    seq(|files|, i requires 0 <= i < |files| => GetCommitmentTypeIndication(files[i]))
  }

  /** `XadesSignature.CreateXadesDataObjectProperties`: every file's
      `DataObjectFormat`, then every file's `CommitmentTypeIndication`. */
  function DataObjectProperties(files: seq<XadesFile>): (r: Node)
    ensures r.Element? && r.ns == XadesNs && r.local == "SignedDataObjectProperties"
    ensures r.children == ObjectFormats(files) + Indications(files)
  {
    Element(XadesNs, "SignedDataObjectProperties", [], ObjectFormats(files) + Indications(files))
  }

  const PropertiesStep: Step := Child(XadesNs, "SignedDataObjectProperties")

  /** `xades:DataObjectFormat[@ObjectReference='#id']`. */
  function FormatStep(id: Option<string>): Step {
    Step(Some(XadesNs), "DataObjectFormat", AttributeIs("ObjectReference", RefTo(id)))
  }

  /** `xades:CommitmentTypeIndication[xades:ObjectReference='#id']`. */
  function IndicationStep(id: Option<string>): Step {
    Step(Some(XadesNs), "CommitmentTypeIndication", ChildTextIs(XadesNs, "ObjectReference", RefTo(id)))
  }

  /** The id is pasted into the queries between apostrophes. */
  predicate QuotableId(id: Option<string>) {
    '\'' !in id.GetOr("")
  }

  /** `ParseProperties(element, nsm)`: reads this file's format and
      commitment type from the signed properties. A missing element gives
      null fields, never an error; an id with an apostrophe makes the
      queries malformed. */
  function ParseProperties(f: XadesFile, element: Node): (r: Result<XadesFile>)
    requires element.Element?
    ensures r.Success? <==> QuotableId(f.id)
    ensures r.Success? ==> r.value.(description := f.description, identifier := f.identifier, mimeType := f.mimeType,
                                    encoding := f.encoding, commitmentTypeId := f.commitmentTypeId) == f
    ensures r.Success? && SelectAll(element, [PropertiesStep, FormatStep(f.id)]) == [] ==>
              r.value.description.None? && r.value.identifier.None? && r.value.mimeType.None? && r.value.encoding.None?
    ensures r.Success? && SelectAll(element, [PropertiesStep, IndicationStep(f.id)]) == [] ==>
              r.value.commitmentTypeId.None?
  {
    if !QuotableId(f.id) then Failure("has an invalid token")
    else
      var format := SelectFirst(element, [PropertiesStep, FormatStep(f.id)]);
      var indication := SelectFirst(element, [PropertiesStep, IndicationStep(f.id)]);
      SelectFirstIsFirstOfAll(element, [PropertiesStep, FormatStep(f.id)]);
      SelectFirstIsFirstOfAll(element, [PropertiesStep, IndicationStep(f.id)]);
      Success(f.(
        description := GetInnerText(format, DescriptionPath),
        identifier := GetInnerText(format, IdentifierPath),
        mimeType := GetInnerText(format, MimeTypePath),
        encoding := GetInnerText(format, EncodingPath),
        commitmentTypeId := GetInnerText(indication, CommitmentIdPath)))
  }

  /** Ids that tell the files apart: every file has one, no two equal. */
  predicate DistinctIds(files: seq<XadesFile>) {
    && (forall i :: 0 <= i < |files| ==> files[i].id.Some?)
    && (forall i, j :: 0 <= i < j < |files| ==> files[i].id != files[j].id)
  }

  lemma RefToInjective(a: Option<string>, b: Option<string>)
    requires a.Some? && b.Some?
    ensures RefTo(a) == RefTo(b) <==> a == b
  {
    if RefTo(a) == RefTo(b) {
      assert RefTo(a)[1..] == RefTo(b)[1..];
    }
  }

  /** A `DataObjectFormat` answers the query for the id it points at. */
  lemma FormatMatches(f: XadesFile, id: Option<string>)
    ensures Matches(GetObjectFormat(f), FormatStep(id)) <==> RefTo(f.id) == RefTo(id)
  {
    var e := GetObjectFormat(f);
    assert AttributeIndex(e.attrs, "ObjectReference") == Some(0);
  }

  /** A `CommitmentTypeIndication` answers the query for the id it points
      at, and no `DataObjectFormat` does. */
  lemma IndicationMatches(f: XadesFile, id: Option<string>)
    ensures Matches(GetCommitmentTypeIndication(f), IndicationStep(id)) <==> RefTo(f.id) == RefTo(id)
    ensures !Matches(GetObjectFormat(f), IndicationStep(id))
  {
  }

  /** Only file `k`'s `DataObjectFormat` points at file `k`'s id. */
  lemma OnlyOwnFormat(files: seq<XadesFile>, k: nat)
    requires k < |files| && DistinctIds(files)
    ensures forall j :: 0 <= j < |files| ==> (Matching(FormatStep(files[k].id))(ObjectFormats(files)[j]) <==> j == k)
  {
    var formats := ObjectFormats(files);
    forall j | 0 <= j < |files|
      ensures Matching(FormatStep(files[k].id))(formats[j]) <==> j == k
    {
      FormatMatches(files[j], files[k].id);
      RefToInjective(files[j].id, files[k].id);
    }
  }

  /** Only file `k`'s `CommitmentTypeIndication` points at file `k`'s id. */
  lemma OnlyOwnIndication(files: seq<XadesFile>, k: nat)
    requires k < |files| && DistinctIds(files)
    ensures forall j :: 0 <= j < |files| ==> (Matching(IndicationStep(files[k].id))(Indications(files)[j]) <==> j == k)
  {
    var inds := Indications(files);
    forall j | 0 <= j < |files|
      ensures Matching(IndicationStep(files[k].id))(inds[j]) <==> j == k
    {
      IndicationMatches(files[j], files[k].id);
      RefToInjective(files[j].id, files[k].id);
    }
  }

  /** No `DataObjectFormat` looks like a `CommitmentTypeIndication`. */
  lemma NoFormatIsIndication(files: seq<XadesFile>, id: Option<string>)
    ensures forall j :: 0 <= j < |files| ==> !Matching(IndicationStep(id))(ObjectFormats(files)[j])
  {
    var formats := ObjectFormats(files);
    forall j | 0 <= j < |files|
      ensures !Matching(IndicationStep(id))(formats[j])
    {
      IndicationMatches(files[j], id);
    }
  }

  /** In `xs + ys`, the one element of `xs` that `p` accepts is the first hit. */
  lemma {:induction false} FirstOnlyIn<T>(xs: seq<T>, ys: seq<T>, p: T -> bool, k: nat)
    requires k < |xs| && forall j :: 0 <= j < |xs| ==> (p(xs[j]) <==> j == k)
    ensures FirstWhere(xs + ys, p) == Some(xs[k])
  {
    FirstWhereConcat(xs, ys, p);
    FirstWhereAt(xs, p, k);
  }

  /** In `xs + ys`, when `p` accepts nothing in `xs` and only the element
      `k` of `ys`, that element is the first hit. */
  lemma {:induction false} FirstOnlyInSecond<T>(xs: seq<T>, ys: seq<T>, p: T -> bool, k: nat)
    requires forall j :: 0 <= j < |xs| ==> !p(xs[j])
    requires k < |ys| && forall j :: 0 <= j < |ys| ==> (p(ys[j]) <==> j == k)
    ensures FirstWhere(xs + ys, p) == Some(ys[k])
  {
    FirstWhereConcat(xs, ys, p);
    FirstWhereAt(ys, p, k);
  }

  /** The file's `DataObjectFormat` is the first the query finds. */
  lemma FindsOwnFormat(files: seq<XadesFile>, k: nat)
    requires k < |files| && DistinctIds(files)
    ensures FirstWhere(ObjectFormats(files) + Indications(files), Matching(FormatStep(files[k].id))) == Some(GetObjectFormat(files[k]))
  {
    OnlyOwnFormat(files, k);
    FirstOnlyIn(ObjectFormats(files), Indications(files), Matching(FormatStep(files[k].id)), k);
  }

  /** The file's `CommitmentTypeIndication` is the first the query finds. */
  lemma FindsOwnIndication(files: seq<XadesFile>, k: nat)
    requires k < |files| && DistinctIds(files)
    ensures FirstWhere(ObjectFormats(files) + Indications(files), Matching(IndicationStep(files[k].id)))
            == Some(GetCommitmentTypeIndication(files[k]))
  {
    OnlyOwnIndication(files, k);
    NoFormatIsIndication(files, files[k].id);
    FirstOnlyInSecond(ObjectFormats(files), Indications(files), Matching(IndicationStep(files[k].id)), k);
  }

  /** The first hit of a two-step query when only the second child of
      `element` can match the first step. */
  lemma SelectUnderSecond(element: Node, first: Node, second: Node, s: Step)
    requires element.Element? && element.children == [first, second]
    requires !Matches(first, PropertiesStep) && Matches(second, PropertiesStep)
    requires FirstWhere(second.children, Matching(s)).Some?
    ensures SelectFirst(element, [PropertiesStep, s]) == FirstWhere(second.children, Matching(s))
  {
    var path := [PropertiesStep, s];
    assert path[0] == PropertiesStep && path[1..] == [s];
    SelectFirstInOne(second.children, s);
    assert SelectFirst(second, [s]) == FirstWhere(second.children, Matching(s));
    assert element.children[1..] == [second];
    assert SelectFirstIn([second], path) == SelectFirst(second, [s]);
    assert SelectFirstIn(element.children, path) == SelectFirstIn([second], path);
  }

  /** Reading the properties written for a list of files with distinct
      ids gives each file back its format fields (a defaulted description
      reads back as the URI) and its commitment type (an empty one when it
      had none). */
  lemma ParseAfterCreate(files: seq<XadesFile>, k: nat, element: Node, signatureProperties: Node, g: XadesFile)
    requires k < |files| && DistinctIds(files) && QuotableId(files[k].id)
    requires element.Element? && element.children == [signatureProperties, DataObjectProperties(files)]
    requires !Matches(signatureProperties, PropertiesStep)
    requires g.id == files[k].id
    ensures ParseProperties(g, element) == Success(g.(
              description := WrittenDescription(files[k]),
              identifier := files[k].identifier,
              mimeType := files[k].mimeType,
              encoding := files[k].encoding,
              commitmentTypeId := Some(files[k].commitmentTypeId.GetOr(""))))
  {
    var dop := DataObjectProperties(files);
    FindsOwnFormat(files, k);
    FindsOwnIndication(files, k);
    SelectUnderSecond(element, signatureProperties, dop, FormatStep(g.id));
    SelectUnderSecond(element, signatureProperties, dop, IndicationStep(g.id));
  }

  // ---------------------------------------------------------------------
  // Digest check

  /** Opening the file's content: the resolver or the web client. */
  type Fetch = string -> Result<seq<byte>>

  /** `XadesUtils.CalculateHash(stream, transformChain, digestMethod)`. */
  type Hash = (seq<byte>, Option<seq<Transform>>, Option<string>) -> Result<seq<byte>>

  /** `CheckDigest`: the file is valid when its content can be fetched and
      hashed and the digest equals the one in its reference; any failure
      (including a file without a reference) gives false. The result is
      also stored as the file's validity. */
  function CheckDigest(f: XadesFile, fetch: Fetch, hash: Hash): (r: (XadesFile, bool))
    ensures r.0 == f.(isValid := r.1)
    ensures r.1 ==> f.reference.Some? && fetch(f.uri).Success?
    ensures fetch(f.uri).Success? && f.reference.Some? ==>
              (r.1 <==> hash(fetch(f.uri).value, f.chain, f.digestMethod) == Success(f.reference.value.digestValue))
  {
    var valid :=
      match fetch(f.uri)
      case Failure(_) => false
      case Success(content) =>
        match hash(content, f.chain, f.digestMethod)
        case Failure(_) => false
        case Success(digest) => f.reference.Some? && digest == f.reference.value.digestValue;
    (f.(isValid := valid), valid)
  }

  /** A file read back from a reference whose digest was computed over
      the content checks as valid when the same content is fetched. */
  lemma CheckAfterSign(f: XadesFile, fetch: Fetch, hash: Hash, content: seq<byte>)
    requires fetch(f.uri) == Success(content)
    requires hash(content, f.chain, Some(f.digestMethod.GetOr(Sha256Url))).Success?
    ensures var written := GetReference(f).1;
            var signed := written.(digestValue := hash(content, f.chain, Some(written.digestMethod)).value);
            CheckDigest(FromReference(signed), fetch, hash).1
  {
    var written := GetReference(f).1;
    var signed := written.(digestValue := hash(content, f.chain, Some(written.digestMethod)).value);
    UnescapeEscape(f.uri);
    assert FromReference(signed).uri == f.uri;
  }
}
