/** The signature-wide qualifying properties of a XAdES signature
    (`OpenSBR.Xades.XadesSignatureProperties`): the signing time, the
    signing certificate and the signature policy with its digest, written
    as `SignedSignatureProperties` (ETSI TS 101 903 v1.3.2, sections 7.2.1
    to 7.2.3) and read back from a `SignedProperties` element. */
module XadesProperties {
  import opened Wrappers
  import opened Bytes
  import opened Base64
  import opened Xml
  import opened TransformSets
  import XadesFiles

  /** A `DateTime` as its tick count; zero ticks is the unset default
      (also what a failed `DateTime.TryParse` leaves). */
  datatype Time = Time(ticks: nat)

  const Unset: Time := Time(0)

  /** `DateTime.ToString("s")` and `DateTime.TryParse`; both belong to the
      framework and are parameters here. */
  type FormatTime = Time -> string
  type ParseTime = string -> Option<Time>

  /** The parts of the signing certificate that are written. */
  datatype Certificate = Certificate(rawData: seq<byte>, issuer: string, serialNumber: string)

  /** SHA-256 of the certificate's raw data, and
      `XadesUtils.ToDecimal(XadesUtils.HexToBytes(serial))`. */
  datatype CertTools = CertTools(sha256: seq<byte> -> seq<byte>, serialDecimal: string -> string)

  datatype Properties = Properties(
    signingTime: Time,
    policyId: Option<string>,
    policyChain: Option<seq<Transform>>,
    policyDigestMethod: Option<string>,
    policyDigest: Option<seq<byte>>)

  /** `new XadesSignatureProperties()`: nothing set. */
  function NewProperties(): (p: Properties)
    ensures p.signingTime == Unset
    ensures p.policyId.None? && p.policyChain.None? && p.policyDigestMethod.None? && p.policyDigest.None?
  {
    Properties(Unset, None, None, None, None)
  }

  // ---------------------------------------------------------------------
  // Policy digest

  /** `UpdateHash(stream)`: the digest of the policy document under the
      policy's transforms and digest method; a failing hash propagates. */
  function UpdateHash(p: Properties, content: seq<byte>, hash: XadesFiles.Hash): (r: Result<Properties>)
    ensures r.Success? <==> hash(content, p.policyChain, p.policyDigestMethod).Success?
    ensures r.Success? ==> r.value == p.(policyDigest := Some(hash(content, p.policyChain, p.policyDigestMethod).value))
  {
    match hash(content, p.policyChain, p.policyDigestMethod)
    case Failure(e) => Failure(e)
    case Success(d) => Success(p.(policyDigest := Some(d)))
  }

  /** `UpdateHash(uri)`: the document is opened from the URI; a null URI
      or a failing download propagates. */
  function UpdateHashFrom(p: Properties, uri: Option<string>, fetch: XadesFiles.Fetch, hash: XadesFiles.Hash): (r: Result<Properties>)
    ensures r.Success? <==> uri.Some? && fetch(uri.value).Success? && hash(fetch(uri.value).value, p.policyChain, p.policyDigestMethod).Success?
    ensures r.Success? ==> r.value == p.(policyDigest := Some(hash(fetch(uri.value).value, p.policyChain, p.policyDigestMethod).value))
  {
    match uri
    case None => Failure("Value cannot be null.")
    case Some(u) =>
      match fetch(u)
      case Failure(e) => Failure(e)
      case Success(content) => UpdateHash(p, content, hash)
  }

  /** `CheckDigest(stream)`: the recomputed digest against the stored
      one; a failing hash propagates. */
  function CheckDigestOf(p: Properties, content: seq<byte>, hash: XadesFiles.Hash): (r: Result<bool>)
    ensures r.Success? <==> hash(content, p.policyChain, p.policyDigestMethod).Success?
    ensures r.Success? ==> (r.value <==> p.policyDigest == Some(hash(content, p.policyChain, p.policyDigestMethod).value))
  {
    match hash(content, p.policyChain, p.policyDigestMethod)
    case Failure(e) => Failure(e)
    case Success(d) => Success(p.policyDigest == Some(d))
  }

  /** `CheckDigest(uri)`: the document at `uri`, or at the policy id when
      no URI is given. A download that fails is not caught. */
  function CheckDigest(p: Properties, uri: Option<string>, fetch: XadesFiles.Fetch, hash: XadesFiles.Hash): (r: Result<bool>)
    ensures var target := OrElse(uri, p.policyId);
            r.Success? <==> target.Some? && fetch(target.value).Success?
                            && hash(fetch(target.value).value, p.policyChain, p.policyDigestMethod).Success?
    ensures uri.Some? && r.Success? ==> r == CheckDigestOf(p, fetch(uri.value).value, hash)
    ensures uri.None? && r.Success? ==> r == CheckDigestOf(p, fetch(p.policyId.value).value, hash)
  {
    match OrElse(uri, p.policyId)
    case None => Failure("Value cannot be null.")
    case Some(u) =>
      match fetch(u)
      case Failure(e) => Failure(e)
      case Success(content) => CheckDigestOf(p, content, hash)
  }

  /** A digest computed from a document checks against the same document. */
  lemma CheckAfterUpdate(p: Properties, uri: string, fetch: XadesFiles.Fetch, hash: XadesFiles.Hash)
    requires UpdateHashFrom(p, Some(uri), fetch, hash).Success?
    ensures CheckDigest(UpdateHashFrom(p, Some(uri), fetch, hash).value, Some(uri), fetch, hash) == Success(true)
  {
    var q := UpdateHashFrom(p, Some(uri), fetch, hash).value;
    assert q.policyChain == p.policyChain && q.policyDigestMethod == p.policyDigestMethod;
  }

  // ---------------------------------------------------------------------
  // Writing SignedSignatureProperties

  /** A policy transform chain is written only when it has a transform. */
  predicate WritesChain(chain: Option<seq<Transform>>) {
    chain.Some? && |chain.value| > 0
  }

  /** `ds:DigestMethod` with its `Algorithm`. */
  function DigestMethodXml(algorithm: string): (n: Node)
    ensures n.Element? && n.ns == DsigNs && n.local == "DigestMethod" && n.children == []
    ensures GetAttribute(n, "Algorithm") == algorithm
  {
    SetAttribute(NewElement(DsigNs, "DigestMethod"), "Algorithm", algorithm)
  }

  /** `ds:DigestValue` holding the base 64 form of the digest. */
  function DigestValueXml(digest: seq<byte>): Node {
    TextElement(DsigNs, "DigestValue", Some(Encode(digest)))
  }

  function SigningTimeXml(time: Time, format: FormatTime): Node {
    TextElement(XadesNs, "SigningTime", Some(format(time)))
  }

  /** `SigningCertificate/Cert`: the certificate's SHA-256 digest and its
      issuer and serial number. */
  function SigningCertificateXml(cert: Certificate, tools: CertTools): Node {
    var certDigest := Element(XadesNs, "CertDigest", [],
      [DigestMethodXml(Sha256Url), DigestValueXml(tools.sha256(cert.rawData))]);
    var issuerSerial := Element(XadesNs, "IssuerSerial", [],
      [TextElement(DsigNs, "X509IssuerName", Some(cert.issuer)),
       TextElement(DsigNs, "X509SerialNumber", Some(tools.serialDecimal(cert.serialNumber)))]);
    Element(XadesNs, "SigningCertificate", [], [Element(XadesNs, "Cert", [], [certDigest, issuerSerial])])
  }

  function SigPolicyIdXml(policyId: Option<string>): Node {
    Element(XadesNs, "SigPolicyId", [], [TextElement(XadesNs, "Identifier", policyId)])
  }

  /** `SigPolicyHash`; a null digest method is written as an empty
      `Algorithm`. */
  function SigPolicyHashXml(digestMethod: Option<string>, digest: seq<byte>): Node {
    Element(XadesNs, "SigPolicyHash", [], [DigestMethodXml(digestMethod.GetOr("")), DigestValueXml(digest)])
  }

  /** The chain `GetXml` can write: none to write, or transforms that can
      all be written. */
  predicate ChainWritable(chain: Option<seq<Transform>>) {
    WritesChain(chain) ==> ChainXml(chain.value).Success?
  }

  /** The `ds:Transforms` child of `SignaturePolicyId`, when there is one. */
  function PolicyChainXml(chain: Option<seq<Transform>>): (r: seq<Node>)
    requires ChainWritable(chain)
    ensures WritesChain(chain) ==> r == [ChainXml(chain.value).value]
    ensures !WritesChain(chain) ==> r == []
  {
    if WritesChain(chain) then [ChainXml(chain.value).value] else []
  }

  /** `SignaturePolicyId`: the policy identifier, the transforms when there
      are any, and the policy digest. */
  function SignaturePolicyIdXml(p: Properties, digest: seq<byte>): Node
    requires ChainWritable(p.policyChain)
  {
    Element(XadesNs, "SignaturePolicyId", [],
      [SigPolicyIdXml(p.policyId)]
      + PolicyChainXml(p.policyChain)
      + [SigPolicyHashXml(p.policyDigestMethod, digest)])
  }

  /** The element the `CreateChild` calls build, for properties whose
      signing time and digest are settled and whose chain can be
      written. */
  function BuildSignatureProperties(p: Properties, digest: seq<byte>, cert: Certificate, tools: CertTools, format: FormatTime): Node
    requires ChainWritable(p.policyChain)
  {
    Element(XadesNs, "SignedSignatureProperties", [],
      [SigningTimeXml(p.signingTime, format),
       SigningCertificateXml(cert, tools),
       Element(XadesNs, "SignaturePolicyIdentifier", [], [SignaturePolicyIdXml(p, digest)])])
  }

  /** The signing time to write: the current time when none was set. */
  function SettledTime(t: Time, now: Time): (r: Time)
    ensures t != Unset ==> r == t
    ensures t == Unset ==> r == now
  {
    if t.ticks == 0 then now else t
  }

  /** The properties after the digest step of `CreateXadesSignatureProperties`:
      a missing digest is computed from the document at the policy id. */
  function SettleDigest(p: Properties, fetch: XadesFiles.Fetch, hash: XadesFiles.Hash): (r: Result<Properties>)
    ensures p.policyDigest.Some? ==> r == Success(p)
    ensures p.policyDigest.None? ==> r == UpdateHashFrom(p, p.policyId, fetch, hash)
    ensures r.Success? ==> r.value.policyDigest.Some?
  {
    if p.policyDigest.Some? then Success(p) else UpdateHashFrom(p, p.policyId, fetch, hash)
  }

  /** `CreateXadesSignatureProperties`: the updated properties (signing
      time and digest settled) and the `SignedSignatureProperties`
      element. The transforms are written before the digest is computed,
      so a chain `GetXml` rejects fails first; the digest is only computed
      when none is set. */
  function Create(p: Properties, now: Time, cert: Certificate, tools: CertTools, format: FormatTime,
                  fetch: XadesFiles.Fetch, hash: XadesFiles.Hash): (r: Result<(Properties, Node)>)
    ensures r.Success? <==> ChainWritable(p.policyChain) && SettleDigest(p.(signingTime := SettledTime(p.signingTime, now)), fetch, hash).Success?
    ensures !ChainWritable(p.policyChain) ==> r == Failure(ChainXml(p.policyChain.value).error)
    ensures p.policyDigest.Some? && ChainWritable(p.policyChain) ==> r.Success? && r.value.0.policyDigest == p.policyDigest
    ensures r.Success? ==> ChainWritable(r.value.0.policyChain)
    ensures r.Success? ==>
              var q := r.value.0;
              && q.signingTime == SettledTime(p.signingTime, now)
              && q.policyId == p.policyId && q.policyChain == p.policyChain && q.policyDigestMethod == p.policyDigestMethod
              && q.policyDigest.Some?
              && (p.policyDigest.None? ==> q == UpdateHashFrom(p, p.policyId, fetch, hash).value.(signingTime := q.signingTime))
              && r.value.1 == BuildSignatureProperties(q, q.policyDigest.value, cert, tools, format)
  {
    var timed := p.(signingTime := SettledTime(p.signingTime, now));
    if !ChainWritable(p.policyChain) then Failure(ChainXml(p.policyChain.value).error)
    else
      match SettleDigest(timed, fetch, hash)
      case Failure(e) => Failure(e)
      case Success(q) => Success((q, BuildSignatureProperties(q, q.policyDigest.value, cert, tools, format)))
  }

  /** A created element has the three children in schema order; the
      certificate digest is always SHA-256 and the signing time is never
      unset when the clock is not. */
  lemma CreateShape(p: Properties, now: Time, cert: Certificate, tools: CertTools, format: FormatTime,
                    fetch: XadesFiles.Fetch, hash: XadesFiles.Hash)
    requires Create(p, now, cert, tools, format, fetch, hash).Success?
    ensures var (q, e) := Create(p, now, cert, tools, format, fetch, hash).value;
            && e.Element? && e.ns == XadesNs && e.local == "SignedSignatureProperties" && |e.children| == 3
            && e.children[0].Element? && e.children[0].local == "SigningTime"
            && e.children[1].Element? && e.children[1].local == "SigningCertificate"
            && e.children[2].Element? && e.children[2].local == "SignaturePolicyIdentifier"
            && GetInnerText(Some(e), [Child(XadesNs, "SigningTime")]) == Some(format(q.signingTime))
            && (now != Unset ==> q.signingTime != Unset)
  {
    var (q, e) := Create(p, now, cert, tools, format, fetch, hash).value;
    ReadFirstChild(e, Child(XadesNs, "SigningTime"));
  }

  /** `GetInnerText` over one step finds the first child when it matches. */
  lemma ReadFirstChild(e: Node, s: Step)
    requires e.Element? && |e.children| > 0 && Matches(e.children[0], s)
    ensures GetInnerText(Some(e), [s]) == Some(InnerText(e.children[0]))
  {
    assert [s][1..] == [];
    SelectFirstInAt(e.children, [s], 0);
  }

  /** Reading the certificate digest of a created element gives SHA-256
      and the base 64 form of the certificate's hash. */
  lemma CertDigestWritten(cert: Certificate, tools: CertTools)
    ensures var cd := SigningCertificateXml(cert, tools).children[0].children[0];
            && cd.Element? && cd.local == "CertDigest"
            && GetAttribute(cd.children[0], "Algorithm") == Sha256Url
            && GetInnerText(Some(cd), [Child(DsigNs, "DigestValue")]) == Some(Encode(tools.sha256(cert.rawData)))
  {
    var cd := SigningCertificateXml(cert, tools).children[0].children[0];
    var s := Child(DsigNs, "DigestValue");
    assert [s][1..] == [];
    assert !Matches(cd.children[0], s);
    SelectFirstInAt(cd.children, [s], 1);
  }

  /** Properties whose digest was computed while creating them check as
      valid against the same policy document, fetched again from the
      policy id. */
  lemma CheckAfterCreate(p: Properties, now: Time, cert: Certificate, tools: CertTools, format: FormatTime,
                         fetch: XadesFiles.Fetch, hash: XadesFiles.Hash)
    requires p.policyDigest.None?
    requires Create(p, now, cert, tools, format, fetch, hash).Success?
    ensures CheckDigest(Create(p, now, cert, tools, format, fetch, hash).value.0, None, fetch, hash) == Success(true)
  {
    var q := Create(p, now, cert, tools, format, fetch, hash).value.0;
    assert q.policyId == p.policyId && q.policyId.Some?;
    assert CheckDigest(q, None, fetch, hash) == CheckDigestOf(q, fetch(q.policyId.value).value, hash);
  }

  // ---------------------------------------------------------------------
  // Reading SignedSignatureProperties

  const SignedSignatureStep: Step := Child(XadesNs, "SignedSignatureProperties")
  const TimePath: seq<Step> := [SignedSignatureStep, Child(XadesNs, "SigningTime")]
  const PolicyIdPath: seq<Step> := [SignedSignatureStep, Child(XadesNs, "SignaturePolicyIdentifier"), Child(XadesNs, "SignaturePolicyId")]
  const IdentifierPath: seq<Step> := [Child(XadesNs, "SigPolicyId"), Child(XadesNs, "Identifier")]
  const ChainPath: seq<Step> := [Child(DsigNs, "Transforms")]
  const DigestMethodPath: seq<Step> := [Child(XadesNs, "SigPolicyHash"), Child(DsigNs, "DigestMethod")]
  const DigestValuePath: seq<Step> := [Child(XadesNs, "SigPolicyHash"), Child(DsigNs, "DigestValue")]

  /** The signing time read: the parsed text of the first `SigningTime`,
      and the default when there is none or it does not parse. */
  function ReadTime(element: Node, parse: ParseTime): (t: Time)
    ensures SelectFirst(element, TimePath).None? ==> t == Unset
    ensures SelectFirst(element, TimePath).Some? ==> t == parse(InnerText(SelectFirst(element, TimePath).value)).GetOr(Unset)
  {
    match SelectFirst(element, TimePath)
    case None => Unset
    case Some(n) =>
      match parse(InnerText(n))
      case None => Unset
      case Some(t) => t
  }

  /** The policy transforms: none without `ds:Transforms`, otherwise the
      chain the framework loads, whose failure propagates. */
  function ReadChain(spid: Node, registered: Registry): (r: Result<Option<seq<Transform>>>)
    ensures SelectFirst(spid, ChainPath).None? ==> r == Success(None)
    ensures SelectFirst(spid, ChainPath).Some? ==>
              var t := SelectFirst(spid, ChainPath).value;
              t.Element? && (r.Success? <==> LoadXmlChain(t, registered).Success?)
              && (r.Success? ==> r.value == Some(LoadXmlChain(t, registered).value))
  {
    match SelectFirst(spid, ChainPath)
    case None => Success(None)
    case Some(t) =>
      SelectFirstIsFirstOfAll(spid, ChainPath);
      match LoadXmlChain(t, registered)
      case Failure(e) => Failure(e)
      case Success(chain) => Success(Some(chain))
  }

  /** The policy digest: none without `DigestValue`, otherwise the decoded
      base 64 text; text that is not base 64 is an error. */
  function ReadDigest(spid: Node): (r: Result<Option<seq<byte>>>)
    ensures GetInnerText(Some(spid), DigestValuePath).None? ==> r == Success(None)
    ensures GetInnerText(Some(spid), DigestValuePath).Some? ==>
              var text := GetInnerText(Some(spid), DigestValuePath).value;
              && (r.Success? <==> Decode(text).Some?)
              && (r.Success? ==> r.value == Decode(text))
  {
    match GetInnerText(Some(spid), DigestValuePath)
    case None => Success(None)
    case Some(text) =>
      match Decode(text)
      case None => Failure("The input is not a valid Base-64 string.")
      case Some(bs) => Success(Some(bs))
  }

  /** The digest method: the `Algorithm` of the first `DigestMethod`. */
  function ReadDigestMethod(spid: Node): (r: Option<string>)
    ensures r.None? <==> SelectFirst(spid, DigestMethodPath).None?
    ensures r.Some? ==> SelectFirst(spid, DigestMethodPath).value.Element?
                        && r.value == GetAttribute(SelectFirst(spid, DigestMethodPath).value, "Algorithm")
  {
    SelectFirstIsFirstOfAll(spid, DigestMethodPath);
    match SelectFirst(spid, DigestMethodPath)
    case None => None
    case Some(m) => Some(GetAttribute(m, "Algorithm"))
  }

  /** The policy fields read from a `SignaturePolicyId` element. */
  function ReadPolicy(time: Time, spid: Node, registered: Registry): (r: Result<Properties>)
    ensures r.Success? <==> ReadChain(spid, registered).Success? && ReadDigest(spid).Success?
    ensures r.Success? ==>
              && r.value.signingTime == time
              && r.value.policyId == GetInnerText(Some(spid), IdentifierPath)
              && r.value.policyChain == ReadChain(spid, registered).value
              && r.value.policyDigestMethod == ReadDigestMethod(spid)
              && r.value.policyDigest == ReadDigest(spid).value
  {
    match ReadChain(spid, registered)
    case Failure(e) => Failure(e)
    case Success(chain) =>
      match ReadDigest(spid)
      case Failure(e) => Failure(e)
      case Success(digest) =>
        Success(Properties(time, GetInnerText(Some(spid), IdentifierPath), chain, ReadDigestMethod(spid), digest))
  }

  /** `new XadesSignatureProperties(element, nsm)` over the
      `SignedProperties` element: without a `SignaturePolicyId` only the
      signing time is read. */
  function Parse(element: Node, parse: ParseTime, registered: Registry): (r: Result<Properties>)
    ensures SelectFirst(element, PolicyIdPath).None? ==> r == Success(NewProperties().(signingTime := ReadTime(element, parse)))
    ensures SelectFirst(element, PolicyIdPath).Some? ==> r == ReadPolicy(ReadTime(element, parse), SelectFirst(element, PolicyIdPath).value, registered)
  {
    var time := ReadTime(element, parse);
    match SelectFirst(element, PolicyIdPath)
    case None => Success(Properties(time, None, None, None, None))
    case Some(spid) => ReadPolicy(time, spid, registered)
  }

  // ---------------------------------------------------------------------
  // Reading back what was written

  /** One step down: the first child is the one the step selects. */
  lemma SelectFirstChildAt(n: Node, path: seq<Step>, k: nat)
    requires n.Element? && |path| > 0 && k < |n.children| && Matches(n.children[k], path[0])
    requires SelectFirst(n.children[k], path[1..]).Some?
    requires forall j :: 0 <= j < k ==> !Matches(n.children[j], path[0])
    ensures SelectFirst(n, path) == SelectFirst(n.children[k], path[1..])
  {
    SelectFirstInAt(n.children, path, k);
  }

  /** The written signing time is what the reader parses. */
  lemma FindsSigningTime(element: Node, ssp: Node, t: Time, format: FormatTime)
    requires element.Element? && |element.children| > 0 && element.children[0] == ssp
    requires ssp.Element? && ssp.ns == XadesNs && ssp.local == "SignedSignatureProperties"
    requires |ssp.children| > 0 && ssp.children[0] == SigningTimeXml(t, format)
    ensures SelectFirst(element, TimePath) == Some(SigningTimeXml(t, format))
  {
    var st := SigningTimeXml(t, format);
    assert TimePath[1..][1..] == [];
    SelectFirstChildAt(ssp, TimePath[1..], 0);
    SelectFirstChildAt(element, TimePath, 0);
  }

  /** The written `SignaturePolicyId` is the one the reader finds. */
  lemma FindsPolicyId(element: Node, ssp: Node, spid: Node)
    requires element.Element? && |element.children| > 0 && element.children[0] == ssp
    requires ssp.Element? && ssp.ns == XadesNs && ssp.local == "SignedSignatureProperties" && |ssp.children| == 3
    requires !Matches(ssp.children[0], PolicyIdPath[1]) && !Matches(ssp.children[1], PolicyIdPath[1])
    requires ssp.children[2] == Element(XadesNs, "SignaturePolicyIdentifier", [], [spid])
    requires spid.Element? && spid.ns == XadesNs && spid.local == "SignaturePolicyId"
    ensures SelectFirst(element, PolicyIdPath) == Some(spid)
  {
    var spi := ssp.children[2];
    var tail := PolicyIdPath[1..];
    assert tail[1..][1..] == [];
    SelectFirstChildAt(spi, tail[1..], 0);
    SelectFirstChildAt(ssp, tail, 2);
    SelectFirstChildAt(element, PolicyIdPath, 0);
  }

  /** The policy identifier reads back; a null one as "". */
  lemma ReadsIdentifier(p: Properties, digest: seq<byte>)
    requires ChainWritable(p.policyChain)
    ensures GetInnerText(Some(SignaturePolicyIdXml(p, digest)), IdentifierPath) == Some(p.policyId.GetOr(""))
  {
    var spid := SignaturePolicyIdXml(p, digest);
    var sp := SigPolicyIdXml(p.policyId);
    assert spid.children[0] == sp;
    assert IdentifierPath[1..][1..] == [];
    SelectFirstChildAt(sp, IdentifierPath[1..], 0);
    SelectFirstChildAt(spid, IdentifierPath, 0);
  }

  /** The last child of the written `SignaturePolicyId` is `SigPolicyHash`,
      and no earlier child is. */
  lemma PolicyHashLast(p: Properties, digest: seq<byte>)
    requires ChainWritable(p.policyChain)
    ensures var spid := SignaturePolicyIdXml(p, digest);
            && spid.Element? && |spid.children| > 0
            && spid.children[|spid.children| - 1] == SigPolicyHashXml(p.policyDigestMethod, digest)
            && forall j :: 0 <= j < |spid.children| - 1 ==> !Matches(spid.children[j], DigestValuePath[0])
  {
  }

  /** The policy digest method reads back; a null one as "". */
  lemma ReadsDigestMethod(p: Properties, digest: seq<byte>)
    requires ChainWritable(p.policyChain)
    ensures ReadDigestMethod(SignaturePolicyIdXml(p, digest)) == Some(p.policyDigestMethod.GetOr(""))
  {
    var spid := SignaturePolicyIdXml(p, digest);
    var h := SigPolicyHashXml(p.policyDigestMethod, digest);
    PolicyHashLast(p, digest);
    assert DigestMethodPath[0] == DigestValuePath[0];
    assert DigestMethodPath[1..][1..] == [];
    SelectFirstChildAt(h, DigestMethodPath[1..], 0);
    SelectFirstChildAt(spid, DigestMethodPath, |spid.children| - 1);
  }

  /** The policy digest reads back through base 64 (RFC 4648 section 4). */
  lemma ReadsDigest(p: Properties, digest: seq<byte>)
    requires ChainWritable(p.policyChain)
    ensures ReadDigest(SignaturePolicyIdXml(p, digest)) == Success(Some(digest))
  {
    var spid := SignaturePolicyIdXml(p, digest);
    var h := SigPolicyHashXml(p.policyDigestMethod, digest);
    PolicyHashLast(p, digest);
    assert DigestValuePath[1..][1..] == [];
    assert !Matches(h.children[0], DigestValuePath[1]);
    SelectFirstChildAt(h, DigestValuePath[1..], 1);
    SelectFirstChildAt(spid, DigestValuePath, |spid.children| - 1);
    DecodeEncode(digest);
  }

  /** Creating properties whose policy chain holds a filter of two
      writable steps fails, as the code's chain writer throws. */
  lemma CreateRejectsTwoStepFilter(p: Properties, now: Time, cert: Certificate, tools: CertTools, format: FormatTime,
                                   fetch: XadesFiles.Fetch, hash: XadesFiles.Hash, fs: seq<Filter2.FilterElement>)
    requires p.policyChain == Some([FilterTransform(fs)])
    requires |fs| >= 2 && Filter2.WriteFilterElement(fs[0]).Success? && Filter2.WriteFilterElement(fs[1]).Success?
    ensures Create(p, now, cert, tools, format, fetch, hash) == Failure("This document already has a 'DocumentElement' node.")
  {
    var t := FilterTransform(fs);
    assert TransformXml(t).Failure?;
    assert [t][1..] == [];
    assert TransformXmls([t]) == Failure("This document already has a 'DocumentElement' node.");
  }

  /** The transforms read back when a non-empty chain was written (loaded
      again, filter steps normalized), and an empty chain reads back as
      none. */
  lemma ReadsChain(p: Properties, digest: seq<byte>, registered: Registry)
    requires p.policyChain.Some? ==> forall i :: 0 <= i < |p.policyChain.value| ==> Writable(p.policyChain.value[i], registered)
    requires ChainWritable(p.policyChain)
    ensures !WritesChain(p.policyChain) ==> ReadChain(SignaturePolicyIdXml(p, digest), registered) == Success(None)
    ensures WritesChain(p.policyChain) ==>
              ReadChain(SignaturePolicyIdXml(p, digest), registered) == Success(Some(NormalizedChain(p.policyChain.value)))
  {
    var spid := SignaturePolicyIdXml(p, digest);
    assert ChainPath[1..] == [];
    if WritesChain(p.policyChain) {
      assert spid.children[1] == ChainXml(p.policyChain.value).value;
      SelectFirstChildAt(spid, ChainPath, 1);
      ChainRoundTrip(p.policyChain.value, registered);
    } else {
      assert spid.children == [SigPolicyIdXml(p.policyId), SigPolicyHashXml(p.policyDigestMethod, digest)];
      SelectFirstInMiss(spid.children, ChainPath);
    }
  }

  /** What reading a `SignedProperties` element whose first child was
      created from `q` gives back. */
  function ReadBack(q: Properties, parse: ParseTime, format: FormatTime): Properties
    requires q.policyDigest.Some?
  {
    Properties(
      parse(format(q.signingTime)).GetOr(Unset),
      Some(q.policyId.GetOr("")),
      if WritesChain(q.policyChain) then Some(NormalizedChain(q.policyChain.value)) else None,
      Some(q.policyDigestMethod.GetOr("")),
      q.policyDigest)
  }

  /** Parsing the `SignedProperties` element that holds a created
      `SignedSignatureProperties` first recovers the policy id, digest
      method and digest bytes (null strings as ""), the non-empty
      transform chain, and the signing time as far as its text form
      parses back. */
  lemma ParseAfterCreate(p: Properties, now: Time, cert: Certificate, tools: CertTools, format: FormatTime,
                         fetch: XadesFiles.Fetch, hash: XadesFiles.Hash,
                         parse: ParseTime, registered: Registry, element: Node)
    requires Create(p, now, cert, tools, format, fetch, hash).Success?
    requires element.Element? && |element.children| > 0
    requires element.children[0] == Create(p, now, cert, tools, format, fetch, hash).value.1
    requires p.policyChain.Some? ==> forall i :: 0 <= i < |p.policyChain.value| ==> Writable(p.policyChain.value[i], registered)
    ensures var q := Create(p, now, cert, tools, format, fetch, hash).value.0;
            Parse(element, parse, registered) == Success(ReadBack(q, parse, format))
  {
    var (q, ssp) := Create(p, now, cert, tools, format, fetch, hash).value;
    var digest := q.policyDigest.value;
    var spid := SignaturePolicyIdXml(q, digest);
    FindsSigningTime(element, ssp, q.signingTime, format);
    FindsPolicyId(element, ssp, spid);
    ReadsIdentifier(q, digest);
    ReadsDigestMethod(q, digest);
    ReadsDigest(q, digest);
    ReadsChain(q, digest, registered);
  }
}
