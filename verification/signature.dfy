/** The XAdES signature (`OpenSBR.Xades.XadesSignature`): the ids given to
    the signed files, the assembly of `SignedInfo` references and
    qualifying properties, the reading of a signature document back into
    files and properties, and the aggregation of the validity checks. */
module XadesSignatures {
  import opened Wrappers
  import opened Seqs
  import opened Strings
  import opened Xml
  import opened TransformSets
  import opened XadesFiles
  import opened Bytes
  import XadesProperties

  // ---------------------------------------------------------------------
  // File ids

  /** `$"xmldsig-ref{n}"`. */
  function RefId(n: nat): (s: string)
    ensures |s| > 11 && s[..11] == "xmldsig-ref" && s[11..] == NatToString(n)
  {
    "xmldsig-ref" + NatToString(n)
  }

  lemma RefIdInjective(m: nat, n: nat)
    ensures RefId(m) == RefId(n) <==> m == n
  {
    if RefId(m) == RefId(n) {
      assert RefId(m)[11..] == RefId(n)[11..];
      NatToStringInjective(m, n);
    }
  }

  /** The least generated id at or above `n` that is not in `used`: the
      counting loop of `CreateFileIds`. Each generated id it passes is
      set aside, which bounds the search. */
  function NextFree(used: set<string>, n: nat): (m: nat)
    ensures m >= n && RefId(m) !in used
    ensures forall k :: n <= k < m ==> RefId(k) in used
    decreases |used|
  {
    if RefId(n) in used then
      var m := NextFree(used - {RefId(n)}, n + 1);
      forall k | n <= k < m
        ensures RefId(k) in used
      {
        if k > n {
          RefIdInjective(k, n);
        }
      }
      RefIdInjective(m, n);
      m
    else n
  }

  /** The strings a list holds. */
  function Used(s: seq<string>): set<string> {
    set x | x in s
  }

  /** The id of file `i` is kept: it has one and no earlier file (after
      renaming) or outside use claims it. */
  predicate Kept(ids: seq<Option<string>>, used: set<string>, r: seq<string>, i: nat)
    requires i < |ids| && i <= |r|
  {
    ids[i].Some? && ids[i].value !in used && ids[i].value !in r[..i]
  }

  /** The ids `CreateFileIds` assigns, for ids `used` already taken and the
      counter at `n`: a missing or repeated id is replaced by the next
      free generated one. */
  function AssignIds(ids: seq<Option<string>>, used: set<string>, n: nat): (r: seq<string>)
    ensures |r| == |ids|
    decreases |ids|
  {
    if |ids| == 0 then []
    else if ids[0].Some? && ids[0].value !in used then
      [ids[0].value] + AssignIds(ids[1..], used + {ids[0].value}, n)
    else
      var m := NextFree(used, n);
      [RefId(m)] + AssignIds(ids[1..], used + {RefId(m)}, m)
  }

  /** The first assigned id, and the arguments the rest is assigned with. */
  lemma AssignIdsStep(ids: seq<Option<string>>, used: set<string>, n: nat)
    requires |ids| > 0
    ensures var r := AssignIds(ids, used, n);
            var kept := ids[0].Some? && ids[0].value !in used;
            var n' := if kept then n else NextFree(used, n);
            && r[0] !in used
            && (kept ==> r[0] == ids[0].value)
            && (!kept ==> r[0] == RefId(NextFree(used, n)))
            && r[1..] == AssignIds(ids[1..], used + {r[0]}, n')
  {
  }

  /** Claims seen at position `i` of the whole list are the claims seen at
      position `i - 1` of the rest once the first id is claimed. */
  lemma ClaimsShift(ids: seq<Option<string>>, used: set<string>, r: seq<string>, i: nat)
    requires 1 <= i < |ids| && |r| == |ids|
    ensures Kept(ids, used, r, i) <==> Kept(ids[1..], used + {r[0]}, r[1..], i - 1)
    ensures used + Used(r[..i]) == (used + {r[0]}) + Used(r[1..][..i - 1])
  {
    assert r[..i] == [r[0]] + r[1..][..i - 1];
    assert Used(r[..i]) == {r[0]} + Used(r[1..][..i - 1]);
  }

  /** The assigned ids are distinct and avoid the ids already taken. */
  lemma {:induction false} AssignIdsFresh(ids: seq<Option<string>>, used: set<string>, n: nat)
    ensures var r := AssignIds(ids, used, n);
            && (forall i :: 0 <= i < |r| ==> r[i] !in used)
            && (forall i, j :: 0 <= i < j < |r| ==> r[i] != r[j])
    decreases |ids|
  {
    if |ids| > 0 {
      var r := AssignIds(ids, used, n);
      AssignIdsStep(ids, used, n);
      var n' := if ids[0].Some? && ids[0].value !in used then n else NextFree(used, n);
      AssignIdsFresh(ids[1..], used + {r[0]}, n');
    }
  }

  /** A present id that nobody claimed yet is kept. */
  lemma {:induction false} AssignIdsKeeps(ids: seq<Option<string>>, used: set<string>, n: nat)
    ensures var r := AssignIds(ids, used, n);
            forall i :: 0 <= i < |r| && Kept(ids, used, r, i) ==> r[i] == ids[i].value
    decreases |ids|
  {
    if |ids| > 0 {
      var r := AssignIds(ids, used, n);
      AssignIdsStep(ids, used, n);
      var n' := if ids[0].Some? && ids[0].value !in used then n else NextFree(used, n);
      AssignIdsKeeps(ids[1..], used + {r[0]}, n');
      forall i | 1 <= i < |r| && Kept(ids, used, r, i)
        ensures r[i] == ids[i].value
      {
        ClaimsShift(ids, used, r, i);
      }
      assert r[..0] == [];
    }
  }

  /** A missing or claimed id is replaced by the least generated id at or
      above `n0` that is not claimed yet, given that the counter `n` only
      passed claimed ids. */
  lemma {:induction false} AssignIdsGenerates(ids: seq<Option<string>>, used: set<string>, n0: nat, n: nat)
    requires n0 <= n && forall k :: n0 <= k < n ==> RefId(k) in used
    ensures var r := AssignIds(ids, used, n);
            forall i :: 0 <= i < |r| && !Kept(ids, used, r, i) ==> r[i] == RefId(NextFree(used + Used(r[..i]), n0))
    decreases |ids|
  {
    if |ids| > 0 {
      var r := AssignIds(ids, used, n);
      AssignIdsStep(ids, used, n);
      var kept := ids[0].Some? && ids[0].value !in used;
      var n' := if kept then n else NextFree(used, n);
      if !kept {
        NextFreeFrom(used, n0, n);
      }
      AssignIdsGenerates(ids[1..], used + {r[0]}, n0, n');
      forall i | 1 <= i < |r| && !Kept(ids, used, r, i)
        ensures r[i] == RefId(NextFree(used + Used(r[..i]), n0))
      {
        ClaimsShift(ids, used, r, i);
      }
      assert r[..0] == [];
      assert used + Used(r[..0]) == used;
    }
  }

  /** Generated ids below the counter are all claimed, so searching from
      `n0` finds the same id as searching from the counter. */
  lemma NextFreeFrom(used: set<string>, n0: nat, n: nat)
    requires n0 <= n && forall k :: n0 <= k < n ==> RefId(k) in used
    ensures NextFree(used, n0) == NextFree(used, n)
  {
  }

  function IdsOf(files: seq<XadesFile>): (ids: seq<Option<string>>)
    ensures |ids| == |files| && forall i :: 0 <= i < |files| ==> ids[i] == files[i].id
  {
    seq(|files|, i requires 0 <= i < |files| => files[i].id)
  }

  /** The files with the ids `CreateFileIds` gives them. */
  function WithFileIds(files: seq<XadesFile>): (r: seq<XadesFile>)
    ensures |r| == |files|
    ensures forall i :: 0 <= i < |files| ==> r[i] == files[i].(id := Some(AssignIds(IdsOf(files), {}, 0)[i]))
  {
    var ids := AssignIds(IdsOf(files), {}, 0);
    seq(|files|, i requires 0 <= i < |files| => files[i].(id := Some(ids[i])))
  }

  /** The ids given by `CreateFileIds` are all present and different; a
      file keeps its id exactly when it has one that no earlier file
      holds, and the others get the least `xmldsig-ref<n>` that no earlier
      file holds. */
  lemma WithFileIdsSpec(files: seq<XadesFile>)
    ensures var r := WithFileIds(files);
            && DistinctIds(r)
            && (forall i :: 0 <= i < |r| ==> r[i] == files[i].(id := r[i].id))
            && (forall i :: 0 <= i < |r| ==>
                  (r[i].id == files[i].id <==> files[i].id.Some? && files[i].id !in IdsOf(r[..i])))
            && (forall i :: 0 <= i < |r| && r[i].id != files[i].id ==>
                  r[i].id == Some(RefId(NextFree(Used(AssignIds(IdsOf(files), {}, 0)[..i]), 0))))
  {
    var r := WithFileIds(files);
    var ids := IdsOf(files);
    var all := AssignIds(ids, {}, 0);
    AssignIdsFresh(ids, {}, 0);
    AssignIdsKeeps(ids, {}, 0);
    AssignIdsGenerates(ids, {}, 0, 0);
    forall i | 0 <= i < |r|
      ensures r[i].id == files[i].id <==> files[i].id.Some? && files[i].id !in IdsOf(r[..i])
      ensures r[i].id != files[i].id ==> r[i].id == Some(RefId(NextFree(Used(all[..i]), 0)))
    {
      IdAt(files, r, all, i);
    }
  }

  /** File `i` keeps its id exactly when no earlier file holds it, given
      an assignment of distinct ids that keeps unclaimed ids and otherwise
      generates the least free one. */
  lemma IdAt(files: seq<XadesFile>, r: seq<XadesFile>, all: seq<string>, i: nat)
    requires |r| == |files| == |all| && i < |files|
    requires forall j :: 0 <= j < |files| ==> r[j] == files[j].(id := Some(all[j]))
    requires forall j, k :: 0 <= j < k < |all| ==> all[j] != all[k]
    requires Kept(IdsOf(files), {}, all, i) ==> all[i] == IdsOf(files)[i].value
    requires !Kept(IdsOf(files), {}, all, i) ==> all[i] == RefId(NextFree({} + Used(all[..i]), 0))
    ensures r[i].id == files[i].id <==> files[i].id.Some? && files[i].id !in IdsOf(r[..i])
    ensures r[i].id != files[i].id ==> r[i].id == Some(RefId(NextFree(Used(all[..i]), 0)))
  {
    assert {} + Used(all[..i]) == Used(all[..i]);
    assert forall j :: 0 <= j < i ==> IdsOf(r[..i])[j] == Some(all[j]);
    assert files[i].id in IdsOf(r[..i]) <==> files[i].id.Some? && files[i].id.value in all[..i];
  }

  /** One turn of the loop of `CreateFileIds` assigns the next id and
      keeps the rest of the assignment ahead. */
  lemma AssignLoopStep(ids: seq<Option<string>>, all: seq<string>, used: set<string>, n: nat, i: nat)
    requires i < |ids| && |all| == |ids|
    requires used == Used(all[..i]) && all[i..] == AssignIds(ids[i..], used, n)
    ensures var kept := ids[i].Some? && ids[i].value !in used;
            var n' := if kept then n else NextFree(used, n);
            var id := if kept then ids[i].value else RefId(n');
            && all[i] == id
            && used + {id} == Used(all[..i + 1])
            && all[i + 1..] == AssignIds(ids[i + 1..], used + {id}, n')
  {
    AssignIdsStep(ids[i..], used, n);
    assert ids[i..][1..] == ids[i + 1..];
    assert all[i..][1..] == all[i + 1..];
    assert all[..i + 1] == all[..i] + [all[i]];
  }

  /** The loop of `CreateFileIds` over the files' ids: a missing id, or
      one already claimed, is replaced by the first free generated id from
      the counter on; every id is then claimed. */
  method AssignIdsLoop(ids: seq<Option<string>>) returns (all: seq<string>)
    ensures all == AssignIds(ids, {}, 0)
  {
    ghost var spec := AssignIds(ids, {}, 0);
    var used: set<string> := {};
    var n: nat := 0;
    all := [];
    for i := 0 to |ids|
      invariant all == spec[..i]
      invariant used == Used(all)
      invariant spec[i..] == AssignIds(ids[i..], used, n)
    {
      var id: string;
      ghost var old_n := n;
      if ids[i].None? || ids[i].value in used {
        n := NextFree(used, n);
        id := RefId(n);
      } else {
        id := ids[i].value;
      }
      AssignLoopStep(ids, spec, used, old_n, i);
      all := all + [id];
      used := used + {id};
    }
    assert spec[..|ids|] == spec;
  }

  /** `CreateFileIds`: every file gets the id the loop assigns it; the
      properties of the result are those of `WithFileIdsSpec`. */
  method CreateFileIds(files: seq<XadesFile>) returns (r: seq<XadesFile>)
    ensures r == WithFileIds(files)
    ensures DistinctIds(r)
  {
    var all := AssignIdsLoop(IdsOf(files));
    r := seq(|files|, i requires 0 <= i < |files| => files[i].(id := Some(all[i])));
    WithFileIdsSpec(files);
  }

  /** Two files without ids around one that has one. */
  lemma CreateFileIdsExample()
    ensures AssignIds([None, Some("x"), None], {}, 0) == [RefId(0), "x", RefId(1)]
  {
    var used := {RefId(0), "x"};
    assert RefId(0) != "x" && RefId(1) != "x";
    RefIdInjective(0, 1);
    assert NextFree(used - {RefId(0)}, 1) == 1;
    assert [None, Some("x"), None][1..] == [Some("x"), None];
    assert [Some("x"), None][1..] == [None];
  }

  // ---------------------------------------------------------------------
  // Reading a signature: which reference is the signed properties

  /** The reference type written for the signed properties: deliberately
      not the value the XAdES specification asks for, because the
      receiving party does not accept that one. */
  const XadesReferenceType: string := "http://uri.etsi.org/01903#SignedProperties"
  const SignedPropertiesId: string := "signed-properties"
  const SignatureRootId: string := "signature-root"

  /** `//xades:SignedProperties[@Id='id']`. */
  function SignedPropertiesStep(id: string): Step {
    Step(Some(XadesNs), "SignedProperties", AttributeIs("Id", id))
  }

  /** The reference claims to point at the signed properties: the XAdES
      type and a same-document URI. */
  predicate ClaimsProperties(r: Reference) {
    r.refType == Some(XadesReferenceType) && |r.uri| > 0 && r.uri[0] == '#'
  }

  /** The signed-properties reference: it claims to be one and the document
      has a `SignedProperties` element with the id it names. */
  predicate IsPropertiesRef(d: Document, r: Reference) {
    ClaimsProperties(r) && '\'' !in r.uri[1..] && SelectDescendant(d, SignedPropertiesStep(r.uri[1..])).Some?
  }

  function NotPropertiesRef(d: Document): Reference -> bool {
    (r: Reference) => !IsPropertiesRef(d, r)
  }

  /** The test the parsing constructor applies to one reference: the
      `SignedProperties` element it points at, if it is the one. The URI's
      first character is read whenever the type matches, so an empty URI
      fails; an apostrophe breaks the query. */
  function PropertiesTarget(d: Document, r: Reference): (t: Result<Option<Node>>)
    ensures t.Failure? <==> r.refType == Some(XadesReferenceType) && (|r.uri| == 0 || (r.uri[0] == '#' && '\'' in r.uri[1..]))
    ensures t.Success? ==> (t.value.Some? <==> IsPropertiesRef(d, r))
    ensures t.Success? && t.value.Some? ==>
              t.value == SelectDescendant(d, SignedPropertiesStep(r.uri[1..])) && t.value.value.Element?
  {
    if r.refType != Some(XadesReferenceType) then Success(None)
    else if |r.uri| == 0 then Failure("Index was outside the bounds of the array.")
    else if r.uri[0] != '#' then Success(None)
    else if '\'' in r.uri[1..] then Failure("has an invalid token")
    else Success(SelectDescendant(d, SignedPropertiesStep(r.uri[1..])))
  }

  /** One file per reference, read back from it. */
  function FilesOf(refs: seq<Reference>): (fs: seq<XadesFile>)
    ensures |fs| == |refs| && forall i :: 0 <= i < |refs| ==> fs[i] == FromReference(refs[i])
  {
    seq(|refs|, i requires 0 <= i < |refs| => FromReference(refs[i]))
  }

  /** The references sorted out: those the test turned down, in order,
      and the last one it accepted with what it found. */
  datatype Sorted<R, N> = Sorted(rest: seq<R>, chosen: Option<(N, R)>)

  /** An item whose test found nothing. */
  function Untargeted<R, N>(target: R -> Result<Option<N>>): R -> bool {
    (r: R) => target(r) == Success(None)
  }

  /** The reference loop of the parsing constructor, for any per-reference
      test: a failing test ends the loop, every reference the test turns
      down is kept in order, and the last reference it accepts is chosen. */
  function SortBy<R(==), N>(refs: seq<R>, target: R -> Result<Option<N>>): (r: Result<Sorted<R, N>>)
    ensures r.Success? <==> forall i :: 0 <= i < |refs| ==> target(refs[i]).Success?
    ensures r.Success? ==> r.value.rest == Filter(refs, Untargeted(target))
    ensures r.Success? ==> (r.value.chosen.None? <==> forall i :: 0 <= i < |refs| ==> target(refs[i]) == Success(None))
    decreases |refs|
  {
    if |refs| == 0 then Success(Sorted([], None))
    else
      match target(refs[0])
      case Failure(e) => Failure(e)
      case Success(t) =>
        match SortBy(refs[1..], target)
        case Failure(e) => Failure(e)
        case Success(c) =>
          SortStep(refs, target);
          if t.Some? then
            Success(Sorted(c.rest, if c.chosen.Some? then c.chosen else Some((t.value, refs[0]))))
          else
            Success(Sorted([refs[0]] + c.rest, c.chosen))
  }

  /** The facts `SortBy` combines at each reference. */
  lemma SortStep<R, N>(refs: seq<R>, target: R -> Result<Option<N>>)
    requires |refs| > 0
    ensures Filter(refs, Untargeted(target)) == (if target(refs[0]) == Success(None) then [refs[0]] else []) + Filter(refs[1..], Untargeted(target))
    ensures forall i :: 1 <= i < |refs| ==> refs[i] == refs[1..][i - 1]
  {
  }

  /** The chosen reference is the last one the test accepts, and the
      result is what the test found there. */
  lemma {:induction false} SortByChoosesLast<R, N>(refs: seq<R>, target: R -> Result<Option<N>>)
    requires SortBy(refs, target).Success? && SortBy(refs, target).value.chosen.Some?
    ensures exists k :: 0 <= k < |refs| && target(refs[k]).Success? && target(refs[k]).value.Some?
                        && SortBy(refs, target).value.chosen.value == (target(refs[k]).value.value, refs[k])
                        && forall j :: k < j < |refs| ==> target(refs[j]) == Success(None)
    decreases |refs|
  {
    var c := SortBy(refs[1..], target).value;
    SortStep(refs, target);
    if c.chosen.Some? {
      SortByChoosesLast(refs[1..], target);
      var k :| 0 <= k < |refs[1..]| && target(refs[1..][k]).Success? && target(refs[1..][k]).value.Some?
               && c.chosen.value == (target(refs[1..][k]).value.value, refs[1..][k])
               && forall j :: k < j < |refs[1..]| ==> target(refs[1..][j]) == Success(None);
      assert refs[k + 1] == refs[1..][k];
    }
  }

  function Target(d: Document): Reference -> Result<Option<Node>> {
    (r: Reference) => PropertiesTarget(d, r)
  }

  /** The reference loop on a signature document: the references that are
      not the signed-properties reference, and the last one that is, with
      the `SignedProperties` element it names. */
  function Classify(d: Document, refs: seq<Reference>): (r: Result<Sorted<Reference, Node>>)
    ensures r.Success? <==> forall i :: 0 <= i < |refs| ==> PropertiesTarget(d, refs[i]).Success?
    ensures r.Success? ==> r.value.rest == Filter(refs, Untargeted(Target(d)))
    ensures r.Success? ==> (r.value.chosen.None? <==> forall i :: 0 <= i < |refs| ==> !IsPropertiesRef(d, refs[i]))
    ensures r.Success? && r.value.chosen.Some? ==>
              IsPropertiesRef(d, r.value.chosen.value.1) && r.value.chosen.value.0.Element?
  {
    var r := SortBy(refs, Target(d));
    if r.Success? && r.value.chosen.Some? then
      SortByChoosesLast(refs, Target(d));
      r
    else r
  }

  // ---------------------------------------------------------------------
  // Reading a signature document

  /** Every file reads its format and commitment type from the signed
      properties, in order; the first malformed query ends the loop. */
  function ParseFiles(files: seq<XadesFile>, element: Node): (r: Result<seq<XadesFile>>)
    requires element.Element?
    ensures r.Success? <==> forall i :: 0 <= i < |files| ==> QuotableId(files[i].id)
    ensures r.Success? ==> |r.value| == |files|
    ensures r.Success? ==> forall i :: 0 <= i < |files| ==> ParseProperties(files[i], element) == Success(r.value[i])
    decreases |files|
  {
    if |files| == 0 then Success([])
    else
      match ParseProperties(files[0], element)
      case Failure(e) => Failure(e)
      case Success(f) =>
        match ParseFiles(files[1..], element)
        case Failure(e) => Failure(e)
        case Success(rest) =>
          ShiftIndex(files);
          Success([f] + rest)
  }

  lemma ShiftIndex<T>(s: seq<T>)
    requires |s| > 0
    ensures forall i :: 1 <= i < |s| ==> s[i] == s[1..][i - 1]
  {
  }

  /** `SignedXml.XmlDsigC14NWithCommentsTransformUrl`. */
  const C14NWithCommentsUrl: string := "http://www.w3.org/TR/2001/REC-xml-c14n-20010315#WithComments"
  /** `SignedXml.XmlDsigRSASHA256Url`. */
  const RsaSha256Url: string := "http://www.w3.org/2001/04/xmldsig-more#rsa-sha256"

  /** A public key offered by `KeyInfo`. */
  datatype Key = Key(algorithm: string, material: seq<byte>)

  /** A `KeyInfo` clause: certificates, a bare RSA or DSA key, or anything
      else. */
  datatype KeyClause =
    | X509Data(certificates: seq<XadesProperties.Certificate>)
    | RsaKeyValue(key: Key)
    | DsaKeyValue(key: Key)
    | OtherClause(name: string)

  /** What `SignedXml.LoadXml` reads from `SignedInfo`. */
  datatype SignedInfo = SignedInfo(canonicalizationMethod: string, signatureMethod: string, references: seq<Reference>)

  /** A loaded signature document: the document, its `SignedInfo` and its
      `KeyInfo` clauses. */
  datatype Loaded = Loaded(document: Document, info: SignedInfo, keyInfo: seq<KeyClause>)

  /** The state of a `XadesSignature` object. `loaded` is the `SignedXml`
      of a parsed signature; `properties` is null when a parsed document
      has no signed properties. */
  datatype Signature = Signature(
    canonicalizationMethod: string,
    signatureMethod: string,
    loaded: Option<Loaded>,
    files: seq<XadesFile>,
    properties: Option<XadesProperties.Properties>,
    signedProperties: Option<(Node, Reference)>,
    validSignedInfo: bool,
    validSignedProperties: bool)

  /** `new XadesSignature()`: empty properties, no files, C14N with
      comments and RSA-SHA256. */
  function NewSignature(): (s: Signature)
    ensures s.canonicalizationMethod == C14NWithCommentsUrl && s.signatureMethod == RsaSha256Url
    ensures s.loaded.None? && s.files == [] && s.signedProperties.None?
    ensures s.properties == Some(XadesProperties.NewProperties())
    ensures !s.validSignedInfo && !s.validSignedProperties
  {
    Signature(C14NWithCommentsUrl, RsaSha256Url, None, [], Some(XadesProperties.NewProperties()), None, false, false)
  }

  /** The second half of the parsing constructor: the signature policy,
      then every file's properties, from the `SignedProperties` element. */
  function ReadProperties(element: Node, files: seq<XadesFile>, parse: XadesProperties.ParseTime, registered: Registry)
    : (r: Result<(XadesProperties.Properties, seq<XadesFile>)>)
    requires element.Element?
    ensures r.Success? <==> XadesProperties.Parse(element, parse, registered).Success? && ParseFiles(files, element).Success?
    ensures r.Success? ==> r.value.0 == XadesProperties.Parse(element, parse, registered).value
    ensures r.Success? ==> r.value.1 == ParseFiles(files, element).value
  {
    match XadesProperties.Parse(element, parse, registered)
    case Failure(e) => Failure(e)
    case Success(props) =>
      match ParseFiles(files, element)
      case Failure(e) => Failure(e)
      case Success(parsed) => Success((props, parsed))
  }

  /** `new XadesSignature(stream)`, after the framework has loaded the
      document: the references sorted into files and the signed
      properties; then, only when the signed properties were found, the
      signature policy and every file's properties read from them. */
  function ParseSignature(d: Document, info: SignedInfo, keyInfo: seq<KeyClause>,
                          parse: XadesProperties.ParseTime, registered: Registry): (r: Result<Signature>)
    ensures Classify(d, info.references).Failure? ==> r.Failure?
    ensures r.Success? ==>
              && r.value.loaded == Some(Loaded(d, info, keyInfo))
              && r.value.canonicalizationMethod == info.canonicalizationMethod
              && r.value.signatureMethod == info.signatureMethod
              && r.value.signedProperties == Classify(d, info.references).value.chosen
              && !r.value.validSignedInfo && !r.value.validSignedProperties
    ensures Classify(d, info.references).Success? && Classify(d, info.references).value.chosen.None? ==>
              r.Success? && r.value.properties.None? && r.value.files == FilesOf(Classify(d, info.references).value.rest)
    ensures Classify(d, info.references).Success? && Classify(d, info.references).value.chosen.Some? ==>
              var c := Classify(d, info.references).value;
              var read := ReadProperties(c.chosen.value.0, FilesOf(c.rest), parse, registered);
              && (r.Success? <==> read.Success?)
              && (r.Success? ==> r.value.properties == Some(read.value.0) && r.value.files == read.value.1)
  {
    match Classify(d, info.references)
    case Failure(e) => Failure(e)
    case Success(c) =>
      var files := FilesOf(c.rest);
      var loaded := Some(Loaded(d, info, keyInfo));
      if c.chosen.None? then
        Success(Signature(info.canonicalizationMethod, info.signatureMethod, loaded, files, None, None, false, false))
      else
        match ReadProperties(c.chosen.value.0, files, parse, registered)
        case Failure(e) => Failure(e)
        case Success(read) =>
          Success(Signature(info.canonicalizationMethod, info.signatureMethod, loaded, read.1, Some(read.0), c.chosen, false, false))
  }

  // ---------------------------------------------------------------------
  // Keys

  /** The public key of a certificate (RSA, else DSA, else ECDSA), if it
      has one of those. */
  type KeyOf = XadesProperties.Certificate -> Option<Key>

  /** A key offered for verification, with its certificate when it came
      from one. */
  type Offered = (Key, Option<XadesProperties.Certificate>)

  /** The keys of a clause's certificates, in order; a certificate without
      a usable key is skipped. */
  function CertificateKeys(certs: seq<XadesProperties.Certificate>, keyOf: KeyOf): (r: seq<Offered>)
    ensures forall i :: 0 <= i < |r| ==> r[i].1.Some? && r[i].1.value in certs && keyOf(r[i].1.value) == Some(r[i].0)
    ensures forall c :: c in certs && keyOf(c).Some? ==> (keyOf(c).value, Some(c)) in r
    decreases |certs|
  {
    if |certs| == 0 then []
    else
      var rest := CertificateKeys(certs[1..], keyOf);
      assert forall c :: c in certs && c != certs[0] ==> c in certs[1..];
      match keyOf(certs[0])
      case None => rest
      case Some(k) => [(k, Some(certs[0]))] + rest
  }

  /** An `X509Data` clause without `X509Certificate` children: its
      certificate collection is null, and enumerating it raises a
      null-reference error. */
  predicate Faults(clause: KeyClause) {
    clause.X509Data? && |clause.certificates| == 0
  }

  /** The message of a null dereference. */
  const NullReference: string := "Object reference not set to an instance of an object."

  /** The keys `GetPublicKeys` yields, in order, and whether the
      enumeration faults after yielding them. */
  datatype KeyStream = KeyStream(keys: seq<Offered>, faults: bool)

  /** `o` comes from `clause`: a certificate of an `X509Data` clause with
      that certificate's key, or a bare RSA or DSA key. */
  predicate OffersKey(clause: KeyClause, o: Offered, keyOf: KeyOf) {
    match clause
    case X509Data(certs) => o.1.Some? && o.1.value in certs && keyOf(o.1.value) == Some(o.0)
    case RsaKeyValue(k) => o == (k, None)
    case DsaKeyValue(k) => o == (k, None)
    case OtherClause(_) => false
  }

  /** The keys one clause offers: its certificates' keys, or the bare RSA
      or DSA key without a certificate. */
  function ClauseKeys(clause: KeyClause, keyOf: KeyOf): (r: KeyStream)
    ensures r.faults <==> Faults(clause)
    ensures forall o :: o in r.keys <==> OffersKey(clause, o, keyOf)
  {
    match clause
    case X509Data(certs) => KeyStream(CertificateKeys(certs, keyOf), |certs| == 0)
    case RsaKeyValue(k) => KeyStream([(k, None)], false)
    case DsaKeyValue(k) => KeyStream([(k, None)], false)
    case OtherClause(_) => KeyStream([], false)
  }

  /** The number of clauses enumerated before the first that faults. */
  function Reached(clauses: seq<KeyClause>): (n: nat)
    ensures n <= |clauses|
    ensures forall j :: 0 <= j < n ==> !Faults(clauses[j])
    ensures n < |clauses| ==> Faults(clauses[n])
  {
    if |clauses| == 0 || Faults(clauses[0]) then 0 else 1 + Reached(clauses[1..])
  }

  /** `GetPublicKeys`: the keys of every clause, clause by clause, up to
      the first `X509Data` without certificates, where the enumeration
      faults. A key is yielded exactly when a clause before that one
      offers it, and the first clause's keys come first. */
  function PublicKeys(clauses: seq<KeyClause>, keyOf: KeyOf): (r: KeyStream)
    ensures r.faults <==> exists j :: 0 <= j < |clauses| && Faults(clauses[j])
    ensures forall o :: o in r.keys <==> exists j :: 0 <= j < Reached(clauses) && OffersKey(clauses[j], o, keyOf)
    ensures |clauses| > 0 && !Faults(clauses[0]) ==> ClauseKeys(clauses[0], keyOf).keys <= r.keys
    decreases |clauses|
  {
    if |clauses| == 0 then KeyStream([], false)
    else
      var head := ClauseKeys(clauses[0], keyOf);
      if head.faults then KeyStream([], true)
      else
        var rest := PublicKeys(clauses[1..], keyOf);
        var r := KeyStream(head.keys + rest.keys, rest.faults);
        PublicKeysStep(clauses, keyOf, rest);
        r
  }

  /** The clauses after the first shift by one. */
  lemma PublicKeysStep(clauses: seq<KeyClause>, keyOf: KeyOf, rest: KeyStream)
    requires |clauses| > 0 && !Faults(clauses[0])
    requires rest.faults <==> exists j :: 0 <= j < |clauses[1..]| && Faults(clauses[1..][j])
    requires forall o :: o in rest.keys <==> exists j :: 0 <= j < Reached(clauses[1..]) && OffersKey(clauses[1..][j], o, keyOf)
    ensures rest.faults <==> exists j :: 0 <= j < |clauses| && Faults(clauses[j])
    ensures forall o :: o in ClauseKeys(clauses[0], keyOf).keys + rest.keys <==>
              exists j :: 0 <= j < Reached(clauses) && OffersKey(clauses[j], o, keyOf)
  {
    var tail := clauses[1..];
    assert Reached(clauses) == 1 + Reached(tail);
    if exists j :: 0 <= j < |clauses| && Faults(clauses[j]) {
      var j :| 0 <= j < |clauses| && Faults(clauses[j]);
      assert tail[j - 1] == clauses[j];
    }
    forall o
      ensures o in ClauseKeys(clauses[0], keyOf).keys + rest.keys <==>
              exists j :: 0 <= j < Reached(clauses) && OffersKey(clauses[j], o, keyOf)
    {
      if exists j :: 0 <= j < Reached(tail) && OffersKey(tail[j], o, keyOf) {
        var j :| 0 <= j < Reached(tail) && OffersKey(tail[j], o, keyOf);
        assert OffersKey(clauses[j + 1], o, keyOf);
      }
      if exists j :: 0 <= j < Reached(clauses) && OffersKey(clauses[j], o, keyOf) {
        var j :| 0 <= j < Reached(clauses) && OffersKey(clauses[j], o, keyOf);
        if j > 0 {
          assert OffersKey(tail[j - 1], o, keyOf);
        }
      }
    }
  }

  /** The keys of a longer `KeyInfo` are those of its parts, in order; a
      fault in the first part ends the enumeration there. */
  lemma {:induction false} PublicKeysAppend(a: seq<KeyClause>, b: seq<KeyClause>, keyOf: KeyOf)
    ensures PublicKeys(a, keyOf).faults ==> PublicKeys(a + b, keyOf) == PublicKeys(a, keyOf)
    ensures !PublicKeys(a, keyOf).faults ==>
              PublicKeys(a + b, keyOf) == KeyStream(PublicKeys(a, keyOf).keys + PublicKeys(b, keyOf).keys, PublicKeys(b, keyOf).faults)
    decreases |a|
  {
    if |a| == 0 {
      assert a + b == b;
    } else if Faults(a[0]) {
      PublicKeysHead(a, keyOf);
      PublicKeysHead(a + b, keyOf);
    } else {
      var h := ClauseKeys(a[0], keyOf).keys;
      PublicKeysAppend(a[1..], b, keyOf);
      PublicKeysHead(a, keyOf);
      PublicKeysHead(a + b, keyOf);
      assert (a + b)[0] == a[0] && (a + b)[1..] == a[1..] + b;
      ConcatAssoc(h, PublicKeys(a[1..], keyOf).keys, PublicKeys(b, keyOf).keys);
    }
  }

  /** One clause of the enumeration. */
  lemma PublicKeysHead(clauses: seq<KeyClause>, keyOf: KeyOf)
    requires |clauses| > 0
    ensures Faults(clauses[0]) ==> PublicKeys(clauses, keyOf) == KeyStream([], true)
    ensures !Faults(clauses[0]) ==>
              PublicKeys(clauses, keyOf)
              == KeyStream(ClauseKeys(clauses[0], keyOf).keys + PublicKeys(clauses[1..], keyOf).keys, PublicKeys(clauses[1..], keyOf).faults)
  {
  }

  // ---------------------------------------------------------------------
  // Checking

  /** `XadesUtils.CalculateHash` over the re-loaded `SignedProperties`
      element, with the reference's chain and digest method. */
  type PropertiesHash = (Node, Option<seq<Transform>>, string) -> Result<seq<byte>>

  /** The file loop of `CheckSignature`: every file is checked (no short
      cut once one fails) and keeps its validity. */
  method CheckFiles(files: seq<XadesFile>, fetch: Fetch, hash: Hash) returns (checked: seq<XadesFile>, valid: bool)
    ensures |checked| == |files|
    ensures forall i :: 0 <= i < |files| ==> checked[i] == CheckDigest(files[i], fetch, hash).0
    ensures valid <==> forall i :: 0 <= i < |files| ==> CheckDigest(files[i], fetch, hash).1
  {
    checked := [];
    valid := true;
    for i := 0 to |files|
      invariant |checked| == i
      invariant forall k :: 0 <= k < i ==> checked[k] == CheckDigest(files[k], fetch, hash).0
      invariant valid <==> forall k :: 0 <= k < i ==> CheckDigest(files[k], fetch, hash).1
    {
      var (f, ok) := CheckDigest(files[i], fetch, hash);
      checked := checked + [f];
      valid := ok && valid;
    }
  }

  /** The offered key verifies `SignedInfo`. */
  function VerifiesWith(verifies: Key -> bool): Offered -> bool {
    (o: Offered) => verifies(o.0)
  }

  /** The key loop of `CheckSignature`: whether some offered key verifies
      `SignedInfo`, and the certificate of the first that does. The keys
      are enumerated lazily, so the enumeration's fault is raised only
      when no key before it verifies. */
  function SignedInfoCheck(keys: KeyStream, verifies: Key -> bool): (r: Result<(bool, Option<XadesProperties.Certificate>)>)
    ensures r.Failure? <==> keys.faults && forall i :: 0 <= i < |keys.keys| ==> !verifies(keys.keys[i].0)
    ensures r.Failure? ==> r.error == NullReference
    ensures r.Success? ==> (r.value.0 <==> exists i :: 0 <= i < |keys.keys| && verifies(keys.keys[i].0))
    ensures r.Success? && r.value.1.Some? ==> r.value.0
    ensures r.Success? && r.value.0 ==>
              exists i :: 0 <= i < |keys.keys| && verifies(keys.keys[i].0) && r.value.1 == keys.keys[i].1
                          && forall j :: 0 <= j < i ==> !verifies(keys.keys[j].0)
  {
    match FirstWhere(keys.keys, VerifiesWith(verifies))
    case Some(o) => Success((true, o.1))
    case None => if keys.faults then Failure(NullReference) else Success((false, None))
  }

  /** The signed-properties check: none found is not valid; otherwise the
      digest of the element must equal the reference's. */
  function PropertiesCheck(sp: Option<(Node, Reference)>, propertiesHash: PropertiesHash): (r: Result<bool>)
    ensures sp.None? ==> r == Success(false)
    ensures sp.Some? ==> (r.Failure? <==> propertiesHash(sp.value.0, sp.value.1.chain, sp.value.1.digestMethod).Failure?)
    ensures sp.Some? && r.Success? ==>
              (r.value <==> propertiesHash(sp.value.0, sp.value.1.chain, sp.value.1.digestMethod) == Success(sp.value.1.digestValue))
  {
    match sp
    case None => Success(false)
    case Some((e, ref)) =>
      match propertiesHash(e, ref.chain, ref.digestMethod)
      case Failure(msg) => Failure(msg)
      case Success(digest) => Success(digest == ref.digestValue)
  }

  /** `CheckSignature(out certificate, resolver)`. A signature that was not
      parsed from a document is not valid and is left alone. Otherwise the
      `SignedInfo` flag is cleared and the key loop sets it and the
      certificate; a fault of the key enumeration ends the check there.
      Then every file is checked, and the signed-properties flag is set
      unless hashing them fails, which ends the check after the other
      flags are set. */
  method CheckSignature(s: Signature, verifies: Key -> bool, keyOf: KeyOf, fetch: Fetch, hash: Hash,
                        propertiesHash: PropertiesHash)
    returns (r: Signature, valid: Result<bool>, certificate: Option<XadesProperties.Certificate>)
    ensures s.loaded.None? ==> r == s && valid == Success(false) && certificate.None?
    ensures s.loaded.Some? && SignedInfoCheck(PublicKeys(s.loaded.value.keyInfo, keyOf), verifies).Failure? ==>
              r == s.(validSignedInfo := false) && valid == Failure(NullReference) && certificate.None?
    ensures s.loaded.Some? && SignedInfoCheck(PublicKeys(s.loaded.value.keyInfo, keyOf), verifies).Success? ==>
              (r.validSignedInfo, certificate) == SignedInfoCheck(PublicKeys(s.loaded.value.keyInfo, keyOf), verifies).value
    ensures s.loaded.Some? && SignedInfoCheck(PublicKeys(s.loaded.value.keyInfo, keyOf), verifies).Success? ==>
              && |r.files| == |s.files|
              && (forall i :: 0 <= i < |s.files| ==> r.files[i] == CheckDigest(s.files[i], fetch, hash).0)
              && r == s.(files := r.files, validSignedInfo := r.validSignedInfo, validSignedProperties := r.validSignedProperties)
    ensures s.loaded.Some? && SignedInfoCheck(PublicKeys(s.loaded.value.keyInfo, keyOf), verifies).Success? ==>
              var p := PropertiesCheck(s.signedProperties, propertiesHash);
              && (valid.Failure? <==> p.Failure?)
              && r.validSignedProperties == (if p.Success? then p.value else s.validSignedProperties)
    ensures s.loaded.Some? && valid.Success? ==>
              (valid.value <==> r.validSignedInfo && r.validSignedProperties && forall i :: 0 <= i < |r.files| ==> r.files[i].isValid)
  {
    if s.loaded.None? {
      return s, Success(false), None;
    }
    var keyCheck := SignedInfoCheck(PublicKeys(s.loaded.value.keyInfo, keyOf), verifies);
    if keyCheck.Failure? {
      return s.(validSignedInfo := false), Failure(keyCheck.error), None;
    }
    var (validSignedInfo, cert) := keyCheck.value;
    certificate := cert;
    var checked, validReferences := CheckFiles(s.files, fetch, hash);
    r := s.(files := checked, validSignedInfo := validSignedInfo);
    match PropertiesCheck(s.signedProperties, propertiesHash)
    case Failure(msg) =>
      valid := Failure(msg);
    case Success(validSignedProperties) =>
      r := r.(validSignedProperties := validSignedProperties);
      valid := Success(validSignedInfo && validReferences && validSignedProperties);
  }

  // ---------------------------------------------------------------------
  // Creating a signature

  /** The reference to the signed properties: canonicalized with comments,
      SHA-256, with the XAdES type. */
  const SignedPropertiesReference: Reference :=
    Reference("#" + SignedPropertiesId, Some([OtherTransform(C14NWithCommentsUrl, [])]), Sha256Url, None, Some(XadesReferenceType), [])

  /** `SignedProperties Id="signed-properties"` holding the signature
      properties and the data object properties. */
  function SignedPropertiesXml(ssp: Node, dop: Node): (n: Node)
    ensures n.Element? && n.children == [ssp, dop]
  {
    AppendChild(AppendChild(SetAttribute(NewElement(XadesNs, "SignedProperties"), "Id", SignedPropertiesId), ssp), dop)
  }

  /** The created element is the one `//xades:SignedProperties[@Id='signed-properties']`
      looks for. */
  lemma SignedPropertiesMatch(ssp: Node, dop: Node)
    ensures Matches(SignedPropertiesXml(ssp, dop), SignedPropertiesStep(SignedPropertiesId))
  {
    var e := SetAttribute(NewElement(XadesNs, "SignedProperties"), "Id", SignedPropertiesId);
    assert e.attrs == [Attribute("", "Id", SignedPropertiesId)];
  }

  /** `CreateXadesQualifyingProperties`: `QualifyingProperties
      Target="#signature-root"` around the signed properties. */
  function QualifyingPropertiesXml(signedProperties: Node): (n: Node)
    ensures n.Element? && n.ns == XadesNs && n.local == "QualifyingProperties" && n.children == [signedProperties]
    ensures GetAttribute(n, "Target") == "#" + SignatureRootId
  {
    AppendChild(SetAttribute(NewElement(XadesNs, "QualifyingProperties"), "Target", "#" + SignatureRootId), signedProperties)
  }

  /** The document `CreateSignature` builds: the `ds:Object` holding the
      qualifying properties. */
  function ObjectDocument(qualifyingProperties: Node): (d: Document)
    ensures |d.children| == 1 && d.children[0] == Element(DsigNs, "Object", [], [qualifyingProperties])
  {
    Document([Element(DsigNs, "Object", [], [qualifyingProperties])])
  }

  /** The files after `CreateSignature`: each keeps the reference made for it. */
  function SignedFiles(files: seq<XadesFile>): (r: seq<XadesFile>)
    ensures |r| == |files| && forall i :: 0 <= i < |files| ==> r[i] == GetReference(files[i]).0
  {
    seq(|files|, i requires 0 <= i < |files| => GetReference(files[i]).0)
  }

  /** The references of the files, in file order. */
  function FileReferences(files: seq<XadesFile>): (r: seq<Reference>)
    ensures |r| == |files| && forall i :: 0 <= i < |files| ==> r[i] == GetReference(files[i]).1
  {
    seq(|files|, i requires 0 <= i < |files| => GetReference(files[i]).1)
  }

  /** What `CreateSignature` produces before the signature value is
      computed: the updated object, the `SignedInfo` it signs, the
      `KeyInfo` naming the certificate, and the object document. */
  datatype Created = Created(signature: Signature, info: SignedInfo, keyInfo: seq<KeyClause>,
                             document: Document, signedProperties: Node)

  /** The assembly step of `CreateSignature`, once the files have their
      ids and the signature properties are built. */
  function Assemble(s: Signature, files: seq<XadesFile>, q: XadesProperties.Properties, ssp: Node,
                    cert: XadesProperties.Certificate): (c: Created)
    ensures |c.info.references| == |files| + 1
    ensures c.info.references[0] == SignedPropertiesReference && c.info.references[1..] == FileReferences(files)
    ensures c.signedProperties == SignedPropertiesXml(ssp, DataObjectProperties(files))
    ensures c.document == ObjectDocument(QualifyingPropertiesXml(c.signedProperties))
    ensures c.keyInfo == [X509Data([cert])]
    ensures c.signature == s.(files := SignedFiles(files), properties := Some(q))
  {
    var sp := SignedPropertiesXml(ssp, DataObjectProperties(files));
    var refs := [SignedPropertiesReference] + FileReferences(files);
    assert refs[1..] == FileReferences(files);
    Created(
      s.(files := SignedFiles(files), properties := Some(q)),
      SignedInfo(s.canonicalizationMethod, s.signatureMethod, refs),
      [X509Data([cert])],
      ObjectDocument(QualifyingPropertiesXml(sp)),
      sp)
  }

  /** `CreateSignature(certificate, resolver)`: ids for every file, the
      signature properties (which may need the policy document), the
      qualifying properties, the signed-properties reference and then one
      reference per file. A parsed signature without signed properties
      has no properties to write. */
  function CreateSignature(s: Signature, now: XadesProperties.Time, cert: XadesProperties.Certificate,
                           tools: XadesProperties.CertTools, format: XadesProperties.FormatTime,
                           fetch: Fetch, hash: Hash): (r: Result<Created>)
    ensures r.Success? ==> s.properties.Some? && r.value.signature.properties.Some?
  {
    match s.properties
    case None => Failure(NullReference)
    case Some(p) =>
      match XadesProperties.Create(p, now, cert, tools, format, fetch, hash)
      case Failure(e) => Failure(e)
      case Success((q, ssp)) => Success(Assemble(s, WithFileIds(s.files), q, ssp, cert))
  }

  /** The created object document is searched down to the signed
      properties. */
  lemma FindsCreatedProperties(sp: Node)
    requires Matches(sp, SignedPropertiesStep(SignedPropertiesId))
    ensures SelectDescendant(ObjectDocument(QualifyingPropertiesXml(sp)), SignedPropertiesStep(SignedPropertiesId)) == Some(sp)
  {
    var step := SignedPropertiesStep(SignedPropertiesId);
    var qp := QualifyingPropertiesXml(sp);
    var d := ObjectDocument(qp);
    assert FindDescendant([sp], step) == Some(sp);
    assert FindDescendant([qp], step) == Some(sp);
    assert FindDescendant(d.children, step) == Some(sp);
  }

  // ---------------------------------------------------------------------
  // Reading back a created signature

  /** When the test turns every reference down, they are all kept. */
  lemma {:induction false} SortByNone<R, N>(refs: seq<R>, target: R -> Result<Option<N>>)
    requires forall i :: 0 <= i < |refs| ==> target(refs[i]) == Success(None)
    ensures SortBy(refs, target) == Success(Sorted(refs, None))
    decreases |refs|
  {
    if |refs| > 0 {
      SortStep(refs, target);
      SortByNone(refs[1..], target);
      assert [refs[0]] + refs[1..] == refs;
    }
  }

  /** When the test accepts only the first reference, it is chosen and the
      rest are kept. */
  lemma SortByFirstOnly<R, N>(refs: seq<R>, target: R -> Result<Option<N>>, n: N)
    requires |refs| > 0 && target(refs[0]) == Success(Some(n))
    requires forall i :: 1 <= i < |refs| ==> target(refs[i]) == Success(None)
    ensures SortBy(refs, target) == Success(Sorted(refs[1..], Some((n, refs[0]))))
  {
    SortStep(refs, target);
    SortByNone(refs[1..], target);
  }

  /** The signed-properties reference names the created element. */
  lemma TargetsSignedProperties(d: Document, sp: Node)
    requires SelectDescendant(d, SignedPropertiesStep(SignedPropertiesId)) == Some(sp)
    ensures PropertiesTarget(d, SignedPropertiesReference) == Success(Some(sp))
  {
    var uri := SignedPropertiesReference.uri;
    assert uri[1..] == SignedPropertiesId;
    assert '\'' !in SignedPropertiesId;
  }

  /** Sorting the created references finds the signed properties first and
      keeps every file reference. */
  lemma ClassifyCreated(d: Document, files: seq<XadesFile>, sp: Node)
    requires SelectDescendant(d, SignedPropertiesStep(SignedPropertiesId)) == Some(sp)
    ensures Classify(d, [SignedPropertiesReference] + FileReferences(files))
            == Success(Sorted(FileReferences(files), Some((sp, SignedPropertiesReference))))
  {
    var refs := [SignedPropertiesReference] + FileReferences(files);
    TargetsSignedProperties(d, sp);
    assert refs[1..] == FileReferences(files);
    forall i | 1 <= i < |refs|
      ensures Target(d)(refs[i]) == Success(None)
    {
      assert refs[i] == GetReference(files[i - 1]).1;
    }
    SortByFirstOnly(refs, Target(d), sp);
  }

  /** A file as the parser reads it back from the reference and the
      properties written for it: the URI, id and chain it was signed with,
      the digest method of its reference, a defaulted description as the
      URI, and a missing commitment type as "". */
  function ReadBackFile(f: XadesFile): (g: XadesFile)
    ensures g.uri == f.uri && g.id == f.id && g.chain == f.chain
    ensures g.digestMethod == Some(f.digestMethod.GetOr(Sha256Url)) && g.reference == Some(GetReference(f).1)
    ensures g.description == WrittenDescription(f) && g.identifier == f.identifier
    ensures g.mimeType == f.mimeType && g.encoding == f.encoding
    ensures g.commitmentTypeId == Some(f.commitmentTypeId.GetOr("")) && !g.isValid
  {
    ReferenceRoundTrip(f);
    FromReference(GetReference(f).1).(
      description := WrittenDescription(f),
      identifier := f.identifier,
      mimeType := f.mimeType,
      encoding := f.encoding,
      commitmentTypeId := Some(f.commitmentTypeId.GetOr("")))
  }

  function ReadBackFiles(files: seq<XadesFile>): (r: seq<XadesFile>)
    ensures |r| == |files| && forall i :: 0 <= i < |files| ==> r[i] == ReadBackFile(files[i])
  {
    seq(|files|, i requires 0 <= i < |files| => ReadBackFile(files[i]))
  }

  /** `ParseFiles` gives the files each one's parse gives. */
  lemma {:induction false} ParseFilesAll(files: seq<XadesFile>, element: Node, expected: seq<XadesFile>)
    requires element.Element? && |expected| == |files|
    requires forall i :: 0 <= i < |files| ==> ParseProperties(files[i], element) == Success(expected[i])
    ensures ParseFiles(files, element) == Success(expected)
    decreases |files|
  {
    if |files| > 0 {
      ShiftIndex(files);
      ShiftIndex(expected);
      ParseFilesAll(files[1..], element, expected[1..]);
      assert [expected[0]] + expected[1..] == expected;
    }
  }

  /** One file reads its properties back from the signed properties it
      was written into. */
  lemma ParseCreatedFile(files: seq<XadesFile>, i: nat, ssp: Node, sp: Node)
    requires i < |files| && DistinctIds(files) && QuotableId(files[i].id)
    requires sp.Element? && sp.children == [ssp, DataObjectProperties(files)]
    requires !Matches(ssp, PropertiesStep)
    ensures ParseProperties(FilesOf(FileReferences(files))[i], sp) == Success(ReadBackFile(files[i]))
  {
    XadesFiles.ParseAfterCreate(files, i, sp, ssp, FilesOf(FileReferences(files))[i]);
  }

  /** Every file reads its properties back from the signed properties they
      were written into. */
  lemma ParseCreatedFiles(files: seq<XadesFile>, ssp: Node, sp: Node)
    requires DistinctIds(files) && forall i :: 0 <= i < |files| ==> QuotableId(files[i].id)
    requires sp.Element? && sp.children == [ssp, DataObjectProperties(files)]
    requires !Matches(ssp, PropertiesStep)
    ensures ParseFiles(FilesOf(FileReferences(files)), sp) == Success(ReadBackFiles(files))
  {
    forall i | 0 <= i < |files|
      ensures ParseProperties(FilesOf(FileReferences(files))[i], sp) == Success(ReadBackFiles(files)[i])
    {
      ParseCreatedFile(files, i, ssp, sp);
    }
    ParseFilesAll(FilesOf(FileReferences(files)), sp, ReadBackFiles(files));
  }

  /** A generated id holds no apostrophe. */
  lemma RefIdQuotable(n: nat)
    ensures '\'' !in RefId(n)
  {
    var s := RefId(n);
    assert s == s[..11] + s[11..];
    assert '\'' !in s[..11];
    assert forall i :: 0 <= i < |s[11..]| ==> IsDigit(s[11..][i]);
  }

  /** Giving the files ids keeps every query over them well formed. */
  lemma WithFileIdsQuotable(files: seq<XadesFile>)
    requires forall i :: 0 <= i < |files| ==> QuotableId(files[i].id)
    ensures forall i :: 0 <= i < |files| ==> QuotableId(WithFileIds(files)[i].id)
  {
    var r := WithFileIds(files);
    WithFileIdsSpec(files);
    forall i | 0 <= i < |files|
      ensures QuotableId(r[i].id)
    {
      if r[i].id != files[i].id {
        RefIdQuotable(NextFree(Used(AssignIds(IdsOf(files), {}, 0)[..i]), 0));
      }
    }
  }

  /** The files with their ids can be told apart and queried. */
  lemma WithFileIdsUsable(files: seq<XadesFile>)
    requires forall i :: 0 <= i < |files| ==> QuotableId(files[i].id)
    ensures DistinctIds(WithFileIds(files))
    ensures forall i :: 0 <= i < |files| ==> QuotableId(WithFileIds(files)[i].id)
  {
    WithFileIdsSpec(files);
    WithFileIdsQuotable(files);
  }

  /** Parsing a document whose `SignedInfo` holds the created references
      and in which the signed properties are found gives the files read
      back and the properties the element parses to. */
  lemma ParseCreated(d: Document, info: SignedInfo, keyInfo: seq<KeyClause>, files: seq<XadesFile>,
                     ssp: Node, parse: XadesProperties.ParseTime, registered: Registry,
                     props: XadesProperties.Properties)
    requires info.references == [SignedPropertiesReference] + FileReferences(files)
    requires DistinctIds(files) && forall i :: 0 <= i < |files| ==> QuotableId(files[i].id)
    requires !Matches(ssp, PropertiesStep)
    requires var sp := SignedPropertiesXml(ssp, DataObjectProperties(files));
             && SelectDescendant(d, SignedPropertiesStep(SignedPropertiesId)) == Some(sp)
             && XadesProperties.Parse(sp, parse, registered) == Success(props)
    ensures ParseSignature(d, info, keyInfo, parse, registered)
            == Success(Signature(info.canonicalizationMethod, info.signatureMethod, Some(Loaded(d, info, keyInfo)),
                                 ReadBackFiles(files), Some(props),
                                 Some((SignedPropertiesXml(ssp, DataObjectProperties(files)), SignedPropertiesReference)),
                                 false, false))
  {
    var sp := SignedPropertiesXml(ssp, DataObjectProperties(files));
    ClassifyCreated(d, files, sp);
    ParseCreatedFiles(files, ssp, sp);
  }

  /** What a created signature reads back as. */
  function ReadBackSignature(s: Signature, c: Created, d: Document, parse: XadesProperties.ParseTime,
                             format: XadesProperties.FormatTime): Signature
    requires c.signature.properties.Some? && c.signature.properties.value.policyDigest.Some?
  {
    Signature(s.canonicalizationMethod, s.signatureMethod, Some(Loaded(d, c.info, c.keyInfo)),
              ReadBackFiles(WithFileIds(s.files)),
              Some(XadesProperties.ReadBack(c.signature.properties.value, parse, format)),
              Some((c.signedProperties, SignedPropertiesReference)), false, false)
  }

  /** The round trip of the signature: parsing a document that contains
      what `CreateSignature` wrote, with its `SignedInfo`, recovers every
      file (with the id it was given, its URI, chain and properties) in
      order, and the signature policy properties, and finds the signed
      properties through their reference. Ids and URIs must not hold an
      apostrophe, and the policy chain must be one that reads back. */
  lemma ParseAfterCreateSignature(s: Signature, now: XadesProperties.Time, cert: XadesProperties.Certificate,
                                  tools: XadesProperties.CertTools, format: XadesProperties.FormatTime,
                                  fetch: Fetch, hash: Hash, parse: XadesProperties.ParseTime, registered: Registry,
                                  d: Document, c: Created)
    requires CreateSignature(s, now, cert, tools, format, fetch, hash) == Success(c)
    requires forall i :: 0 <= i < |s.files| ==> QuotableId(s.files[i].id)
    requires s.properties.Some? && s.properties.value.policyChain.Some? ==>
               forall i :: 0 <= i < |s.properties.value.policyChain.value| ==> Writable(s.properties.value.policyChain.value[i], registered)
    requires SelectDescendant(d, SignedPropertiesStep(SignedPropertiesId)) == Some(c.signedProperties)
    ensures c.signature.properties.Some? && c.signature.properties.value.policyDigest.Some?
    ensures ParseSignature(d, c.info, c.keyInfo, parse, registered) == Success(ReadBackSignature(s, c, d, parse, format))
  {
    var ssp := CreatedParts(s, now, cert, tools, format, fetch, hash, parse, registered, c);
    var files := WithFileIds(s.files);
    var q := c.signature.properties.value;
    WithFileIdsUsable(s.files);
    assert c.info.references == [c.info.references[0]] + c.info.references[1..];
    ParseCreated(d, c.info, c.keyInfo, files, ssp, parse, registered, XadesProperties.ReadBack(q, parse, format));
  }

  /** How a created signature is made from the created signature
      properties `ssp`, and what those read back as. */
  lemma CreatedParts(s: Signature, now: XadesProperties.Time, cert: XadesProperties.Certificate,
                     tools: XadesProperties.CertTools, format: XadesProperties.FormatTime,
                     fetch: Fetch, hash: Hash, parse: XadesProperties.ParseTime, registered: Registry,
                     c: Created) returns (ssp: Node)
    requires CreateSignature(s, now, cert, tools, format, fetch, hash) == Success(c)
    requires s.properties.Some? && s.properties.value.policyChain.Some? ==>
               forall i :: 0 <= i < |s.properties.value.policyChain.value| ==> Writable(s.properties.value.policyChain.value[i], registered)
    ensures c.signature.properties.Some? && c.signature.properties.value.policyDigest.Some?
    ensures c == Assemble(s, WithFileIds(s.files), c.signature.properties.value, ssp, cert)
    ensures !Matches(ssp, PropertiesStep)
    ensures XadesProperties.Parse(c.signedProperties, parse, registered)
            == Success(XadesProperties.ReadBack(c.signature.properties.value, parse, format))
  {
    var p := s.properties.value;
    var q;
    q, ssp := XadesProperties.Create(p, now, cert, tools, format, fetch, hash).value.0,
              XadesProperties.Create(p, now, cert, tools, format, fetch, hash).value.1;
    assert c == Assemble(s, WithFileIds(s.files), q, ssp, cert);
    XadesProperties.CreateShape(p, now, cert, tools, format, fetch, hash);
    XadesProperties.ParseAfterCreate(p, now, cert, tools, format, fetch, hash, parse, registered, c.signedProperties);
  }

  /** The object document `CreateSignature` builds is such a document. */
  lemma ParseCreatedObject(s: Signature, now: XadesProperties.Time, cert: XadesProperties.Certificate,
                           tools: XadesProperties.CertTools, format: XadesProperties.FormatTime,
                           fetch: Fetch, hash: Hash, c: Created)
    requires CreateSignature(s, now, cert, tools, format, fetch, hash) == Success(c)
    ensures SelectDescendant(c.document, SignedPropertiesStep(SignedPropertiesId)) == Some(c.signedProperties)
  {
    var (q, ssp) := XadesProperties.Create(s.properties.value, now, cert, tools, format, fetch, hash).value;
    AssembledObject(s, WithFileIds(s.files), q, ssp, cert);
  }

  lemma AssembledObject(s: Signature, files: seq<XadesFile>, q: XadesProperties.Properties, ssp: Node,
                        cert: XadesProperties.Certificate)
    ensures var c := Assemble(s, files, q, ssp, cert);
            SelectDescendant(c.document, SignedPropertiesStep(SignedPropertiesId)) == Some(c.signedProperties)
  {
    SignedPropertiesMatch(ssp, DataObjectProperties(files));
    FindsCreatedProperties(Assemble(s, files, q, ssp, cert).signedProperties);
  }
}
