/** `MainWindow.UpdateViewState`: the switch between signing and checking
    mode, and in checking mode the verdicts shown for the signature, its
    policy and every file. Loading the single signature entry and running
    `CheckSignature` on it through the file-list resolver is an input here:
    the signature as checked with the overall outcome, or the failure
    either raised. */
module CheckViews {
  import opened Wrappers
  import opened Seqs
  import opened Lookups
  import opened FileEntries
  import opened FileLists
  import opened SignPolicies
  import XadesFiles
  import XadesProperties
  import XadesSignatures

  /** The window's check verdicts: `SignatureIsValid`, `SignPolicy` and
      `SignPolicyIsValid`. */
  datatype Verdict = Verdict(signatureIsValid: bool, signPolicy: Option<string>, signPolicyIsValid: Option<bool>)

  /** The window after an update: the mode, the file list and the
      verdicts. */
  datatype View = View(checking: bool, files: seq<FileEntry>, verdict: Verdict)

  /** What the catch block leaves: no verdicts and no file validity. */
  const Cleared: Verdict := Verdict(false, None, None)

  function HasId(id: Option<string>): SignPolicy -> bool {
    (p: SignPolicy) => p.id == id
  }

  /** The policy verdict: the configured policy with the signature's policy
      id must be unique (several make the lookup fail); without one the
      policy is not valid; with one, the signature's policy digest is
      checked against the document at the policy's URL. */
  function PolicyCheck(p: XadesProperties.Properties, policies: seq<SignPolicy>,
                       fetch: XadesFiles.Fetch, hash: XadesFiles.Hash): (r: Result<bool>)
    ensures (forall i :: 0 <= i < |policies| ==> policies[i].id != p.policyId) ==> r == Success(false)
    ensures (exists i, j :: 0 <= i < j < |policies| && policies[i].id == p.policyId && policies[j].id == p.policyId) ==>
              r.Failure?
    ensures forall k :: OnlyAt(policies, HasId(p.policyId), k) ==>
              r == XadesProperties.CheckDigest(p, Some(policies[k].url), fetch, hash)
  {
    match SingleIndex(policies, HasId(p.policyId))
    case Failure(e) => Failure(e)
    case Success(None) => Success(false)
    case Success(Some(k)) => XadesProperties.CheckDigest(p, Some(policies[k].url), fetch, hash)
  }

  /** The verdicts before the files are marked: the check outcome, and the
      policy when the signature has properties (the policy shown keeps its
      previous value when it has none). */
  function Verdicts(s: XadesSignatures.Signature, valid: bool, policies: seq<SignPolicy>,
                    fetch: XadesFiles.Fetch, hash: XadesFiles.Hash, prior: Verdict): (r: Result<Verdict>)
    ensures s.properties.None? ==> r == Success(Verdict(valid, prior.signPolicy, Some(false)))
    ensures s.properties.Some? ==>
              var policy := PolicyCheck(s.properties.value, policies, fetch, hash);
              && (r.Success? <==> policy.Success?)
              && (r.Success? ==> r.value == Verdict(valid, s.properties.value.policyId, Some(policy.value)))
  {
    match s.properties
    case None => Success(Verdict(valid, prior.signPolicy, Some(false)))
    case Some(p) =>
      match PolicyCheck(p, policies, fetch, hash)
      case Failure(e) => Failure(e)
      case Success(b) => Success(Verdict(valid, p.policyId, Some(b)))
  }

  /** Checking mode: a failure anywhere (loading or checking the signature,
      the policy lookup or digest, a shared name while marking) ends in the
      catch block, which clears every verdict on the list as it stands. */
  function CheckedView(files: seq<FileEntry>, checked: Result<(XadesSignatures.Signature, bool)>,
                       policies: seq<SignPolicy>, fetch: XadesFiles.Fetch, hash: XadesFiles.Hash,
                       prior: Verdict): (r: (seq<FileEntry>, Verdict))
    ensures |files| <= |r.0|
    ensures forall i :: 0 <= i < |files| ==> Retains(files[i], r.0[i])
  {
    match checked
    case Failure(_) => (ClearValidity(files), Cleared)
    case Success((s, valid)) =>
      match Verdicts(s, valid, policies, fetch, hash, prior)
      case Failure(_) => (ClearValidity(files), Cleared)
      case Success(verdict) =>
        var (marked, ok) := MarkSigned(files, s.files);
        MarkSignedRetains(files, s.files);
        if !ok then (ClearValidity(marked), Cleared)
        else (MarkUnreferenced(marked, s.files, s.validSignedInfo && s.validSignedProperties), verdict)
  }

  /** `UpdateViewState`: checking mode exactly when the list holds one
      signature; otherwise the placeholders are dropped and the verdicts
      stay as they were. */
  function UpdateViewState(files: seq<FileEntry>, checked: Result<(XadesSignatures.Signature, bool)>,
                           policies: seq<SignPolicy>, fetch: XadesFiles.Fetch, hash: XadesFiles.Hash,
                           prior: Verdict): (v: View)
    ensures v.checking <==> exists k :: 0 <= k < |files| && files[k].fileType == Signature
                                        && forall j :: 0 <= j < |files| && j != k ==> files[j].fileType != Signature
    ensures !v.checking ==> v.verdict == prior && forall i :: 0 <= i < |v.files| ==> v.files[i].uri.Some?
  {
    if InCheckingMode(files) then CheckingView(files, checked, policies, fetch, hash, prior)
    else SigningView(files, prior)
  }

  /** Checking mode: the list and the verdicts after the check. */
  function CheckingView(files: seq<FileEntry>, checked: Result<(XadesSignatures.Signature, bool)>,
                        policies: seq<SignPolicy>, fetch: XadesFiles.Fetch, hash: XadesFiles.Hash,
                        prior: Verdict): (v: View)
    ensures v.checking && |files| <= |v.files|
  {
    var (fs, verdict) := CheckedView(files, checked, policies, fetch, hash, prior);
    View(true, fs, verdict)
  }

  /** Signing mode: the entries without a location are dropped and the
      verdicts stay. */
  function SigningView(files: seq<FileEntry>, prior: Verdict): (v: View)
    ensures !v.checking && v.verdict == prior
    ensures forall i :: 0 <= i < |v.files| ==> v.files[i].uri.Some?
  {
    View(false, RemoveMissing(files), prior)
  }

  /** A failed load or check clears every verdict and leaves the list as
      it was apart from the validity. */
  lemma FailedCheckClears(files: seq<FileEntry>, e: string, policies: seq<SignPolicy>,
                          fetch: XadesFiles.Fetch, hash: XadesFiles.Hash, prior: Verdict)
    requires InCheckingMode(files)
    ensures var v := UpdateViewState(files, Failure(e), policies, fetch, hash, prior);
            && v.checking && v.verdict == Cleared && |v.files| == |files|
            && forall i :: 0 <= i < |files| ==> v.files[i] == files[i].(isValid := None)
  {
  }

  /** A policy lookup or digest that fails clears every verdict too. */
  lemma FailedPolicyClears(files: seq<FileEntry>, s: XadesSignatures.Signature, valid: bool, policies: seq<SignPolicy>,
                           fetch: XadesFiles.Fetch, hash: XadesFiles.Hash, prior: Verdict)
    requires InCheckingMode(files) && s.properties.Some?
    requires PolicyCheck(s.properties.value, policies, fetch, hash).Failure?
    ensures var v := UpdateViewState(files, Success((s, valid)), policies, fetch, hash, prior);
            && v.verdict == Cleared && |v.files| == |files|
            && forall i :: 0 <= i < |files| ==> v.files[i] == files[i].(isValid := None)
  {
  }

  /** After a successful check of a consistent list in checking mode: the
      verdicts come from the check and the policy, the list stays
      consistent, every signed file has an entry holding the values of its
      last occurrence, a signature entry the signature does not name shows
      whether its own parts are valid, and every other unnamed entry shows
      no validity. */
  lemma CheckedViewRecords(files: seq<FileEntry>, s: XadesSignatures.Signature, valid: bool, policies: seq<SignPolicy>,
                           fetch: XadesFiles.Fetch, hash: XadesFiles.Hash, prior: Verdict, verdict: Verdict)
    requires Consistent(files) && InCheckingMode(files)
    requires Verdicts(s, valid, policies, fetch, hash, prior) == Success(verdict)
    ensures var v := UpdateViewState(files, Success((s, valid)), policies, fetch, hash, prior);
            && v.checking && v.verdict == verdict && verdict.signatureIsValid == valid
            && ShowsCheck(v.files, s.files, s.validSignedInfo && s.validSignedProperties)
  {
    var selfValid := s.validSignedInfo && s.validSignedProperties;
    RecordCheck(files, s.files, selfValid);
    var v := UpdateViewState(files, Success((s, valid)), policies, fetch, hash, prior);
    assert v == View(true, MarkUnreferenced(MarkSigned(files, s.files).0, s.files, selfValid), verdict);
  }

  /** Updating the view keeps the list consistent in either mode. */
  lemma UpdateKeepsConsistent(files: seq<FileEntry>, checked: Result<(XadesSignatures.Signature, bool)>,
                              policies: seq<SignPolicy>, fetch: XadesFiles.Fetch, hash: XadesFiles.Hash, prior: Verdict)
    requires Consistent(files)
    ensures Consistent(UpdateViewState(files, checked, policies, fetch, hash, prior).files)
  {
    if !InCheckingMode(files) {
      RemoveMissingKeeps(files);
    } else {
      match checked
      case Failure(_) =>
        RetainsConsistent(files, ClearValidity(files));
      case Success((s, valid)) =>
        match Verdicts(s, valid, policies, fetch, hash, prior)
        case Failure(_) =>
          RetainsConsistent(files, ClearValidity(files));
        case Success(verdict) =>
          CheckedViewRecords(files, s, valid, policies, fetch, hash, prior, verdict);
    }
  }
}
