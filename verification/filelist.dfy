/** The main window's file list (`MainWindow.Files`): adding a file,
    deciding whether signing is possible and whether the window is in
    checking mode, dropping placeholders, resolving names to files, and
    recording the outcome of a signature check on the entries. */
module FileLists {
  import opened Wrappers
  import opened Seqs
  import opened Lookups
  import opened TransformSets
  import opened FileEntries
  import opened Bytes
  import XadesFiles
  import AppSettings

  // ---------------------------------------------------------------------
  // Invariant

  function DistinctNames(a: FileEntry, b: FileEntry): bool {
    a.name != b.name
  }

  function NotBothSignatures(a: FileEntry, b: FileEntry): bool {
    !(a.fileType == Signature && b.fileType == Signature)
  }

  /** What adding files keeps: no two entries share a name, and at most
      one entry is a signature. */
  predicate Consistent(files: seq<FileEntry>) {
    Pairwise(files, DistinctNames) && Pairwise(files, NotBothSignatures)
  }

  /** Appending `e` keeps a pairwise property when `e` is related to every
      entry already there. */
  lemma AppendPairwise(files: seq<FileEntry>, e: FileEntry, rel: (FileEntry, FileEntry) -> bool)
    requires Pairwise(files, rel)
    requires forall i :: 0 <= i < |files| ==> rel(files[i], e)
    ensures Pairwise(files + [e], rel)
  {
    var r := files + [e];
    forall i, j | 0 <= i < j < |r|
      ensures rel(r[i], r[j])
    {
      if j == |files| {
        assert r[j] == e && r[i] == files[i];
      } else {
        assert r[i] == files[i] && r[j] == files[j];
      }
    }
  }

  // ---------------------------------------------------------------------
  // Adding a file

  function SameName(name: string): FileEntry -> bool {
    (e: FileEntry) => e.name == name
  }

  function OtherName(name: string): FileEntry -> bool {
    (e: FileEntry) => e.name != name
  }

  function NotSignature(e: FileEntry): bool {
    e.fileType != Signature
  }

  function HasUri(e: FileEntry): bool {
    e.uri.Some?
  }

  /** The entries adding `fe` keeps: those with another name and, when
      `fe` is a signature, no signature. */
  function Survives(fe: FileEntry): FileEntry -> bool {
    (e: FileEntry) => e.name != fe.name && (fe.fileType == Signature ==> e.fileType != Signature)
  }

  /** The default transform set for a type: the first set that names the
      type as a default, else the first set, else none. */
  function DefaultSet(sets: seq<TransformSet>, t: FileType): (r: Option<TransformSet>)
    ensures r.None? <==> |sets| == 0
    ensures r.Some? ==> r.value in sets
    ensures (exists i :: 0 <= i < |sets| && IsDefaultFor(sets[i], TypeName(t))) ==>
              r.Some? && IsDefaultFor(r.value, TypeName(t))
    ensures (forall i :: 0 <= i < |sets| ==> !IsDefaultFor(sets[i], TypeName(t))) && |sets| > 0 ==>
              r == Some(sets[0])
  {
    match FirstWhere(sets, s => IsDefaultFor(s, TypeName(t)))
    case Some(s) => Some(s)
    case None => if |sets| == 0 then None else Some(sets[0])
  }

  /** `AddFile`: entries with the same name are removed, all signatures
      too when a signature is added, and the entry is appended with its
      default transform set. */
  function AddFile(files: seq<FileEntry>, fe: FileEntry, sets: seq<TransformSet>): (r: seq<FileEntry>)
    ensures |r| > 0 && r[|r| - 1] == fe.(transformSet := DefaultSet(sets, fe.fileType))
  {
    var renamed := Filter(files, OtherName(fe.name));
    var kept := if fe.fileType == Signature then Filter(renamed, NotSignature) else renamed;
    kept + [fe.(transformSet := DefaultSet(sets, fe.fileType))]
  }

  /** The two removal passes keep exactly the entries `Survives` accepts,
      in their original order. */
  lemma AddFileKeeps(files: seq<FileEntry>, fe: FileEntry, sets: seq<TransformSet>)
    ensures var r := AddFile(files, fe, sets);
            r[..|r| - 1] == Filter(files, Survives(fe))
    ensures IsSubsequence(Filter(files, Survives(fe)), files)
  {
    var r := AddFile(files, fe, sets);
    if fe.fileType == Signature {
      FilterFilter(files, OtherName(fe.name), NotSignature, Survives(fe));
    } else {
      FilterSame(files, OtherName(fe.name), Survives(fe));
    }
    assert r[..|r| - 1] == (if fe.fileType == Signature then Filter(Filter(files, OtherName(fe.name)), NotSignature)
                            else Filter(files, OtherName(fe.name)));
    FilterIsSubsequence(files, Survives(fe));
  }

  /** After adding, exactly one entry carries the new name: the last. */
  lemma AddFileNamesLast(files: seq<FileEntry>, fe: FileEntry, sets: seq<TransformSet>)
    ensures var r := AddFile(files, fe, sets);
            && r[|r| - 1].name == fe.name
            && forall i :: 0 <= i < |r| - 1 ==> r[i].name != fe.name
  {
    AddFileKeeps(files, fe, sets);
  }

  /** After adding a signature it is the only signature in the list. */
  lemma AddFileOnlySignature(files: seq<FileEntry>, fe: FileEntry, sets: seq<TransformSet>)
    requires fe.fileType == Signature
    ensures var r := AddFile(files, fe, sets);
            forall i :: 0 <= i < |r| ==> (r[i].fileType == Signature <==> i == |r| - 1)
  {
    AddFileKeeps(files, fe, sets);
  }

  /** Every entry the source keeps stays, and nothing else does. */
  lemma AddFileRemovesOnly(files: seq<FileEntry>, fe: FileEntry, sets: seq<TransformSet>, e: FileEntry)
    requires e in files
    ensures var r := AddFile(files, fe, sets);
            e in r[..|r| - 1] <==> Survives(fe)(e)
  {
    AddFileKeeps(files, fe, sets);
  }

  /** Adding keeps names unique and at most one signature. */
  lemma AddFileConsistent(files: seq<FileEntry>, fe: FileEntry, sets: seq<TransformSet>)
    requires Consistent(files)
    ensures Consistent(AddFile(files, fe, sets))
  {
    AddFileKeeps(files, fe, sets);
    var kept := Filter(files, Survives(fe));
    var e := fe.(transformSet := DefaultSet(sets, fe.fileType));
    FilterPairwise(files, Survives(fe), DistinctNames);
    FilterPairwise(files, Survives(fe), NotBothSignatures);
    assert forall i :: 0 <= i < |kept| ==> DistinctNames(kept[i], e) && NotBothSignatures(kept[i], e);
    AppendPairwise(kept, e, DistinctNames);
    AppendPairwise(kept, e, NotBothSignatures);
    var r := AddFile(files, fe, sets);
    assert r == kept + [e];
  }

  /** With the loaded settings every added file gets a transform set: the
      type's default, or the "None" set that always comes first. */
  lemma AddFileWithSettings(files: seq<FileEntry>, fe: FileEntry, st: AppSettings.Settings,
                            d: Xml.Document, registered: Registry, asWritten: bool)
    requires AppSettings.Load(d, registered, asWritten) == Success(st)
    ensures var r := AddFile(files, fe, st.transformSets);
            var chosen := r[|r| - 1].transformSet;
            && chosen.Some?
            && ((forall i :: 0 <= i < |st.transformSets| ==> !IsDefaultFor(st.transformSets[i], TypeName(fe.fileType)))
                ==> chosen == Some(NoneSet()))
  {
  }

  // ---------------------------------------------------------------------
  // Modes

  function BlocksSigning(e: FileEntry): bool {
    e.fileType == Signature || e.fileType == NotFound
  }

  function LacksCommitment(e: FileEntry): bool {
    e.commitmentType.None?
  }

  /** `SignEnable`: there are files, none is a signature or a missing
      file, and every file has a commitment type. */
  function SignEnable(files: seq<FileEntry>): (r: bool)
    ensures r <==> |files| > 0 && forall i :: 0 <= i < |files| ==>
                     files[i].fileType != Signature && files[i].fileType != NotFound && files[i].commitmentType.Some?
  {
    |files| > 0 && Count(files, BlocksSigning) == 0 && Count(files, LacksCommitment) == 0
  }

  function IsSignature(e: FileEntry): bool {
    e.fileType == Signature
  }

  /** The window checks a signature exactly when the list holds exactly
      one signature entry. */
  function InCheckingMode(files: seq<FileEntry>): (r: bool)
    ensures r <==> exists k :: 0 <= k < |files| && files[k].fileType == Signature
                              && forall j :: 0 <= j < |files| && j != k ==> files[j].fileType != Signature
  {
    SignatureCount(files);
    Count(files, IsSignature) == 1
  }

  lemma SignatureCount(files: seq<FileEntry>)
    ensures Count(files, IsSignature) == 1 <==>
              exists k :: 0 <= k < |files| && files[k].fileType == Signature
                          && forall j :: 0 <= j < |files| && j != k ==> files[j].fileType != Signature
  {
    if Count(files, IsSignature) == 1 {
      CountOneAt(files, IsSignature);
      var k :| OnlyAt(files, IsSignature, k);
      assert files[k].fileType == Signature;
    }
    if k :| 0 <= k < |files| && files[k].fileType == Signature
            && forall j :: 0 <= j < |files| && j != k ==> files[j].fileType != Signature {
      assert OnlyAt(files, IsSignature, k);
      OnlyAtCount(files, IsSignature, k);
    }
  }

  /** In a consistent list, checking mode is the same as holding a
      signature. */
  lemma CheckingModeIffSignature(files: seq<FileEntry>)
    requires Consistent(files)
    ensures InCheckingMode(files) <==> exists k :: 0 <= k < |files| && files[k].fileType == Signature
  {
    if k :| 0 <= k < |files| && files[k].fileType == Signature {
      forall j | 0 <= j < |files| && j != k
        ensures files[j].fileType != Signature
      {
        if j < k {
          assert NotBothSignatures(files[j], files[k]);
        } else {
          assert NotBothSignatures(files[k], files[j]);
        }
      }
    }
  }

  /** Checking mode and signing exclude each other. */
  lemma CheckingDisablesSigning(files: seq<FileEntry>)
    requires InCheckingMode(files)
    ensures !SignEnable(files)
  {
  }

  /** Outside checking mode the placeholders of missing files are dropped:
      what remains is exactly the entries with a URI, in order. */
  function RemoveMissing(files: seq<FileEntry>): (r: seq<FileEntry>)
    ensures forall i :: 0 <= i < |r| ==> r[i].uri.Some? && r[i] in files
    ensures forall i :: 0 <= i < |files| && files[i].uri.Some? ==> files[i] in r
  {
    Filter(files, HasUri)
  }

  /** Dropping placeholders keeps the list consistent and in order, and
      does nothing to a list without placeholders. */
  lemma RemoveMissingKeeps(files: seq<FileEntry>)
    ensures IsSubsequence(RemoveMissing(files), files)
    ensures Consistent(files) ==> Consistent(RemoveMissing(files))
    ensures (forall i :: 0 <= i < |files| ==> files[i].uri.Some?) ==> RemoveMissing(files) == files
  {
    FilterIsSubsequence(files, HasUri);
    if Consistent(files) {
      FilterPairwise(files, HasUri, DistinctNames);
      FilterPairwise(files, HasUri, NotBothSignatures);
    }
    if forall i :: 0 <= i < |files| ==> files[i].uri.Some? {
      FilterAll(files, HasUri);
    }
  }

  // ---------------------------------------------------------------------
  // Resolving names

  /** `ResolveUri(name)`: the URI of the only entry with that name; none
      when there is no such entry or it is a placeholder, and a failure
      when several entries share the name. */
  function ResolveUri(files: seq<FileEntry>, name: string): (r: Result<Option<Uri>>)
    ensures r.Failure? <==> exists i, j :: 0 <= i < j < |files| && files[i].name == name && files[j].name == name
    ensures r.Success? && r.value.Some? ==> exists i :: 0 <= i < |files| && files[i].name == name && files[i].uri == r.value
    ensures (forall i :: 0 <= i < |files| ==> files[i].name != name) ==> r == Success(None)
  {
    match SingleIndex(files, SameName(name))
    case Failure(e) => Failure(e)
    case Success(None) => Success(None)
    case Success(Some(k)) => Success(files[k].uri)
  }

  /** In a consistent list a name resolves to its entry's URI. */
  lemma ResolveUriFinds(files: seq<FileEntry>, k: nat)
    requires Consistent(files) && k < |files|
    ensures ResolveUri(files, files[k].name) == Success(files[k].uri)
  {
    forall j | 0 <= j < |files| && j != k
      ensures files[j].name != files[k].name
    {
      if j < k {
        assert DistinctNames(files[j], files[k]);
      } else {
        assert DistinctNames(files[k], files[j]);
      }
    }
  }

  /** The resolver the signature check reads files through: the content
      of the named entry's URI; a name without a file gives no stream. */
  function Resolver(files: seq<FileEntry>, open: Uri -> Result<seq<byte>>): XadesFiles.Fetch {
    name =>
      match ResolveUri(files, name)
      case Failure(e) => Failure(e)
      case Success(None) => Failure("Value cannot be null.")
      case Success(Some(u)) => open(u)
  }

  /** In a consistent list the resolver reads an entry's own URI, and a
      name with no entry cannot be read. */
  lemma ResolverOpens(files: seq<FileEntry>, open: Uri -> Result<seq<byte>>, name: string)
    requires Consistent(files)
    ensures (forall i :: 0 <= i < |files| ==> files[i].name != name) ==> Resolver(files, open)(name).Failure?
    ensures forall k :: 0 <= k < |files| && files[k].name == name && files[k].uri.Some? ==>
              Resolver(files, open)(name) == open(files[k].uri.value)
  {
    if forall i :: 0 <= i < |files| ==> files[i].name != name {
      assert ResolveUri(files, name) == Success(None);
    }
    forall k | 0 <= k < |files| && files[k].name == name && files[k].uri.Some?
      ensures Resolver(files, open)(name) == open(files[k].uri.value)
    {
      ResolveUriFinds(files, k);
    }
  }

  // ---------------------------------------------------------------------
  // Recording a check

  /** The entry for a signed file takes over the file's commitment type
      and validity. */
  function Marked(e: FileEntry, f: XadesFiles.XadesFile): FileEntry {
    e.(commitmentTypeId := f.commitmentTypeId, isValid := Some(f.isValid))
  }

  /** `b` is `a` with at most its commitment type id and validity changed. */
  predicate Retains(a: FileEntry, b: FileEntry) {
    b == a.(commitmentTypeId := b.commitmentTypeId, isValid := b.isValid)
  }

  /** One step of the loop over the signed files: the entry named after the
      file is marked, or a placeholder is added and marked; a name shared
      by several entries makes the lookup fail, and the flag is false. */
  function MarkOne(files: seq<FileEntry>, f: XadesFiles.XadesFile): (r: (seq<FileEntry>, bool))
    ensures !r.1 ==> r.0 == files
    ensures r.1 ==> |files| <= |r.0| <= |files| + 1
  {
    match SingleIndex(files, SameName(f.uri))
    case Failure(_) => (files, false)
    case Success(None) => (files + [Marked(MissingEntry(f.uri), f)], true)
    case Success(Some(k)) => (files[k := Marked(files[k], f)], true)
  }

  /** The loop over all signed files, stopping at the first failing
      lookup; the list is returned as far as it got. */
  function MarkSigned(files: seq<FileEntry>, signed: seq<XadesFiles.XadesFile>): (r: (seq<FileEntry>, bool))
    ensures |files| <= |r.0| <= |files| + |signed|
    decreases |signed|
  {
    if |signed| == 0 then (files, true)
    else
      var (next, ok) := MarkOne(files, signed[0]);
      if !ok then (next, false) else MarkSigned(next, signed[1..])
  }

  /** In a consistent list the lookup by name cannot fail. */
  lemma ConsistentSingle(files: seq<FileEntry>, name: string)
    requires Consistent(files)
    ensures SingleIndex(files, SameName(name)).Success?
  {
    forall i, j | 0 <= i < j < |files|
      ensures !(SameName(name)(files[i]) && SameName(name)(files[j]))
    {
      assert DistinctNames(files[i], files[j]);
    }
  }

  /** Shape of one step: existing entries keep everything but the two
      check fields, an added entry is a marked placeholder, only the
      entry with the file's name changes, and a consistent list stays
      consistent and never fails. */
  lemma MarkOneShape(files: seq<FileEntry>, f: XadesFiles.XadesFile)
    ensures var (r, ok) := MarkOne(files, f);
            && |files| <= |r| <= |files| + 1
            && (forall i :: 0 <= i < |files| ==> Retains(files[i], r[i]))
            && (forall i :: 0 <= i < |files| && files[i].name != f.uri ==> r[i] == files[i])
            && (forall i :: |files| <= i < |r| ==> r[i] == Marked(MissingEntry(f.uri), f))
            && (ok ==> forall i :: 0 <= i < |r| && r[i].name == f.uri ==> r[i] == Marked(if i < |files| then files[i] else MissingEntry(f.uri), f))
            && (ok ==> exists i :: 0 <= i < |r| && r[i].name == f.uri)
            && (Consistent(files) ==> ok && Consistent(r))
  {
    var (r, ok) := MarkOne(files, f);
    if Consistent(files) {
      ConsistentSingle(files, f.uri);
    }
    match SingleIndex(files, SameName(f.uri))
    case Failure(_) =>
    case Success(None) =>
      assert r == files + [Marked(MissingEntry(f.uri), f)];
      assert r[|files|].name == f.uri;
      if Consistent(files) {
        var e := Marked(MissingEntry(f.uri), f);
        AppendPairwise(files, e, DistinctNames);
        AppendPairwise(files, e, NotBothSignatures);
      }
    case Success(Some(k)) =>
      assert r[k].name == f.uri;
      if Consistent(files) {
        assert forall i, j :: 0 <= i < j < |r| ==> DistinctNames(r[i], r[j]) by {
          forall i, j | 0 <= i < j < |r| ensures DistinctNames(r[i], r[j]) {
            assert DistinctNames(files[i], files[j]);
          }
        }
        assert forall i, j :: 0 <= i < j < |r| ==> NotBothSignatures(r[i], r[j]) by {
          forall i, j | 0 <= i < j < |r| ensures NotBothSignatures(r[i], r[j]) {
            assert NotBothSignatures(files[i], files[j]);
          }
        }
      }
  }

  /** Changing only the check fields keeps a list consistent. */
  lemma RetainsConsistent(a: seq<FileEntry>, b: seq<FileEntry>)
    requires Consistent(a) && |a| == |b|
    requires forall i :: 0 <= i < |a| ==> Retains(a[i], b[i])
    ensures Consistent(b)
  {
    forall i, j | 0 <= i < j < |b|
      ensures DistinctNames(b[i], b[j]) && NotBothSignatures(b[i], b[j])
    {
      assert DistinctNames(a[i], a[j]) && NotBothSignatures(a[i], a[j]);
    }
  }

  /** The entries named after signed file `f` hold its commitment type
      id and validity. */
  predicate Recorded(files: seq<FileEntry>, f: XadesFiles.XadesFile) {
    forall i :: 0 <= i < |files| && files[i].name == f.uri ==>
      files[i].commitmentTypeId == f.commitmentTypeId && files[i].isValid == Some(f.isValid)
  }

  /** The loop only ever changes the check fields of existing entries. */
  lemma {:induction false} MarkSignedRetains(files: seq<FileEntry>, signed: seq<XadesFiles.XadesFile>)
    ensures var r := MarkSigned(files, signed).0;
            |files| <= |r| && forall i :: 0 <= i < |files| ==> Retains(files[i], r[i])
    decreases |signed|
  {
    if |signed| > 0 {
      MarkOneShape(files, signed[0]);
      var next := MarkOne(files, signed[0]).0;
      MarkSignedRetains(next, signed[1..]);
      var r := MarkSigned(files, signed).0;
      assert forall i :: 0 <= i < |files| ==> Retains(files[i], next[i]) && Retains(next[i], r[i]);
    }
  }

  /** Entries named by no signed file come out of the loop untouched. */
  lemma {:induction false} MarkSignedUntouched(files: seq<FileEntry>, signed: seq<XadesFiles.XadesFile>)
    ensures var r := MarkSigned(files, signed).0;
            && |files| <= |r|
            && forall i :: 0 <= i < |files| && (forall k :: 0 <= k < |signed| ==> signed[k].uri != files[i].name) ==> r[i] == files[i]
    decreases |signed|
  {
    if |signed| > 0 {
      var f := signed[0];
      MarkOneShape(files, f);
      var next := MarkOne(files, f).0;
      var tail := signed[1..];
      MarkSignedUntouched(next, tail);
      assert forall k :: 0 < k < |signed| ==> signed[k] == tail[k - 1];
    }
  }

  /** The entries the loop adds are placeholders named after signed
      files. */
  lemma {:induction false} MarkSignedAdded(files: seq<FileEntry>, signed: seq<XadesFiles.XadesFile>)
    ensures var r := MarkSigned(files, signed).0;
            forall i :: |files| <= i < |r| ==>
              (&& r[i].uri.None? && r[i].fileType == NotFound
               && exists k :: 0 <= k < |signed| && signed[k].uri == r[i].name)
    decreases |signed|
  {
    if |signed| > 0 {
      var f := signed[0];
      var (next, ok) := MarkOne(files, f);
      MarkOneShape(files, f);
      if ok {
        var tail := signed[1..];
        var r := MarkSigned(next, tail).0;
        MarkSignedAdded(next, tail);
        MarkSignedRetains(next, tail);
        forall i | |files| <= i < |r|
          ensures r[i].uri.None? && r[i].fileType == NotFound
          ensures exists k :: 0 <= k < |signed| && signed[k].uri == r[i].name
        {
          if i < |next| {
            assert Retains(next[i], r[i]);
            assert next[i] == Marked(MissingEntry(f.uri), f);
            assert signed[0].uri == r[i].name;
          } else {
            var k :| 0 <= k < |tail| && tail[k].uri == r[i].name;
            assert signed[k + 1] == tail[k];
          }
        }
      }
    }
  }

  /** From a consistent list the loop completes and the list stays
      consistent. */
  lemma {:induction false} MarkSignedConsistent(files: seq<FileEntry>, signed: seq<XadesFiles.XadesFile>)
    requires Consistent(files)
    ensures MarkSigned(files, signed).1 && Consistent(MarkSigned(files, signed).0)
    decreases |signed|
  {
    if |signed| > 0 {
      MarkOneShape(files, signed[0]);
      MarkSignedConsistent(MarkOne(files, signed[0]).0, signed[1..]);
    }
  }

  /** From a consistent list, every signed file has an entry afterwards. */
  lemma {:induction false} MarkSignedNames(files: seq<FileEntry>, signed: seq<XadesFiles.XadesFile>)
    requires Consistent(files)
    ensures var r := MarkSigned(files, signed).0;
            forall k :: 0 <= k < |signed| ==> exists i :: 0 <= i < |r| && r[i].name == signed[k].uri
    decreases |signed|
  {
    if |signed| > 0 {
      var f := signed[0];
      var next := MarkOne(files, f).0;
      var tail := signed[1..];
      MarkOneShape(files, f);
      MarkSignedNames(next, tail);
      MarkSignedRetains(next, tail);
      assert MarkOne(files, f).1;
      var r := MarkSigned(files, signed).0;
      assert r == MarkSigned(next, tail).0;
      forall k | 0 <= k < |signed|
        ensures exists i :: 0 <= i < |r| && r[i].name == signed[k].uri
      {
        if k == 0 {
          var i :| 0 <= i < |next| && next[i].name == f.uri;
          assert Retains(next[i], r[i]);
        } else {
          assert tail[k - 1] == signed[k];
        }
      }
      assert r == MarkSigned(files, signed).0;
    }
  }

  /** The first signed file, when no later one shares its name, leaves
      its values on its entry. */
  lemma MarkSignedRecordsFirst(files: seq<FileEntry>, signed: seq<XadesFiles.XadesFile>)
    requires Consistent(files)
    requires |signed| > 0 && forall l :: 0 < l < |signed| ==> signed[l].uri != signed[0].uri
    ensures Recorded(MarkSigned(files, signed).0, signed[0])
  {
    var f := signed[0];
    var next := MarkOne(files, f).0;
    var tail := signed[1..];
    MarkOneShape(files, f);
    var r := MarkSigned(files, signed).0;
    assert r == MarkSigned(next, tail).0;
    MarkSignedAdded(next, tail);
    MarkSignedUntouched(next, tail);
    MarkSignedRetains(next, tail);
    assert forall k' :: 0 <= k' < |tail| ==> tail[k'].uri != f.uri by {
      forall k' | 0 <= k' < |tail| ensures tail[k'].uri != f.uri {
        assert tail[k'] == signed[k' + 1];
      }
    }
    forall i | 0 <= i < |r| && r[i].name == f.uri
      ensures r[i].commitmentTypeId == f.commitmentTypeId && r[i].isValid == Some(f.isValid)
    {
      assert i < |next|;
      assert Retains(next[i], r[i]);
      assert next[i].name == f.uri;
      assert r[i] == next[i];
    }
  }

  /** From a consistent list, the entry of a signed file holds the values
      of the file's last occurrence among the signed files. */
  lemma {:induction false} MarkSignedRecords(files: seq<FileEntry>, signed: seq<XadesFiles.XadesFile>, k: nat)
    requires Consistent(files)
    requires k < |signed| && forall l :: k < l < |signed| ==> signed[l].uri != signed[k].uri
    ensures Recorded(MarkSigned(files, signed).0, signed[k])
    decreases |signed|
  {
    if k == 0 {
      MarkSignedRecordsFirst(files, signed);
    } else {
      var next := MarkOne(files, signed[0]).0;
      var tail := signed[1..];
      MarkOneShape(files, signed[0]);
      assert MarkSigned(files, signed).0 == MarkSigned(next, tail).0;
      assert tail[k - 1] == signed[k];
      forall l | k - 1 < l < |tail|
        ensures tail[l].uri != tail[k - 1].uri
      {
        assert tail[l] == signed[l + 1];
      }
      MarkSignedRecords(next, tail, k - 1);
    }
  }

  /** Some signed file has the uri `name`. */
  predicate Referenced(signed: seq<XadesFiles.XadesFile>, name: string) {
    exists k :: 0 <= k < |signed| && signed[k].uri == name
  }

  /** The loop after marking: an entry no signed file names gets, when it
      is a signature, whether the signature's own parts are valid, and
      otherwise no validity. */
  function MarkUnreferenced(files: seq<FileEntry>, signed: seq<XadesFiles.XadesFile>, selfValid: bool): (r: seq<FileEntry>)
    ensures |r| == |files|
    ensures forall i :: 0 <= i < |files| ==> Retains(files[i], r[i]) && r[i].commitmentTypeId == files[i].commitmentTypeId
    ensures forall i :: 0 <= i < |files| && Referenced(signed, files[i].name) ==> r[i] == files[i]
    ensures forall i :: 0 <= i < |files| && !Referenced(signed, files[i].name) ==>
              r[i].isValid == (if files[i].fileType == Signature then Some(selfValid) else None)
  {
    seq(|files|, i requires 0 <= i < |files| =>
      if Referenced(signed, files[i].name) then files[i]
      else files[i].(isValid := if files[i].fileType == Signature then Some(selfValid) else None))
  }

  /** `foreach (fe in Files) fe.IsValid = null` after a failed check. */
  function ClearValidity(files: seq<FileEntry>): (r: seq<FileEntry>)
    ensures |r| == |files|
    ensures forall i :: 0 <= i < |files| ==>
              (Retains(files[i], r[i]) && r[i].isValid.None? && r[i].commitmentTypeId == files[i].commitmentTypeId)
  {
    seq(|files|, i requires 0 <= i < |files| => files[i].(isValid := None))
  }

  /** The list shows a check of the files `signed` whose signature's own
      parts are `selfValid`: it is consistent, every signed file has an
      entry holding the values of its last occurrence, a signature entry no
      signed file names shows `selfValid`, and every other unnamed entry
      shows no validity. */
  predicate ShowsCheck(r: seq<FileEntry>, signed: seq<XadesFiles.XadesFile>, selfValid: bool) {
    && Consistent(r)
    && (forall k :: 0 <= k < |signed| ==> exists i :: 0 <= i < |r| && r[i].name == signed[k].uri)
    && (forall k :: 0 <= k < |signed| && (forall l :: k < l < |signed| ==> signed[l].uri != signed[k].uri) ==>
          Recorded(r, signed[k]))
    && (forall i :: 0 <= i < |r| && !Referenced(signed, r[i].name) ==>
          r[i].isValid == (if r[i].fileType == Signature then Some(selfValid) else None))
  }

  /** Marking a consistent list after a check: the loop completes, the list
      stays consistent, every signed file has an entry holding the values
      of its last occurrence, a signature entry no signed file names gets
      `selfValid`, and every other unnamed entry gets no validity. */
  lemma RecordCheck(files: seq<FileEntry>, signed: seq<XadesFiles.XadesFile>, selfValid: bool)
    requires Consistent(files)
    ensures MarkSigned(files, signed).1
    ensures ShowsCheck(MarkUnreferenced(MarkSigned(files, signed).0, signed, selfValid), signed, selfValid)
  {
    var marked := MarkSigned(files, signed).0;
    MarkSignedConsistent(files, signed);
    MarkSignedNames(files, signed);
    var r := MarkUnreferenced(marked, signed, selfValid);
    RetainsConsistent(marked, r);
    forall k | 0 <= k < |signed| && (forall l :: k < l < |signed| ==> signed[l].uri != signed[k].uri)
      ensures Recorded(r, signed[k])
    {
      MarkSignedRecords(files, signed, k);
      forall i | 0 <= i < |r| && r[i].name == signed[k].uri
        ensures r[i] == marked[i]
      {
        assert Retains(marked[i], r[i]);
      }
    }
    forall k | 0 <= k < |signed|
      ensures exists i :: 0 <= i < |r| && r[i].name == signed[k].uri
    {
      var i :| 0 <= i < |marked| && marked[i].name == signed[k].uri;
      assert Retains(marked[i], r[i]);
    }
    forall i | 0 <= i < |r| && !Referenced(signed, r[i].name)
      ensures r[i].isValid == (if r[i].fileType == Signature then Some(selfValid) else None)
    {
      assert Retains(marked[i], r[i]);
    }
  }
}
