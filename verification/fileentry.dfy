/** The entries of the application's file list (`SBRAssurance.Model.FileEntry`):
    the display name taken from the file's URI, the file type detected from
    the document element, and the per-file choices and check results. */
module FileEntries {
  import opened Wrappers
  import opened Strings
  import opened PercentEncoding
  import opened Xml
  import opened TransformSets
  import opened SignPolicies

  datatype FileType = Signature | XBRLInstance | XBRLLinkbase | XMLSchema | XML | Unknown | NotFound

  /** `FileType.ToString()`. */
  function TypeName(t: FileType): string {
    match t
    case Signature => "Signature"
    case XBRLInstance => "XBRLInstance"
    case XBRLLinkbase => "XBRLLinkbase"
    case XMLSchema => "XMLSchema"
    case XML => "XML"
    case Unknown => "Unknown"
    case NotFound => "NotFound"
  }

  const XsdNs: string := "http://www.w3.org/2001/XMLSchema"
  const LinkbaseNs: string := "http://www.xbrl.org/2003/linkbase"
  const InstanceNs: string := "http://www.xbrl.org/2003/instance"

  /** The document element (namespace, local name) that identifies a type,
      for the types recognised by their document element. */
  function RootNameOf(t: FileType): Option<(string, string)> {
    match t
    case Signature => Some((DsigNs, "Signature"))
    case XMLSchema => Some((XsdNs, "schema"))
    case XBRLLinkbase => Some((LinkbaseNs, "linkbase"))
    case XBRLInstance => Some((InstanceNs, "xbrl"))
    case _ => None
  }

  /** Type detection: `parsed` is the loaded document, `None` when the
      content is not well-formed XML (the load throws and the type stays
      Unknown). */
  function Classify(parsed: Option<Document>): (r: FileType)
    ensures r != NotFound
    ensures r == Unknown <==> parsed.None? || DocumentElement(parsed.value).None?
    ensures forall t :: RootNameOf(t).Some? ==>
              (r == t <==> parsed.Some? && DocumentElement(parsed.value).Some?
                           && (DocumentElement(parsed.value).value.ns, DocumentElement(parsed.value).value.local) == RootNameOf(t).value)
    ensures r == XML <==>
              && parsed.Some? && DocumentElement(parsed.value).Some?
              && forall t :: RootNameOf(t) != Some((DocumentElement(parsed.value).value.ns, DocumentElement(parsed.value).value.local))
  {
    match parsed
    case None => Unknown
    case Some(d) =>
      match DocumentElement(d)
      case None => Unknown
      case Some(root) =>
        if root.local == "Signature" && root.ns == DsigNs then
          assert RootNameOf(Signature) == Some((root.ns, root.local));
          Signature
        else if root.local == "schema" && root.ns == XsdNs then
          assert RootNameOf(XMLSchema) == Some((root.ns, root.local));
          XMLSchema
        else if root.local == "linkbase" && root.ns == LinkbaseNs then
          assert RootNameOf(XBRLLinkbase) == Some((root.ns, root.local));
          XBRLLinkbase
        else if root.local == "xbrl" && root.ns == InstanceNs then
          assert RootNameOf(XBRLInstance) == Some((root.ns, root.local));
          XBRLInstance
        else XML
  }

  /** A document whose element carries a type's identifying name is
      detected as that type. */
  lemma ClassifyRecognises(t: FileType, attrs: seq<Attribute>, children: seq<Node>)
    requires RootNameOf(t).Some?
    ensures Classify(Some(Document([Element(RootNameOf(t).value.0, RootNameOf(t).value.1, attrs, children)]))) == t
  {
    var root := Element(RootNameOf(t).value.0, RootNameOf(t).value.1, attrs, children);
    assert DocumentElement(Document([root])) == Some(root);
  }

  // ---------------------------------------------------------------------
  // Names

  /** An absolute URI as far as naming is concerned: its path and fragment
      (after `#`), both still escaped. An empty fragment counts as none. */
  datatype Uri = Uri(path: string, fragment: string)

  /** The characters `Path.GetFileName` splits on: the directory, alternate
      directory and volume separators. */
  const PathSeparators: set<char> := {'\\', '/', ':'}

  /** `Path.GetFileName`: the text after the last separator. */
  function FileName(p: string): (r: string)
    ensures forall i :: 0 <= i < |r| ==> r[i] !in PathSeparators
    ensures |r| <= |p| && p[|p| - |r|..] == r
    ensures |r| < |p| ==> p[|p| - |r| - 1] in PathSeparators
    decreases |p|
  {
    if |p| == 0 then ""
    else if p[|p| - 1] in PathSeparators then ""
    else FileName(p[..|p| - 1]) + [p[|p| - 1]]
  }

  /** The entry name: the unescaped fragment for an archive entry,
      otherwise the last segment of the unescaped path. */
  function NameOf(uri: Uri): (r: string)
    ensures uri.fragment != "" ==> r == Unescape(uri.fragment)
    ensures uri.fragment == "" ==> forall i :: 0 <= i < |r| ==> r[i] !in PathSeparators
    ensures uri.fragment == "" ==> var p := Unescape(uri.path);
              |r| <= |p| && p[|p| - |r|..] == r && (|r| < |p| ==> p[|p| - |r| - 1] in PathSeparators)
  {
    if uri.fragment != "" then Unescape(uri.fragment) else FileName(Unescape(uri.path))
  }

  /** An archive entry is added under the archive's URI with the entry's
      full name as fragment; its name is that full name. */
  lemma ArchiveEntryName(archivePath: string, entryName: string)
    requires entryName != ""
    ensures NameOf(Uri(archivePath, Escape(entryName))) == entryName
  {
    UnescapeEscape(entryName);
  }

  // ---------------------------------------------------------------------
  // Type display

  predicate IsUpper(c: char) {
    'A' <= c <= 'Z'
  }

  /** `\w`, restricted to ASCII: letters, digits and the underscore. */
  predicate IsWordChar(c: char) {
    ('A' <= c <= 'Z') || ('a' <= c <= 'z') || ('0' <= c <= '9') || c == '_'
  }

  /** `Regex.Replace(s, @"(\w)([A-Z][^A-Z])", "$1 $2")`: scanning from the
      left, a word character followed by a capital and a non-capital gets
      a space inserted after it; scanning resumes after the match. */
  function SpaceWords(s: string): (r: string)
    ensures |r| >= |s|
    decreases |s|
  {
    if |s| >= 3 && IsWordChar(s[0]) && IsUpper(s[1]) && !IsUpper(s[2]) then
      [s[0], ' ', s[1], s[2]] + SpaceWords(s[3..])
    else if |s| == 0 then ""
    else [s[0]] + SpaceWords(s[1..])
  }

  /** The replacement only inserts spaces: removing them gives back the
      input. */
  lemma {:induction false} SpaceWordsOnlyInsertsSpaces(s: string)
    requires ' ' !in s
    ensures RemoveAll(SpaceWords(s), {' '}) == s
    decreases |s|
  {
    if |s| >= 3 && IsWordChar(s[0]) && IsUpper(s[1]) && !IsUpper(s[2]) {
      SpaceWordsOnlyInsertsSpaces(s[3..]);
      RemoveAllConcat([s[0], ' ', s[1], s[2]], SpaceWords(s[3..]), {' '});
      RemoveAllNone([s[0]], {' '});
      RemoveAllNone([s[1], s[2]], {' '});
      RemoveAllConcat([s[0]], [' '] + [s[1], s[2]], {' '});
      RemoveAllConcat([' '], [s[1], s[2]], {' '});
      assert [s[0], ' ', s[1], s[2]] == [s[0]] + ([' '] + [s[1], s[2]]);
      assert s == [s[0], s[1], s[2]] + s[3..];
    } else if |s| > 0 {
      SpaceWordsOnlyInsertsSpaces(s[1..]);
      RemoveAllConcat([s[0]], SpaceWords(s[1..]), {' '});
      assert s == [s[0]] + s[1..];
    }
  }

  /** Text without capitals after its first character is left alone. */
  lemma {:induction false} SpaceWordsNoCapitals(s: string)
    requires forall i :: 1 <= i < |s| ==> !IsUpper(s[i])
    ensures SpaceWords(s) == s
    decreases |s|
  {
    if |s| > 0 {
      SpaceWordsNoCapitals(s[1..]);
    }
  }

  /** `TypeStr`. */
  function TypeStr(t: FileType): (r: string)
    ensures RemoveAll(r, {' '}) == TypeName(t)
  {
    assert ' ' !in TypeName(t);
    SpaceWordsOnlyInsertsSpaces(TypeName(t));
    SpaceWords(TypeName(t))
  }

  /** A match of the pattern starts at position `i`. */
  predicate MatchAt(s: string, i: nat) {
    i + 3 <= |s| && IsWordChar(s[i]) && IsUpper(s[i + 1]) && !IsUpper(s[i + 2])
  }

  /** A prefix in which no match starts is copied unchanged. */
  lemma {:induction false} SpaceWordsCopies(p: string, t: string)
    requires forall i :: 0 <= i < |p| ==> !MatchAt(p + t, i)
    ensures SpaceWords(p + t) == p + SpaceWords(t)
    decreases |p|
  {
    if |p| > 0 {
      var s := p + t;
      assert !MatchAt(s, 0);
      assert s[1..] == p[1..] + t;
      forall i | 0 <= i < |p[1..]|
        ensures !MatchAt(p[1..] + t, i)
      {
        assert !MatchAt(s, i + 1);
      }
      SpaceWordsCopies(p[1..], t);
      calc {
        SpaceWords(s);
        [s[0]] + SpaceWords(s[1..]);
        [p[0]] + (p[1..] + SpaceWords(t));
        ([p[0]] + p[1..]) + SpaceWords(t);
        { assert [p[0]] + p[1..] == p; }
        p + SpaceWords(t);
      }
    } else {
      assert p + t == t;
    }
  }

  /** A final word (a capital followed by no further capitals) after a
      word character is separated from it by exactly one space. */
  lemma SpaceWordsLastWord(s: string, k: nat)
    requires MatchAt(s, k)
    requires forall i :: k + 3 <= i < |s| ==> !IsUpper(s[i])
    ensures SpaceWords(s[k..]) == [s[k], ' ', s[k + 1], s[k + 2]] + s[k + 3..]
  {
    SpaceWordsNoCapitals(s[k + 3..]);
    assert s[k..][3..] == s[k + 3..];
  }

  lemma SpaceAfter(s: string, k: nat)
    requires k + 3 <= |s|
    ensures s[..k] + ([s[k], ' ', s[k + 1], s[k + 2]] + s[k + 3..]) == s[..k + 1] + [' '] + s[k + 1..]
  {
  }

  /** A name whose only match is its last word, starting at `k`, gets a
      single space, after position `k`. */
  lemma SpaceWordsOneSpace(s: string, k: nat)
    requires k + 3 <= |s|
    requires forall i :: 0 <= i < k ==> !MatchAt(s, i)
    requires MatchAt(s, k)
    requires forall i :: k + 3 <= i < |s| ==> !IsUpper(s[i])
    ensures SpaceWords(s) == s[..k + 1] + [' '] + s[k + 1..]
  {
    assert s == s[..k] + s[k..];
    SpaceWordsCopies(s[..k], s[k..]);
    SpaceWordsLastWord(s, k);
    SpaceAfter(s, k);
  }

  lemma SpaceWordsInstance(s: string)
    requires s == "XBRLInstance"
    ensures SpaceWords(s) == "XBRL Instance"
  {
    SpaceWordsOneSpace(s, 3);
  }

  lemma TypeStrInstance()
    ensures TypeStr(XBRLInstance) == "XBRL Instance"
  {
    SpaceWordsInstance(TypeName(XBRLInstance));
  }

  lemma SpaceWordsLinkbase(s: string)
    requires s == "XBRLLinkbase"
    ensures SpaceWords(s) == "XBRL Linkbase"
  {
    SpaceWordsOneSpace(s, 3);
  }

  lemma TypeStrLinkbase()
    ensures TypeStr(XBRLLinkbase) == "XBRL Linkbase"
  {
    SpaceWordsLinkbase(TypeName(XBRLLinkbase));
  }

  lemma SpaceWordsSchema(s: string)
    requires s == "XMLSchema"
    ensures SpaceWords(s) == "XML Schema"
  {
    SpaceWordsOneSpace(s, 2);
  }

  lemma TypeStrSchema()
    ensures TypeStr(XMLSchema) == "XML Schema"
  {
    SpaceWordsSchema(TypeName(XMLSchema));
  }

  lemma SpaceWordsNotFound(s: string)
    requires s == "NotFound"
    ensures SpaceWords(s) == "Not Found"
  {
    SpaceWordsOneSpace(s, 2);
  }

  lemma TypeStrNotFound()
    ensures TypeStr(NotFound) == "Not Found"
  {
    SpaceWordsNotFound(TypeName(NotFound));
  }

  lemma SpaceWordsXml(s: string)
    requires s == "XML"
    ensures SpaceWords(s) == s
  {
    assert s + "" == s;
    SpaceWordsCopies(s, "");
  }

  /** Names without a capital followed by a small letter after their first
      character are shown as they are. */
  lemma TypeStrUnchanged(t: FileType)
    requires t == Signature || t == XML || t == Unknown
    ensures TypeStr(t) == TypeName(t)
  {
    if t == XML {
      SpaceWordsXml(TypeName(t));
    } else {
      SpaceWordsNoCapitals(TypeName(t));
    }
  }

  // ---------------------------------------------------------------------
  // Entries

  datatype FileEntry = FileEntry(
    uri: Option<Uri>,
    name: string,
    fileType: FileType,
    commitmentType: Option<CommitmentType>,
    transformSet: Option<TransformSet>,
    commitmentTypeId: Option<string>,
    isValid: Option<bool>)

  /** `new FileEntry(uri, stream)`: named after the URI, typed after the
      content; `parsed` is the content loaded as XML, if it loads. */
  function NewEntry(uri: Uri, parsed: Option<Document>): (r: FileEntry)
    ensures r.uri == Some(uri) && r.name == NameOf(uri) && r.fileType == Classify(parsed)
    ensures r.fileType != NotFound
    ensures r.commitmentType.None? && r.transformSet.None? && r.commitmentTypeId.None? && r.isValid.None?
  {
    FileEntry(Some(uri), NameOf(uri), Classify(parsed), None, None, None, None)
  }

  /** `new FileEntry(name)`: a placeholder for a signed file that is not
      in the list. */
  function MissingEntry(name: string): (r: FileEntry)
    ensures r.uri.None? && r.name == name && r.fileType == NotFound
    ensures r.commitmentType.None? && r.transformSet.None? && r.commitmentTypeId.None? && r.isValid.None?
  {
    FileEntry(None, name, NotFound, None, None, None, None)
  }

  /** Entries built by the two constructors lack a URI exactly when they
      are placeholders; later updates do not touch either field. */
  predicate WellFormed(e: FileEntry) {
    e.uri.None? <==> e.fileType == NotFound
  }
}
