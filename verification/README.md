# OpenSBR XAdES signing and checking, modelled in Dafny

This project models the core of OpenSBR and the SBR Assurance desktop
application. OpenSBR creates and checks XAdES detached signatures over
files: a `ds:Signature` whose `SignedInfo` holds one `ds:Reference` per
signed file plus one to the XAdES `SignedProperties`. The signed
properties carry:
- the signing time;
- the signing certificate's digest;
- a signature policy (identifier, transforms, digest method and digest);
- for every file a `DataObjectFormat` and a `CommitmentTypeIndication`.

The library also provides:
- the XML-Signature XPath Filter 2.0 transform (`XmlDsigFilterTransform`);
- a repair of the framework's propagation of `xml:` attributes out of
  filtered-away elements (`XmlDsigWorkaround`).

The application keeps a list of file entries. It detects their types and
offers signing when every file has a commitment type. When the list holds
exactly one signature, it switches to checking mode: it checks the
signature, the policy and every referenced file, and marks the list with
the results.

Everything is modelled as pure functions over immutable values:
- an XML document is a tree of `Node`s, and an attribute is addressed by
  its owner's tree path;
- a `Result` stands for a thrown exception;
- cryptography, hashing, downloads, clocks and date formatting are
  function-valued parameters.

Modules, in dependency order:

| file | module | models |
|---|---|---|
| wrappers.dfy | `Wrappers` | `Option` (null) and `Result` (exception) |
| seqs.dfy, lookups.dfy | `Seqs`, `Lookups` | the LINQ operators the code uses (`Where`, `Count`, `FirstOrDefault`, `SingleOrDefault`) and in-place backward removal loops |
| strings.dfy | `Strings` | number rendering, `String.Split` with `RemoveEmptyEntries`, `Trim` |
| dict.dfy | `Dictionaries` | `Dictionary<string,string>` and `XmlNamespaceManager.AddNamespace` as association lists |
| bytes.dfy, percent.dfy | `Bytes`, `PercentEncoding` | UTF-8, `Uri.EscapeDataString` / `Uri.UnescapeDataString` |
| base64.dfy | `Base64` | `Convert.ToBase64String` / `FromBase64String` (RFC 4648) |
| xml.dfy | `Xml` | the node tree, `CreateChild`, `GetInnerText`, `SetAttribute`, child-axis paths (`SelectNodes` / `SelectSingleNode`) and `//` searches |
| markup.dfy | `XmlMarkup` | `XmlNode.InnerXml`: reading an element's content as markup, and setting it from text with character and entity references |
| filter.dfy | `Filter2` | `XmlDsigFilterTransform` and its `XmlDsigFilterElement` |
| transforms.dfy | `TransformSets` | transforms, transform chains and `TransformSet` |
| xadesfile.dfy | `XadesFiles` | `XadesFile` |
| sigprops.dfy | `XadesProperties` | `XadesSignatureProperties` |
| signature.dfy | `XadesSignatures` | `XadesSignature`: parsing, `CreateFileIds`, `CreateSignature`, `CheckSignature`, `GetPublicKeys` |
| nodelistfix.dfy | `XmlAttributeFix` | `XmlDsigWorkaround.FixDocument` and the two `GetOutput` overrides that call it |
| signpolicy.dfy | `SignPolicies` | `SignPolicy` and `CommitmentType` |
| settings.dfy | `AppSettings` | `Settings.Load` |
| fileentry.dfy | `FileEntries` | `FileEntry`: naming, type detection, `TypeStr` |
| filelist.dfy | `FileLists` | the window's file list: `AddFile`, `SignEnable`, `ResolveUri`, the marking loops of `UpdateViewState` |
| checkview.dfy | `CheckViews` | `UpdateViewState` as a whole |

Three behaviours of the code that a reader might not expect, and that the
model keeps:
- Generated reference ids are `xmldsig-ref{N}` (`XadesSignatures.RefId`).
- In `XadesSignatureProperties.CheckDigest(uri)` a failing download is
  not caught. It propagates out of the check to `UpdateViewState`'s catch
  block (`XadesProperties.CheckDigest`, `CheckViews.UpdateViewState`).
- `XmlDsigWorkaround.FixDocument` overwrites a retained element's own
  `xml:` attribute with one that a left-out ancestor leaves pending
  (`XmlAttributeFix.OwnAttributeOverwritten`, listed under Findings).

## Model

| member | source | states |
|---|---|---|
| Seqs.Filter | SBRAssurance/MainWindow.xaml.cs:328 | `Where` keeps exactly the elements that satisfy the predicate, and nothing else |
| Seqs.FilterIsSubsequence | SBRAssurance/MainWindow.xaml.cs:328 | `Where` keeps the surviving elements in their original relative order |
| Seqs.FilterConcat | SBRAssurance/MainWindow.xaml.cs:328 | filtering distributes over concatenation |
| Seqs.Count | SBRAssurance/MainWindow.xaml.cs:329 | `Count` is the length of the filtered list, and is zero exactly when no element satisfies the predicate |
| Seqs.FirstWhere | SBRAssurance/MainWindow.xaml.cs:208 | `FirstOrDefault` gives nothing exactly when no element qualifies; otherwise it gives an element that qualifies and that no earlier element precedes |
| Seqs.FirstWhereAt | SBRAssurance/MainWindow.xaml.cs:208 | the element at `k` is the one found when it qualifies and none before it does |
| Lookups.SingleIndex | SBRAssurance/MainWindow.xaml.cs:355 | `SingleOrDefault` fails exactly when two elements qualify, gives none exactly when none qualifies, and otherwise gives the index of the only qualifying element |
| Lookups.FilterFilter | SBRAssurance/MainWindow.xaml.cs:198-205 | two removal passes in turn keep what both predicates accept |
| Lookups.FilterPairwise | SBRAssurance/MainWindow.xaml.cs:198-205 | removing entries preserves any pairwise property of the list, such as unique names |
| Lookups.CountOneAt | SBRAssurance/MainWindow.xaml.cs:329 | a count of one means one position holds the only qualifying element |
| Lookups.OnlyAtCount | SBRAssurance/MainWindow.xaml.cs:329 | one qualifying element at a position gives a count of one |
| Lookups.RemoveBackward | SBRAssurance/MainWindow.xaml.cs:198-200 | the loop that runs from the last index down and deletes in place leaves exactly the kept elements in order, the same list as `Where` |
| Strings.NatToString | OpenSBR/Xades/XadesSignature.cs:232 | interpolating a counter gives a non-empty string of decimal digits without a leading zero |
| Strings.DigitsValueOfNatToString | OpenSBR/Xades/XadesSignature.cs:232 | the rendered digits read back as the number |
| Strings.NatToStringInjective | OpenSBR/Xades/XadesSignature.cs:232 | distinct counters render to distinct strings |
| Strings.Split | SBRAssurance/Model/TransformSet.cs:33 | `Split` with `RemoveEmptyEntries` gives non-empty pieces that contain no separator |
| Strings.SplitKeepsContent | SBRAssurance/Model/TransformSet.cs:33 | joined back together, the pieces are the input with its separator characters removed |
| Strings.SplitJoin | SBRAssurance/Model/TransformSet.cs:33 | splitting a list of type names joined by any separator gives the list back |
| Strings.Trim | OpenSBR/Xades/XmlDsig/XmlDsigFilterTransform.cs:151 | `Trim` removes the leading and trailing white space and nothing more; a non-empty result neither starts nor ends with white space |
| Strings.TrimIdempotent | OpenSBR/Xades/XmlDsig/XmlDsigFilterTransform.cs:151 | trimming twice is trimming once |
| Dictionaries.IndexOf | OpenSBR/Xades/XmlDsig/XmlDsigNodeListFix.cs:101 | the key's position exactly when the key is present |
| Dictionaries.Get | OpenSBR/Xades/XmlDsig/XmlDsigNodeListFix.cs:101 | in a map with unique keys, the lookup gives `v` exactly when the pair `(k, v)` is stored |
| Dictionaries.Put | OpenSBR/Xades/XmlDsig/XmlDsigNodeListFix.cs:101 | `m[k] = v` keeps the keys unique and stores the pair. It keeps every other pair. It appends a new key, and overwrites an existing key in place |
| Dictionaries.PutGet | OpenSBR/Xades/XmlDsig/XmlDsigFilterTransform.cs:166 | after `m[k] = v`, `k` reads `v` and every other key reads as before |
| Bytes.Utf8Encode | OpenSBR/Xades/XadesFile.cs:112 | a character encodes as a well-formed UTF-8 sequence of one to four bytes, and of one byte exactly for ASCII |
| Bytes.Utf8RoundTrip | OpenSBR/Xades/XadesFile.cs:112 | decoding a character's UTF-8 encoding gives the character back |
| Base64.Encode | OpenSBR/Xades/XadesSignatureProperties.cs:169 | the encoding is four characters for each started group of three bytes |
| Base64.Decode | OpenSBR/Xades/XadesSignatureProperties.cs:62 | `FromBase64String` accepts only a length that is a multiple of four, and gives three bytes per group of four, less at most two for the padding of the last group |
| Base64.DecodeFullGroup | OpenSBR/Xades/XadesSignatureProperties.cs:62 | four characters written for three bytes decode to those bytes |
| Base64.DecodeTwo | OpenSBR/Xades/XadesSignatureProperties.cs:62 | a padded group written for two final bytes decodes to them |
| Base64.DecodeOne | OpenSBR/Xades/XadesSignatureProperties.cs:62 | a doubly padded group written for one final byte decodes to it |
| Base64.DecodeEncode | OpenSBR/Xades/XadesSignatureProperties.cs:62 | `FromBase64String` undoes `ToBase64String` for every byte string |
| PercentEncoding.Escape | OpenSBR/Xades/XadesFile.cs:112 | `EscapeDataString` leaves only unreserved characters and `%` |
| PercentEncoding.Unescape | OpenSBR/Xades/XadesFile.cs:48 | `UnescapeDataString` never lengthens the text: each escape sequence it replaces becomes one character |
| PercentEncoding.EscapedBytesPrefix | OpenSBR/Xades/XadesFile.cs:48 | the escapes written for some bytes read back as those bytes, whatever follows |
| PercentEncoding.DecodeEscapedChar | OpenSBR/Xades/XadesFile.cs:48 | an escaped character decodes back from the front of any text, consuming exactly its escapes |
| PercentEncoding.UnescapeEscape | OpenSBR/Xades/XadesFile.cs:48 | `UnescapeDataString` undoes `EscapeDataString` for every string |
| PercentEncoding.UnescapePlain | OpenSBR/Xades/XadesFile.cs:48 | text without `%` is unchanged by unescaping |
| Xml.DocumentElement | SBRAssurance/Model/FileEntry.cs:46 | the root element is absent exactly when the document has no element child |
| Xml.SetInnerText | OpenSBR/Xades/XadesFile.cs:135 | setting the inner text keeps the element's name and attributes, and the text then reads back (a null value as "") |
| Xml.GetAttribute | OpenSBR/Xades/XmlDsig/XmlDsigFilterTransform.cs:147 | the attribute's value when the element has one of that name, otherwise "" |
| Xml.SetAttribute | OpenSBR/Xades/XadesFile.cs:130 | after `SetAttribute` the attribute reads the new value, with name and children unchanged |
| Xml.AppendChild | OpenSBR/Xades/XadesExtension.cs:11 | the child becomes the last child and the earlier children stay in place |
| Xml.CreateChild | OpenSBR/Xades/XadesExtension.cs:8-13 | the new empty element is appended to the parent and returned |
| Xml.CreateChildSelect | OpenSBR/Xades/XadesExtension.cs:8-13 | after `CreateChild`, the elements of that name under the parent are the earlier ones followed by the new child |
| Xml.SelectAll | OpenSBR/Xades/XmlDsig/XmlDsigFilterTransform.cs:199 | every node a path selects matches the path's last step |
| Xml.SelectFirstIsFirstOfAll | OpenSBR/Xades/XadesExtension.cs:17 | `SelectSingleNode` gives the first node that `SelectNodes` lists for the same path |
| Xml.SelectFirstInAt | OpenSBR/Xades/XadesExtension.cs:17 | the search descends into the first child matching the first step when that child leads to a hit |
| Xml.SelectFirstInMiss | OpenSBR/Xades/XadesExtension.cs:17 | nothing is found when no child matches the first step |
| Xml.SelectAllInAppend | OpenSBR/Xades/XadesExtension.cs:11 | an appended child's matches come after all earlier ones |
| Xml.GetInnerText | OpenSBR/Xades/XadesExtension.cs:15-19 | null for a null element and for no match; otherwise the inner text of the first match |
| Xml.FindDescendantIsFirst | OpenSBR/Xades/XadesSignature.cs:81 | a `//` search finds the first matching node in document order |
| Xml.SelectDescendant | OpenSBR/Xades/XadesSignature.cs:81 | the node found matches the step, and nothing is found exactly when no node in document order matches |
| Xml.SelectAllInLang | SBRAssurance/Model/SignPolicy.cs:115 | narrowing a step to `[@xml:lang='v']` keeps, in order, the matches in that language |
| Xml.SelectAllInOne | SBRAssurance/Model/SignPolicy.cs:117 | a one-step path selects the matching children in order |
| Xml.SelectPathLang | SBRAssurance/Model/SignPolicy.cs:54 | narrowing the last step of `//path` to a language keeps, in order, the nodes reached in that language |
| Xml.FirstsFilter | SBRAssurance/Model/SignPolicy.cs:54 | filtering located nodes by a conjunction is filtering by each part in turn |
| XmlMarkup.SetInnerXml | OpenSBR/Xades/XmlDsig/XmlDsigFilterTransform.cs:188 | setting `InnerXml` succeeds exactly when the markup reads as text (character data with character and entity references). The element keeps its name and attributes, its text is the decoded markup, and its `InnerXml` is the markup as it is written out again |
| XmlMarkup.DecodeEscape | OpenSBR/Xades/XmlDsig/XmlDsigFilterTransform.cs:188 | setting `InnerXml` to text written out with `<`, `>` and `&` escaped gives back the same text |
| Filter2.IsInSet | OpenSBR/Xades/XmlDsig/XmlDsigFilterTransform.cs:207-213 | a node is in a step's set exactly when some selected node is the node itself or an ancestor of it |
| Filter2.Include | OpenSBR/Xades/XmlDsig/XmlDsigFilterTransform.cs:220-239 | a step decides a node exactly when it is an intersect step and the node is outside its set, or another step and the node is inside; only a union decides `true` |
| Filter2.Fold | OpenSBR/Xades/XmlDsig/XmlDsigFilterTransform.cs:104-109 | no contract of its own: the flag starts at `true` and each step that decides the node overrides it; `Filter2.FoldIsZ` states what it computes |
| Filter2.FoldIsZ | OpenSBR/Xades/XmlDsig/XmlDsigFilterTransform.cs:104-109 | starting the flag at `true` and letting each step override it equals the flag Z of section 3.4 of XML-Signature XPath Filter 2.0 with a leading union over the document node: in a union set and all later intersect sets and in no later subtract set |
| Filter2.ZSnoc | OpenSBR/Xades/XmlDsig/XmlDsigFilterTransform.cs:108-109 | a later step that decides a node overrides every earlier one |
| Filter2.ComputeInclude | OpenSBR/Xades/XmlDsig/XmlDsigFilterTransform.cs:104-109 | the loop over the steps for one node computes Z |
| Filter2.Retained | OpenSBR/Xades/XmlDsig/XmlDsigFilterTransform.cs:101-112 | the kept document nodes and attributes are exactly those whose flag Z holds, in document order |
| Filter2.GetOutput | OpenSBR/Xades/XmlDsig/XmlDsigFilterTransform.cs:78-119 | the output holds exactly the nodes and attributes with Z true, in document order, followed by every namespace node |
| Filter2.NoStepsKeepsAll | OpenSBR/Xades/XmlDsig/XmlDsigFilterTransform.cs:104 | with no steps every node and attribute is kept |
| Filter2.ExampleUnionIntersect | OpenSBR/Xades/XmlDsig/XmlDsigFilterTransform.cs:98-112 | in a chain A > B > C, `union A` then `intersect B` keeps B and C |
| Filter2.ExampleUnionSubtract | OpenSBR/Xades/XmlDsig/XmlDsigFilterTransform.cs:98-112 | `union A` then `subtract C` keeps the document node, A and B |
| Filter2.ExampleOrderMatters | OpenSBR/Xades/XmlDsig/XmlDsigFilterTransform.cs:108-109 | swapping a subtract and a union step changes the verdict on a node in both sets |
| Filter2.ParseOp | OpenSBR/Xades/XmlDsig/XmlDsigFilterTransform.cs:147-149 | an operation is read exactly from the names `intersect`, `subtract` and `union`, and writing it back gives the same name |
| Filter2.NamespacesOf | OpenSBR/Xades/XmlDsig/XmlDsigFilterTransform.cs:41-44 | the namespace manager built from the constructor's pairs has one URI per prefix |
| Filter2.DeclaredNamespaces | OpenSBR/Xades/XmlDsig/XmlDsigFilterTransform.cs:155-168 | the namespace manager built from an element's `xmlns:` attributes has one URI per prefix |
| Filter2.ParseFilterElement | OpenSBR/Xades/XmlDsig/XmlDsigFilterTransform.cs:143-172 | reading an `XPath` element succeeds exactly for an element named `XPath` with a valid `Filter`. It fails with "Invalid transform parameters" for a bad operation and "Unknown transform type" for anything else. The expression is the trimmed `InnerXml` of the element's content, and the namespaces are its `xmlns:` declarations |
| Filter2.WriteFilterElement | OpenSBR/Xades/XmlDsig/XmlDsigFilterTransform.cs:179-191 | a step is written as an `XPath` element in the Filter 2.0 namespace by setting its `InnerXml` to the expression. This succeeds exactly when the expression reads as text, and the element's text is then the decoded expression |
| Filter2.DeclaredNamespacesOfDeclarations | OpenSBR/Xades/XmlDsig/XmlDsigFilterTransform.cs:184-186 | written prefix declarations read back unchanged |
| Filter2.ParseWriteFilterElement | OpenSBR/Xades/XmlDsig/XmlDsigFilterTransform.cs:143-191 | writing a step succeeds exactly when its expression reads as text. Reading the written element back gives the operation, the writable namespace declarations, and the expression as its markup is written out again, trimmed |
| Filter2.ParseWriteEscaped | OpenSBR/Xades/XmlDsig/XmlDsigFilterTransform.cs:143-191 | an expression already in escaped form and without surrounding white space reads back exactly |
| Filter2.ReadsMarkupNotText | OpenSBR/Xades/XmlDsig/XmlDsigFilterTransform.cs:151 | an element whose text is `>` is read as the expression `&gt;`, its markup, not its text |
| Filter2.WriteRejectsMarkup | OpenSBR/Xades/XmlDsig/XmlDsigFilterTransform.cs:188 | an expression that starts with `<`, or with an `&` that no `;` closes, cannot be written |
| Filter2.ParseFilterElements | OpenSBR/Xades/XmlDsig/XmlDsigFilterTransform.cs:63-66 | the list parses exactly when every element does, and then gives each element's step in order |
| Filter2.LoadInnerXml | OpenSBR/Xades/XmlDsig/XmlDsigFilterTransform.cs:58-67 | a null node list is rejected with "Unknown transform type"; otherwise every node is parsed in order |
| Filter2.LoadInnerXmlGetInnerXml | OpenSBR/Xades/XmlDsig/XmlDsigFilterTransform.cs:58-75 | the parameters can be written exactly when every step can, and loading them back gives every step in order, normalized as in `ParseWriteFilterElement` |
| Filter2.GetInnerXmlAsWritten | OpenSBR/Xades/XmlDsig/XmlDsigFilterTransform.cs:69-75 | as written, the parameters are produced exactly when there is at most one step and it can be written. Two writable steps fail with "This document already has a 'DocumentElement' node." |
| Filter2.GetInnerXml | OpenSBR/Xades/XmlDsig/XmlDsigFilterTransform.cs:69-75 | corrected: the parameters are produced exactly when every step can be written, one element per step in order, for any number of steps. Otherwise the error is that of the first step that cannot be written |
| Filter2.FromArrays | OpenSBR/Xades/XmlDsig/XmlDsigFilterTransform.cs:39-51 | the array constructor fails with "Invalid transform parmeters" exactly when the arrays differ in length; otherwise it pairs them up, each step sharing one namespace manager |
| Filter2.FromSingle | OpenSBR/Xades/XmlDsig/XmlDsigFilterTransform.cs:30-37 | the single-step constructor equals the array constructor over one-element arrays |
| TransformSets.NoneSet | SBRAssurance/Model/TransformSet.cs:21-24 | the empty set is named "None", is the default for no type and has no chain |
| TransformSets.LoadTransform | SBRAssurance/Model/TransformSet.cs:38-43 | a loaded transform has the requested algorithm. The filter transform loads exactly when its steps parse, and then holds them. Any other transform loads exactly when it accepts its parameters, and then keeps them |
| TransformSets.LoadChain | SBRAssurance/Model/TransformSet.cs:35-45 | the chain loads exactly when every child is an element whose transform, if registered, loads; only registered algorithms end up in the chain |
| TransformSets.LoadChainKeepsRegistered | SBRAssurance/Model/TransformSet.cs:35-45 | a loaded chain has one transform per registered child, in document order, each loaded from that child |
| TransformSets.FromElement | SBRAssurance/Model/TransformSet.cs:30-46 | a set is built exactly when its chain loads. It takes the `name` attribute. It has a default list exactly when `defaultfor` is present, and that list has non-empty, separator-free pieces |
| TransformSets.DefaultForKeepsContent | SBRAssurance/Model/TransformSet.cs:33 | the default list loses only the separators of the `defaultfor` text |
| TransformSets.DefaultForRoundTrip | SBRAssurance/Model/TransformSet.cs:33 | type names joined by a comma, semicolon or space read back as that list, and the set is the default exactly for those names |
| TransformSets.LoadXmlChain | SBRAssurance/Model/SignPolicy.cs:43-49 | the framework's chain loader succeeds exactly when there is at least one `ds:Transform` and each one's algorithm is registered and loads; it gives one transform per element, in order |
| TransformSets.TransformXml | OpenSBR/Xades/XadesSignatureProperties.cs:158-159 | as the code writes it, a filter is written exactly when it has at most one step and that step can be written. Two writable steps fail with "This document already has a 'DocumentElement' node.". A written transform is a `ds:Transform` whose `Algorithm` is the transform's algorithm, holding its parameters or its written step, and equals what the corrected writer gives |
| TransformSets.TransformXmlCorrected | OpenSBR/Xades/XmlDsig/XmlDsigFilterTransform.cs:69-75 | corrected: a filter is written exactly when every step can be, whatever their number, one element per step |
| TransformSets.ChainXml | OpenSBR/Xades/XadesSignatureProperties.cs:158-159 | a chain is written exactly when every transform in it can be written as the code writes it, as a `ds:Transforms` element holding the written transforms in order |
| TransformSets.LoadTransformXml | OpenSBR/Xades/XadesSignatureProperties.cs:158-159 | a registered transform that accepts its parameters, or a filter of at most one step that can be written, is written and loads back as itself, the filter step normalized |
| TransformSets.ChainRoundTrip | OpenSBR/Xades/XadesSignatureProperties.cs:50-56 | a non-empty chain of such transforms is written, and the framework's loader reads it back as the same transforms, filter steps normalized |
| TransformSets.ChainXmlRejectsTwoSteps | OpenSBR/Xades/XadesSignatureProperties.cs:158-159 | a chain holding the filter that the array constructor builds from two expressions cannot be written: the second `XPath` element is a second document element |
| XadesFiles.RefTo | OpenSBR/Xades/XadesFile.cs:130 | `#{id}` starts with `#` followed by the id, a null id giving "#" |
| XadesFiles.RefToInjective | OpenSBR/Xades/XadesFile.cs:171 | distinct ids give distinct same-document references |
| XadesFiles.NewFile | OpenSBR/Xades/XadesFile.cs:35-40 | a new file keeps its URI and chain but always gets SHA-256, whatever digest method was asked for |
| XadesFiles.FromReference | OpenSBR/Xades/XadesFile.cs:46-53 | a file read from a reference has the percent-decoded URI, and the reference's chain, digest method and id |
| XadesFiles.GetReference | OpenSBR/Xades/XadesFile.cs:107-119 | the reference has the escaped URI, the file's chain and id, and the file's digest method or SHA-256 when it has none; the file keeps it |
| XadesFiles.ReferenceRoundTrip | OpenSBR/Xades/XadesFile.cs:46-119 | a file read back from its written reference has the file's URI, id and chain |
| XadesFiles.FormatOrder | OpenSBR/Xades/XadesFile.cs:132-154 | the written format children follow the schema order Description, ObjectIdentifier, MimeType, Encoding |
| XadesFiles.GetObjectFormat | OpenSBR/Xades/XadesFile.cs:126-157 | the `DataObjectFormat` points at the file's id and holds its children in schema order. Reading it back gives the written description, identifier, MIME type and encoding |
| XadesFiles.FormatReadsDescription | OpenSBR/Xades/XadesFile.cs:132-136 | the description reads back as the file's description, or its URI when neither description, identifier nor MIME type is set, and otherwise none |
| XadesFiles.FormatReadsIdentifier | OpenSBR/Xades/XadesFile.cs:138-143 | the object identifier reads back through its nested `Identifier` |
| XadesFiles.FormatReadsMimeType | OpenSBR/Xades/XadesFile.cs:145-149 | the MIME type reads back |
| XadesFiles.FormatReadsEncoding | OpenSBR/Xades/XadesFile.cs:150-154 | the encoding reads back |
| XadesFiles.IndicationRefers | OpenSBR/Xades/XadesFile.cs:170-171 | the indication's `ObjectReference` names exactly the file's id |
| XadesFiles.IndicationReads | OpenSBR/Xades/XadesFile.cs:167-169 | the commitment type reads back, a null one as "" |
| XadesFiles.GetCommitmentTypeIndication | OpenSBR/Xades/XadesFile.cs:164-174 | the `CommitmentTypeIndication` is always written. It points exactly at the file's id and reads back the commitment type, "" when there is none |
| XadesFiles.DataObjectProperties | OpenSBR/Xades/XadesSignature.cs:210-218 | every file's format comes first, in file order, and then every file's indication |
| XadesFiles.ParseProperties | OpenSBR/Xades/XadesFile.cs:181-197 | reading succeeds exactly when the id can be quoted in the query. Only the format and commitment fields change. A missing format or indication gives null fields, not an error |
| XadesFiles.FormatMatches | OpenSBR/Xades/XadesFile.cs:184 | a `DataObjectFormat` answers the query for exactly the id it points at |
| XadesFiles.OnlyOwnFormat | OpenSBR/Xades/XadesFile.cs:184 | with distinct ids, only a file's own `DataObjectFormat` answers its query |
| XadesFiles.OnlyOwnIndication | OpenSBR/Xades/XadesFile.cs:194 | with distinct ids, only a file's own `CommitmentTypeIndication` answers its query |
| XadesFiles.NoFormatIsIndication | OpenSBR/Xades/XadesFile.cs:194 | no `DataObjectFormat` answers an indication query |
| XadesFiles.FindsOwnFormat | OpenSBR/Xades/XadesFile.cs:184 | the format query over the written properties finds the file's own format |
| XadesFiles.FindsOwnIndication | OpenSBR/Xades/XadesFile.cs:194 | the indication query over the written properties finds the file's own indication |
| XadesFiles.ParseAfterCreate | OpenSBR/Xades/XadesFile.cs:126-197 | for files with distinct ids, reading the written properties gives each file its format fields and its commitment type. A defaulted description reads back as the URI, and a missing commitment type as "" |
| XadesFiles.CheckDigest | OpenSBR/Xades/XadesFile.cs:204-223 | a file is valid exactly when its content can be fetched, it has a reference and its hash equals the reference's digest. Any failure gives false, and the verdict is stored on the file |
| XadesFiles.CheckAfterSign | OpenSBR/Xades/XadesFile.cs:46-223 | a file read back from a reference whose digest was computed over the same content checks as valid |
| XadesProperties.NewProperties | OpenSBR/Xades/XadesSignatureProperties.cs:21-22 | new properties have no signing time and no policy |
| XadesProperties.UpdateHash | OpenSBR/Xades/XadesSignatureProperties.cs:100-103 | the stored digest becomes the policy document's hash, and a failing hash propagates |
| XadesProperties.UpdateHashFrom | OpenSBR/Xades/XadesSignatureProperties.cs:109-114 | the document is downloaded from the URI; a null URI or a failing download propagates |
| XadesProperties.CheckDigestOf | OpenSBR/Xades/XadesSignatureProperties.cs:179-183 | the policy is valid exactly when the recomputed digest equals the stored one |
| XadesProperties.CheckDigest | OpenSBR/Xades/XadesSignatureProperties.cs:190-195 | the document is fetched from the given URI, or from the policy id without one; a failing download is not caught |
| XadesProperties.CheckAfterUpdate | OpenSBR/Xades/XadesSignatureProperties.cs:100-195 | a digest computed from a document checks as valid against the same document |
| XadesProperties.SettledTime | OpenSBR/Xades/XadesSignatureProperties.cs:126-127 | an unset signing time becomes the current time, and a set one is kept |
| XadesProperties.SettleDigest | OpenSBR/Xades/XadesSignatureProperties.cs:162-163 | a missing policy digest is computed from the document at the policy id, and an existing one is kept |
| XadesProperties.Create | OpenSBR/Xades/XadesSignatureProperties.cs:121-172 | creating succeeds exactly when the policy chain can be written and the digest can be settled; an unwritable chain gives the writer's error. With a digest already set, a writable chain suffices. The properties keep their policy and end with a signing time and a digest |
| XadesProperties.CreateRejectsTwoStepFilter | OpenSBR/Xades/XadesSignatureProperties.cs:121-172 | a policy chain whose filter has two writable steps makes creating the properties fail with "This document already has a 'DocumentElement' node." |
| XadesProperties.CreateShape | OpenSBR/Xades/XadesSignatureProperties.cs:123-170 | the created element holds SigningTime, SigningCertificate and SignaturePolicyIdentifier in that order; the certificate digest is SHA-256 |
| XadesProperties.CertDigestWritten | OpenSBR/Xades/XadesSignatureProperties.cs:135-140 | the certificate digest reads back as SHA-256 and the base 64 form of the certificate's hash |
| XadesProperties.CheckAfterCreate | OpenSBR/Xades/XadesSignatureProperties.cs:162-195 | properties whose digest was computed while creating them check as valid against the policy document fetched again |
| XadesProperties.ReadTime | OpenSBR/Xades/XadesSignatureProperties.cs:34-36 | the signing time is the parsed text of the first `SigningTime`, and stays unset when there is none or it does not parse |
| XadesProperties.ReadChain | OpenSBR/Xades/XadesSignatureProperties.cs:50-56 | without `ds:Transforms` there is no chain; otherwise the framework's loader gives it and its failure propagates |
| XadesProperties.ReadDigest | OpenSBR/Xades/XadesSignatureProperties.cs:61-62 | without `DigestValue` there is no digest; otherwise it is the decoded base 64 text, and text that is not base 64 is an error |
| XadesProperties.ReadDigestMethod | OpenSBR/Xades/XadesSignatureProperties.cs:58-59 | the digest method is the `Algorithm` of the first `DigestMethod`, none without one |
| XadesProperties.Parse | OpenSBR/Xades/XadesSignatureProperties.cs:29-64 | without a `SignaturePolicyId` only the signing time is read; otherwise the policy fields are read too |
| XadesProperties.ReadsIdentifier | OpenSBR/Xades/XadesSignatureProperties.cs:152-154 | the written policy identifier reads back, a null one as "" |
| XadesProperties.ReadsDigestMethod | OpenSBR/Xades/XadesSignatureProperties.cs:165-167 | the written policy digest method reads back, a null one as "" |
| XadesProperties.ReadsDigest | OpenSBR/Xades/XadesSignatureProperties.cs:168-169 | the written policy digest reads back through base 64 |
| XadesProperties.ReadsChain | OpenSBR/Xades/XadesSignatureProperties.cs:156-160 | a non-empty chain that can be written reads back, filter steps normalized; an empty or missing one reads back as none |
| XadesProperties.ParseAfterCreate | OpenSBR/Xades/XadesSignatureProperties.cs:29-172 | parsing created properties recovers the policy id, digest method, digest, chain and signing time, as far as they survive writing |
| XadesSignatures.RefId | OpenSBR/Xades/XadesSignature.cs:232 | a generated id is `xmldsig-ref` followed by the counter in decimal |
| XadesSignatures.RefIdInjective | OpenSBR/Xades/XadesSignature.cs:232 | distinct counters give distinct ids |
| XadesSignatures.RefIdQuotable | OpenSBR/Xades/XadesSignature.cs:232 | a generated id contains no apostrophe |
| XadesSignatures.NextFree | OpenSBR/Xades/XadesSignature.cs:232 | the counting loop stops at the least generated id at or above the counter that is not yet taken |
| XadesSignatures.AssignIds | OpenSBR/Xades/XadesSignature.cs:227-236 | every file receives an id |
| XadesSignatures.AssignIdsFresh | OpenSBR/Xades/XadesSignature.cs:227-236 | the assigned ids are pairwise distinct and avoid the ids already taken |
| XadesSignatures.AssignIdsKeeps | OpenSBR/Xades/XadesSignature.cs:229 | a present id that no earlier file claimed is kept |
| XadesSignatures.AssignIdsGenerates | OpenSBR/Xades/XadesSignature.cs:229-233 | a missing or claimed id is replaced by the least generated id not claimed so far |
| XadesSignatures.WithFileIds | OpenSBR/Xades/XadesSignature.cs:223-237 | one file per file, each unchanged but for its id, which is the one the assignment gives it |
| XadesSignatures.WithFileIdsSpec | OpenSBR/Xades/XadesSignature.cs:223-237 | ids are present and distinct. Only the ids change. A file keeps its id exactly when it has one that no earlier file holds. The others get the least free `xmldsig-ref{N}` |
| XadesSignatures.AssignIdsLoop | OpenSBR/Xades/XadesSignature.cs:225-236 | the loop with its set of claimed ids and its counter computes the assignment |
| XadesSignatures.CreateFileIds | OpenSBR/Xades/XadesSignature.cs:223-237 | the method gives every file the assigned id, and the ids are distinct |
| XadesSignatures.CreateFileIdsExample | OpenSBR/Xades/XadesSignature.cs:223-237 | two files without ids around one with id `x` get `xmldsig-ref0`, `x`, `xmldsig-ref1` |
| XadesSignatures.WithFileIdsUsable | OpenSBR/Xades/XadesSignature.cs:154 | after `CreateFileIds` the files can be told apart and queried |
| XadesSignatures.PropertiesTarget | OpenSBR/Xades/XadesSignature.cs:79-88 | reading a reference's first character fails exactly for a XAdES-typed reference with an empty URI, or with an apostrophe in the queried id. Otherwise the reference targets the signed properties exactly when the search finds them |
| XadesSignatures.SortBy | OpenSBR/Xades/XadesSignature.cs:77-91 | the reference loop succeeds exactly when every test does. It keeps, in order, the references the test turns down, and it chooses one exactly when the test accepts some |
| XadesSignatures.SortByChoosesLast | OpenSBR/Xades/XadesSignature.cs:84-86 | the chosen reference is the last one the test accepts |
| XadesSignatures.Classify | OpenSBR/Xades/XadesSignature.cs:77-91 | the file references are the others in order, and the chosen one is a signed-properties reference |
| XadesSignatures.FilesOf | OpenSBR/Xades/XadesSignature.cs:90 | one file per reference, read back from it |
| XadesSignatures.ParseFiles | OpenSBR/Xades/XadesSignature.cs:99-100 | every file reads its properties in order, and the first malformed query ends the loop |
| XadesSignatures.NewSignature | OpenSBR/Xades/XadesSignature.cs:47-55 | a new signature has empty properties, no files, C14N with comments and RSA-SHA256 |
| XadesSignatures.ReadProperties | OpenSBR/Xades/XadesSignature.cs:95-100 | the policy is read, then every file's properties; either failure propagates |
| XadesSignatures.ParseSignature | OpenSBR/Xades/XadesSignature.cs:61-101 | a parsed signature keeps the loaded `SignedInfo` and methods. Without signed properties it has no properties and the files are the references read back. Otherwise the properties are read |
| XadesSignatures.PublicKeys | OpenSBR/Xades/XadesSignature.cs:302-324 | `GetPublicKeys` faults exactly when some clause is an `X509Data` without certificates. The keys it yields before that are exactly those of the clauses before the first such clause: a certificate of an `X509Data` with its key, or a bare RSA or DSA key. The first clause's keys come first |
| XadesSignatures.ClauseKeys | OpenSBR/Xades/XadesSignature.cs:307-322 | one clause faults exactly when it is an `X509Data` without certificates, and it offers exactly its certificates that have a key, each with that key, or its bare RSA or DSA key |
| XadesSignatures.Reached | OpenSBR/Xades/XadesSignature.cs:304-309 | the enumeration reaches the clauses before the first faulting one, and no further |
| XadesSignatures.PublicKeysAppend | OpenSBR/Xades/XadesSignature.cs:302-324 | a fault in the first part of a `KeyInfo` ends the enumeration there. Otherwise the keys are those of the first part followed by those of the second, and the enumeration faults as the second part does |
| XadesSignatures.CheckFiles | OpenSBR/Xades/XadesSignature.cs:278-280 | every file is checked, with no short cut, and the result holds exactly when all are valid |
| XadesSignatures.SignedInfoCheck | OpenSBR/Xades/XadesSignature.cs:266-275 | checking fails with a null-reference error exactly when the key enumeration faults before any key verifies `SignedInfo`. Otherwise `SignedInfo` is valid exactly when some offered key verifies it, and the certificate is that of the first such key |
| XadesSignatures.PropertiesCheck | OpenSBR/Xades/XadesSignature.cs:283-292 | without signed properties the flag is false; otherwise it holds exactly when their digest equals the reference's |
| XadesSignatures.CheckSignature | OpenSBR/Xades/XadesSignature.cs:255-295 | an unparsed signature is not valid and is unchanged. A key enumeration that faults before a key verifies ends the check with its null-reference error. Otherwise the `SignedInfo` and signed-properties flags are set and every file is checked, and the signature is valid exactly when both flags hold and every file is valid |
| XadesSignatures.QualifyingPropertiesXml | OpenSBR/Xades/XadesSignature.cs:192-203 | the qualifying properties target the signature root and hold the signed properties |
| XadesSignatures.SignedPropertiesMatch | OpenSBR/Xades/XadesSignature.cs:196-197 | the created signed properties are the ones the parser's query looks for |
| XadesSignatures.Assemble | OpenSBR/Xades/XadesSignature.cs:156-176 | the signed-properties reference comes first and is followed by one reference per file, in order. The object holds the qualifying properties, and the key information holds the certificate |
| XadesSignatures.CreateSignature | OpenSBR/Xades/XadesSignature.cs:139-183 | a created signature always has properties |
| XadesSignatures.ClassifyCreated | OpenSBR/Xades/XadesSignature.cs:77-91 | sorting the created references finds the signed properties and keeps every file reference |
| XadesSignatures.ParseCreatedFiles | OpenSBR/Xades/XadesSignature.cs:99-100 | every file reads its properties back from the properties written for it |
| XadesSignatures.ParseCreated | OpenSBR/Xades/XadesSignature.cs:61-101 | parsing a document with the created references gives the files and properties read back |
| XadesSignatures.ParseCreatedObject | OpenSBR/Xades/XadesSignature.cs:141-160 | the search for the signed properties finds them in the created object document |
| XadesSignatures.CreatedParts | OpenSBR/Xades/XadesSignature.cs:139-170 | a created signature is assembled from files with their ids, and its signed properties parse back |
| XadesSignatures.ParseAfterCreateSignature | OpenSBR/Xades/XadesSignature.cs:61-183 | parsing what `CreateSignature` wrote recovers every file and the signature properties, as far as they survive writing |
| XmlAttributeFix.XmlIndex | OpenSBR/Xades/XmlDsig/XmlDsigNodeListFix.cs:79 | the position of `xml:k` exactly when the element has one |
| XmlAttributeFix.SetXmlAttributeValue | OpenSBR/Xades/XmlDsig/XmlDsigNodeListFix.cs:77-79 | after `SetAttributeNode`, `xml:k` reads the new value, every other `xml:` attribute reads as before, and no other attribute changes |
| XmlAttributeFix.StampValue | OpenSBR/Xades/XmlDsig/XmlDsigNodeListFix.cs:73-81 | a retained element ends up with the pending value as written; corrected, its own value wins |
| XmlAttributeFix.CollectGet | OpenSBR/Xades/XmlDsig/XmlDsigNodeListFix.cs:89-107 | a left-out element's own `xml:` attribute overrides what a farther ancestor left pending |
| XmlAttributeFix.CollectNone | OpenSBR/Xades/XmlDsig/XmlDsigNodeListFix.cs:89-107 | a left-out element without `xml:` attributes passes the pending attributes on unchanged |
| XmlAttributeFix.Fix | OpenSBR/Xades/XmlDsig/XmlDsigNodeListFix.cs:49-113 | no contract of its own: the walk over the document, `overwrite` choosing the stamping as written or corrected; the lemmas below state what it does |
| XmlAttributeFix.FixNode | OpenSBR/Xades/XmlDsig/XmlDsigNodeListFix.cs:60-107 | no contract of its own: one node of the walk, stamping a retained element or collecting a left-out one's `xml:` attributes for its children |
| XmlAttributeFix.FixChildren | OpenSBR/Xades/XmlDsig/XmlDsigNodeListFix.cs:60-113 | every child is visited, and the walk gives one node per child |
| XmlAttributeFix.FixKeepsRest | OpenSBR/Xades/XmlDsig/XmlDsigNodeListFix.cs:49-113 | the fix changes only `xml:` attributes: tree shape, names, text and other attributes are unchanged |
| XmlAttributeFix.FixCleans | OpenSBR/Xades/XmlDsig/XmlDsigNodeListFix.cs:84-107 | after the fix no left-out element carries an `xml:` attribute |
| XmlAttributeFix.FixIdempotent | OpenSBR/Xades/XmlDsig/XmlDsigNodeListFix.cs:49-113 | applying the fix twice equals applying it once |
| XmlAttributeFix.FixDocumentLocality | OpenSBR/Xades/XmlDsig/XmlDsigNodeListFix.cs:60-113 | an element's attributes after the fix depend only on its own retention and on what its ancestors left pending, never on its siblings |
| XmlAttributeFix.ExampleGrandchild | OpenSBR/Xades/XmlDsig/XmlDsigNodeListFix.cs:60-113 | `xml:lang` on a left-out grandparent moves to a retained grandchild and off the left-out elements |
| XmlAttributeFix.ExampleSiblings | OpenSBR/Xades/XmlDsig/XmlDsigNodeListFix.cs:60-113 | attributes collected under one child do not reach its sibling |
| XmlAttributeFix.OwnAttributeOverwritten | OpenSBR/Xades/XmlDsig/XmlDsigNodeListFix.cs:73-81 | as written, a retained element's own `xml:lang` is replaced by an ancestor's |
| XmlAttributeFix.OwnAttributeKept | OpenSBR/Xades/XmlDsig/XmlDsigNodeListFix.cs:73-81 | corrected, the retained element keeps its own `xml:lang` |
| XmlAttributeFix.XPathTransformOutput | OpenSBR/Xades/XmlDsig/XmlDsigNodeListFix.cs:30-37 | with the corrected walk: the XPath transform's node list is returned unchanged, and the document keeps all but `xml:` attributes, with the left-out elements cleaned |
| XmlAttributeFix.FilterTransformOutput | OpenSBR/Xades/XmlDsig/XmlDsigFilterTransform.cs:78-119 | with the corrected walk: the filter's output is the Z-kept nodes plus namespace nodes. The document keeps all but `xml:` attributes, with the left-out elements cleaned |
| XmlAttributeFix.XPathTransformOutputAsWritten | OpenSBR/Xades/XmlDsig/XmlDsigNodeListFix.cs:30-37 | as written: the same node list and the same guarantees on the document, by the overwriting walk |
| XmlAttributeFix.FilterTransformOutputAsWritten | OpenSBR/Xades/XmlDsig/XmlDsigFilterTransform.cs:78-119 | as written: the same output and the same guarantees on the document, by the overwriting walk |
| SignPolicies.CommitmentTypeOf | SBRAssurance/Model/SignPolicy.cs:111-119 | a commitment type's id is the text of its first `Identifier`. Its description is the first one in the preferred language, else the first description |
| SignPolicies.PolicyChain | SBRAssurance/Model/SignPolicy.cs:43-49 | there is no chain exactly when the document has no `ds:Transforms` |
| SignPolicies.PolicyDescription | SBRAssurance/Model/SignPolicy.cs:54-57 | the two queries choose the first description in the preferred language, else the first description |
| SignPolicies.DescriptionRule | SBRAssurance/Model/SignPolicy.cs:54-57 | a description is found exactly when there is one, and it is the text of one of the descriptions |
| SignPolicies.PolicyDigest | SBRAssurance/Model/SignPolicy.cs:41-42 | the digest method is that of the first `SignPolicyDigestAlg`, but always SHA-256 for the SBR XML policy |
| SignPolicies.Parse | SBRAssurance/Model/SignPolicy.cs:29-68 | a policy is read exactly when the document has a root, the language can be quoted in the query and the chain loads; the fields are those the queries give |
| SignPolicies.DescriptionRuleExample | SBRAssurance/Model/SignPolicy.cs:54-57 | with Dutch and English descriptions, English is found when preferred and Dutch otherwise |
| AppSettings.SetsOf | SBRAssurance/Settings.cs:25-26 | one set per `Transforms` element, in order; the first that cannot be built aborts the load |
| AppSettings.LanguageAsWritten | SBRAssurance/Settings.cs:28 | no contract of its own: the `Value` of the selected node, "en" without one; `LanguageAsWrittenIgnoresSetting` states what it gives |
| AppSettings.LanguageAsWrittenIgnoresSetting | SBRAssurance/Settings.cs:28 | as written, the preferred language is always "en" |
| AppSettings.LanguageAsWrittenExample | SBRAssurance/Settings.cs:28 | a settings file that configures Dutch still yields English |
| AppSettings.Language | SBRAssurance/Settings.cs:28 | corrected, the language is the configured text, "en" when none is configured |
| AppSettings.Load | SBRAssurance/Settings.cs:13-32 | loading succeeds exactly when every set builds, and the "None" set comes first |
| AppSettings.LoadSets | SBRAssurance/Settings.cs:23-26 | after "None" there is one set per `Transforms` element, in document order |
| AppSettings.LoadReads | SBRAssurance/Settings.cs:28-29 | the policy locations are the texts of the `SignaturePolicy` elements, and the language is read as above |
| FileEntries.Classify | SBRAssurance/Model/FileEntry.cs:40-59 | the type is never NotFound. It is Unknown exactly when the content does not load or has no root. It is a recognised type exactly for that type's root name, and XML for any other root |
| FileEntries.ClassifyRecognises | SBRAssurance/Model/FileEntry.cs:47-54 | a document whose root has a type's identifying name is detected as that type |
| FileEntries.FileName | SBRAssurance/Model/FileEntry.cs:31 | `GetFileName` gives the separator-free tail of the path after its last separator |
| FileEntries.NameOf | SBRAssurance/Model/FileEntry.cs:31 | an entry is named by its unescaped fragment, or without one by the last segment of its unescaped path |
| FileEntries.ArchiveEntryName | SBRAssurance/Model/FileEntry.cs:31 | an archive entry added with its escaped full name as fragment is named by that full name |
| FileEntries.SpaceWordsOnlyInsertsSpaces | SBRAssurance/Model/FileEntry.cs:68 | the replacement only inserts spaces |
| FileEntries.SpaceWords | SBRAssurance/Model/FileEntry.cs:68 | the replacement never shortens the name |
| FileEntries.SpaceWordsNoCapitals | SBRAssurance/Model/FileEntry.cs:68 | text without capitals after its first character is left alone |
| FileEntries.SpaceWordsOneSpace | SBRAssurance/Model/FileEntry.cs:68 | a name whose only match is its last word gets exactly one space, before that word |
| FileEntries.TypeStr | SBRAssurance/Model/FileEntry.cs:66-69 | the display text is the type's name with spaces added |
| FileEntries.TypeStrInstance | SBRAssurance/Model/FileEntry.cs:68 | XBRLInstance is shown as "XBRL Instance" |
| FileEntries.TypeStrLinkbase | SBRAssurance/Model/FileEntry.cs:68 | XBRLLinkbase is shown as "XBRL Linkbase" |
| FileEntries.TypeStrSchema | SBRAssurance/Model/FileEntry.cs:68 | XMLSchema is shown as "XML Schema" |
| FileEntries.TypeStrNotFound | SBRAssurance/Model/FileEntry.cs:68 | NotFound is shown as "Not Found" |
| FileEntries.TypeStrUnchanged | SBRAssurance/Model/FileEntry.cs:68 | Signature, XML and Unknown are shown as they are |
| FileEntries.NewEntry | SBRAssurance/Model/FileEntry.cs:27-60 | a new entry is named after its URI, typed after its content, never NotFound, and has no commitment, transform set or verdict |
| FileEntries.MissingEntry | SBRAssurance/Model/FileEntry.cs:79-83 | a placeholder has no URI, the given name and type NotFound |
| FileLists.DefaultSet | SBRAssurance/MainWindow.xaml.cs:208 | the default set is one that names the type as a default when there is one, else the first set, and none only without sets |
| FileLists.AddFile | SBRAssurance/MainWindow.xaml.cs:196-210 | the added entry comes last with its default transform set |
| FileLists.AddFileKeeps | SBRAssurance/MainWindow.xaml.cs:198-206 | the entries before it are the survivors of the two removal passes, in order |
| FileLists.AddFileNamesLast | SBRAssurance/MainWindow.xaml.cs:198-200 | after adding, only the last entry carries the new name |
| FileLists.AddFileOnlySignature | SBRAssurance/MainWindow.xaml.cs:201-206 | after adding a signature it is the only signature |
| FileLists.AddFileRemovesOnly | SBRAssurance/MainWindow.xaml.cs:198-206 | an earlier entry stays exactly when neither pass removes it |
| FileLists.AddFileConsistent | SBRAssurance/MainWindow.xaml.cs:196-210 | adding keeps names unique and at most one signature |
| FileLists.SignEnable | SBRAssurance/MainWindow.xaml.cs:73-76 | signing is offered exactly when there are files, none is a signature or missing, and all have a commitment type |
| FileLists.InCheckingMode | SBRAssurance/MainWindow.xaml.cs:328-329 | checking mode holds exactly when one entry is a signature and no other is |
| FileLists.CheckingModeIffSignature | SBRAssurance/MainWindow.xaml.cs:328-329 | in a consistent list, checking mode means holding a signature |
| FileLists.RemoveMissing | SBRAssurance/MainWindow.xaml.cs:403-405 | what remains is exactly the entries with a URI |
| FileLists.RemoveMissingKeeps | SBRAssurance/MainWindow.xaml.cs:403-405 | dropping placeholders keeps order and consistency, and changes nothing without placeholders |
| FileLists.ResolveUri | SBRAssurance/MainWindow.xaml.cs:410-414 | resolving fails exactly when two entries share the name, finds the entry's URI, and gives none for an unknown name |
| FileLists.ResolveUriFinds | SBRAssurance/MainWindow.xaml.cs:410-414 | in a consistent list a name resolves to its entry's URI |
| FileLists.Resolver | SBRAssurance/MainWindow.xaml.cs:410-414 | no contract of its own: the resolver handed to the checks; `ResolverOpens` states what it opens |
| FileLists.ResolverOpens | SBRAssurance/MainWindow.xaml.cs:410-414 | the resolver opens the entry's own URI, and an unknown name cannot be read |
| FileLists.MarkOne | SBRAssurance/MainWindow.xaml.cs:355-362 | a failing lookup leaves the list as it is; otherwise the list keeps its length or grows by one entry |
| FileLists.MarkSigned | SBRAssurance/MainWindow.xaml.cs:353-363 | the loop adds at most one entry per signed file and removes none |
| FileLists.MarkOneShape | SBRAssurance/MainWindow.xaml.cs:355-362 | one marking step changes only the check fields of the named entry, or adds a marked placeholder, and keeps a consistent list consistent |
| FileLists.MarkSignedRetains | SBRAssurance/MainWindow.xaml.cs:353-363 | the marking loop only changes check fields of existing entries |
| FileLists.MarkSignedUntouched | SBRAssurance/MainWindow.xaml.cs:353-363 | entries that no signed file names are untouched |
| FileLists.MarkSignedAdded | SBRAssurance/MainWindow.xaml.cs:356-360 | the added entries are placeholders named after signed files |
| FileLists.MarkSignedConsistent | SBRAssurance/MainWindow.xaml.cs:353-363 | from a consistent list the loop never fails and the list stays consistent |
| FileLists.MarkSignedNames | SBRAssurance/MainWindow.xaml.cs:353-363 | afterwards every signed file has an entry |
| FileLists.MarkSignedRecords | SBRAssurance/MainWindow.xaml.cs:361-362 | a signed file's entry holds the values of the file's last occurrence |
| FileLists.MarkUnreferenced | SBRAssurance/MainWindow.xaml.cs:365-366 | an entry no signed file names gets the signature's own validity when it is a signature, and no verdict otherwise; named entries are untouched |
| FileLists.ClearValidity | SBRAssurance/MainWindow.xaml.cs:394-395 | every verdict is cleared and nothing else changes |
| FileLists.RecordCheck | SBRAssurance/MainWindow.xaml.cs:353-366 | after a check the list stays consistent, each signed file shows its result and other entries show the signature's or no verdict |
| CheckViews.PolicyCheck | SBRAssurance/MainWindow.xaml.cs:343-347 | an unknown policy is not valid and two policies with the id make the lookup fail. The only match has its digest checked against the policy's URL |
| CheckViews.Verdicts | SBRAssurance/MainWindow.xaml.cs:340-350 | the verdicts are the check outcome and, when there are properties, the policy id and verdict; without properties the policy is not valid |
| CheckViews.CheckedView | SBRAssurance/MainWindow.xaml.cs:335-398 | checking only changes check fields of existing entries, and may add entries |
| CheckViews.CheckingView | SBRAssurance/MainWindow.xaml.cs:333-398 | in checking mode no entry is lost |
| CheckViews.SigningView | SBRAssurance/MainWindow.xaml.cs:400-406 | in signing mode the verdicts stay and every remaining entry has a URI |
| CheckViews.UpdateViewState | SBRAssurance/MainWindow.xaml.cs:322-408 | checking mode holds exactly with one signature; otherwise the verdicts stay and only entries with a URI remain |
| CheckViews.CheckedViewRecords | SBRAssurance/MainWindow.xaml.cs:333-366 | after a successful check of a consistent list, the verdicts come from the check and every entry shows its result |
| CheckViews.UpdateKeepsConsistent | SBRAssurance/MainWindow.xaml.cs:322-408 | updating the view keeps the list consistent in either mode |

## Left out

- Streams, files, downloads (`WebClient`, `Uri.OpenRead`), the clock and
  date formatting/parsing are function-valued parameters.
- Hashing with a transform chain (`XadesUtils.CalculateHash`),
  `SignedXml.ComputeSignature`, `CheckSignedInfo` and key extraction from
  certificates are function-valued parameters, so digest and signature
  values are not computed.
- `XadesUtils.DigestEqual` is modelled as equality of byte strings.
- `SignedXml.LoadXml` is not modelled. The parsed `SignedInfo` and
  `KeyInfo` are inputs to `ParseSignature`, and an exception from
  `CheckSignedInfo` is not modelled.
- Canonicalization is not modelled. The XPath expressions of a filter
  step and the `//namespace::*` selection are inputs: each step's selected
  nodes are given in iterator order.
- The document the parsing constructor searches is given through
  `SelectDescendant`. The XPath queries the code builds are modelled as
  child-axis steps with the predicates they use.
- XadesFiles.ParseProperties: an id containing an apostrophe is modelled
  as a malformed query (a failure), and other XPath syntax errors are not
  modelled. The code's queries are then not always malformed. The id
  `a' or 'b` gives the predicates `[@ObjectReference='#a' or 'b']` and
  `[xades:ObjectReference='#a' or 'b']` (OpenSBR/Xades/XadesFile.cs:184
  and 194), which hold for every candidate. The first `DataObjectFormat`
  and the first `CommitmentTypeIndication` are then read, whichever file
  they belong to.
- XadesFiles.GetReference: the call `resolver(_uri)` at
  OpenSBR/Xades/XadesFile.cs:109 is not modelled. A resolver that throws,
  such as a failing `OpenRead` or the window's `SingleOrDefault` over two
  entries of one name (SBRAssurance/MainWindow.xaml.cs:412), aborts
  `CreateSignature` in the code. The model builds the reference all the
  same. The stream itself plays no part, since digests are
  function-valued parameters.
- Filter2.FromArrays and Filter2.NamespacesOf:
  `XmlNamespaceManager.AddNamespace` throws for the prefix `xmlns`, for
  `xml` bound to a URI other than the XML namespace, and for another
  prefix bound to the XML or XMLNS namespace. The model adds every pair.
- Strings are sequences of Unicode scalar values. A C# string that holds
  a lone UTF-16 surrogate cannot be represented; `Uri.EscapeDataString`
  throws on one (OpenSBR/Xades/XadesFile.cs:112).
- `FromBase64String` ignoring white space inside the text is not
  modelled: such text is rejected.
- Null strings are modelled as `Option`. A null value written as inner
  text reads back as "".
- A `ds:Reference` without a `URI` attribute cannot be represented: the
  reference's `uri` is a string, never null. The code dereferences it
  (`reference.Uri[0]` at OpenSBR/Xades/XadesSignature.cs:79, and the file
  built from it at line 90) and would throw.
- A `FileEntry` without a URI is a placeholder (`FileEntries.MissingEntry`);
  no other null URI is represented.
- Filter2.ParseOp: `Enum.TryParse` also accepts the numbers "0", "1" and
  "2" for `intersect`, `subtract` and `union`, any other integer (an
  operation such as 7 that `Include` never decides,
  OpenSBR/Xades/XmlDsig/XmlDsigFilterTransform.cs:220-239), comma lists
  such as "subtract, union" (the bitwise or, 3) and names padded with
  blanks. The model rejects all of these with "Invalid transform
  parameters".
- XadesSignatures.PropertiesTarget: an id containing an apostrophe is
  modelled as a malformed query, a failure. The query the code builds at
  OpenSBR/Xades/XadesSignature.cs:81 is then not always malformed. The
  reference `#a' or 'b` gives the predicate `[@Id='a' or 'b']`, which
  holds for every `xades:SignedProperties`, so the first one in the
  document is selected.
- SignPolicies.Parse: the same holds for the preferred language spliced
  into the query at SBRAssurance/Model/SignPolicy.cs:54. The language
  `en' or 'x` is modelled as a failure, while the code's predicate then
  holds for every child of `SignPolicyIdentifier`, and the first one is
  taken as the description.
- XmlMarkup.SetInnerXml: the setter reads only text with character and
  entity references. Markup that contains elements, comments, CDATA
  sections or processing instructions is modelled as the failure
  "Markup in content is not read here.". Line-end normalization and
  the check for control characters are not modelled either.
- Filter2.WriteFilterElement: through `XmlMarkup.SetInnerXml`, an
  expression that holds well-formed element markup, such as `a<b/>`, fails
  to be written. The code's setter would parse it into a child element.
- TransformSets.LoadTransform: the framework's own transforms (XPath,
  XSLT, canonicalization, enveloped signature) are not modelled. Whether
  one accepts a list of parameter nodes is the `accepts` predicate of the
  `Registry`, and a refusal is the failure "Unknown transform has been
  encountered.".
- XmlAttributeFix.XPathTransformOutput and
  XmlAttributeFix.FilterTransformOutput: these use the corrected walk, in
  which a retained element keeps its own `xml:` attribute. The code
  overwrites it. `XPathTransformOutputAsWritten` and
  `FilterTransformOutputAsWritten` use the walk as written, and
  `OwnAttributeOverwritten` shows where the two differ.
- FileEntries.FileName: `Path.GetFileName` throwing on invalid path
  characters is not modelled.
- FileEntries.SpaceWords: the regex class `\w` is taken as ASCII letters,
  digits and `_`, which covers the enum names it is applied to.
- FileEntries.NameOf: the `Uri` class is modelled by its unescaped path and
  fragment, and an empty fragment counts as none.
- Certificate chain building and the signing-certificate fields in
  `UpdateViewState` are not modelled. This includes the exception from
  `ChainStatus.First()`.
- `UpdateViewState` takes the loaded and checked signature as a `Result`
  input. Opening the signature file is not modelled.
- The window's other handlers are not modelled: `AddFileList`,
  `Sign_Click`, `RemoveItem_Click`, the dialogs, the cursor and property
  notifications. They are event plumbing around the modelled operations.
- `SignedFileSet`, `Utils` and `About` are not part of this model.
- XadesSignatures.CreateSignature: its own contract states only that a
  created signature has properties. What it builds is stated by `CreatedParts` and
  `ParseAfterCreateSignature`.

## Findings

| source | as written | input that shows it | evidently intended | confidence | as-written member | corrected member |
|---|---|---|---|---|---|---|
| SBRAssurance/Settings.cs:28 | the preferred language is read with `.Value` of the selected element, which is always null for an element | a settings file with `<PreferredLanguage>nl</PreferredLanguage>` gives "en" | the element's inner text, "en" only when it is absent | high, not executed | AppSettings.LanguageAsWrittenIgnoresSetting | AppSettings.Language |
| OpenSBR/Xades/XmlDsig/XmlDsigNodeListFix.cs:73-81 | pending `xml:` attributes from left-out ancestors are set on a retained element with `SetAttributeNode`, replacing its own attribute of the same name | A `xml:lang="en"` left out, its retained child B with `xml:lang="nl"`: B ends with "en" | the nearer declaration wins, as in XML inheritance: B keeps "nl" | medium, not executed | XmlAttributeFix.OwnAttributeOverwritten | XmlAttributeFix.OwnAttributeKept |
| OpenSBR/Xades/XmlDsig/XmlDsigFilterTransform.cs:69-75 | every step's `XPath` element is appended to one fresh `XmlDocument`, which accepts only one document element | a filter built from two expressions and operations cannot write its parameters, so properties whose policy chain holds it cannot be created (`TransformSets.ChainXmlRejectsTwoSteps`) | one `XPath` element per step (`TransformSets.TransformXmlCorrected`) | medium, not executed | Filter2.GetInnerXmlAsWritten | Filter2.GetInnerXml |
