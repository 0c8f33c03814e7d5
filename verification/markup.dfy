/** The markup form of an element's content, `XmlNode.InnerXml`. The
    getter writes the children out, text with `&`, `<` and `>` as entity
    references. The setter parses the string as content: character data
    and references become one text node, and anything else is an error. */
module XmlMarkup {
  import opened Wrappers
  import opened Xml

  // ---------------------------------------------------------------------
  // Writing content (the getter)

  /** The reference `&name;`. */
  function Reference(name: string): string {
    "&" + name + ";"
  }

  /** How `XmlTextWriter.WriteString` writes one character of text. */
  function EscapeChar(c: char): (r: string)
    ensures |r| > 0
    ensures forall i :: 0 <= i < |r| ==> r[i] != '<' && r[i] != '>'
  {
    if c == '&' then Reference("amp")
    else if c == '<' then Reference("lt")
    else if c == '>' then Reference("gt")
    else [c]
  }

  /** Text written as markup. The result has no `<` or `>`, so it holds
      no markup and no `]]>`. */
  function EscapeText(s: string): (r: string)
    ensures |s| <= |r|
    ensures forall i :: 0 <= i < |r| ==> r[i] != '<' && r[i] != '>'
  {
    if |s| == 0 then ""
    else
      var h := EscapeChar(s[0]);
      var rest := EscapeText(s[1..]);
      assert forall i :: |h| <= i < |h + rest| ==> (h + rest)[i] == rest[i - |h|];
      h + rest
  }

  /** An attribute value as written between double quotes. */
  function EscapeAttributeValue(s: string): string {
    if |s| == 0 then ""
    else
      (if s[0] == '"' then "&quot;" else EscapeChar(s[0])) + EscapeAttributeValue(s[1..])
  }

  function AttributesXml(attrs: seq<Attribute>): string {
    if |attrs| == 0 then ""
    else " " + attrs[0].local + "=\"" + EscapeAttributeValue(attrs[0].value) + "\"" + AttributesXml(attrs[1..])
  }

  /** `XmlNode.OuterXml`. An element is written by its local name. */
  function OuterXml(n: Node): string
    decreases n, 1
  {
    match n
    case Text(d) => EscapeText(d)
    case Comment(d) => "<!--" + d + "-->"
    case Element(_, local, attrs, cs) =>
      "<" + local + AttributesXml(attrs) + ">" + InnerXml(cs) + "</" + local + ">"
  }

  /** `XmlNode.InnerXml` (get): the children written out in order. */
  function InnerXml(cs: seq<Node>): string
    decreases cs, 0
  {
    if |cs| == 0 then "" else OuterXml(cs[0]) + InnerXml(cs[1..])
  }

  // ---------------------------------------------------------------------
  // Reading content (the setter)

  const MarkupNotRead: string := "Markup in content is not read here."
  const UndeclaredReference: string := "Reference to undeclared entity or invalid character."
  const CdataEndInText: string := "']]>' is not allowed in character data."

  /** The characters XML 1.0 allows (section 2.2 of the XML 1.0
      recommendation, production [2]). */
  predicate IsXmlChar(v: int) {
    || v == 0x9 || v == 0xA || v == 0xD
    || (0x20 <= v <= 0xD7FF) || (0xE000 <= v <= 0xFFFD) || (0x1_0000 <= v <= 0x10_FFFF)
  }

  function DigitValue(c: char, hex: bool): (r: Option<nat>)
    ensures r.Some? ==> r.value < (if hex then 16 else 10)
  {
    if '0' <= c <= '9' then Some(c as nat - '0' as nat)
    else if hex && 'a' <= c <= 'f' then Some(c as nat - 'a' as nat + 10)
    else if hex && 'A' <= c <= 'F' then Some(c as nat - 'A' as nat + 10)
    else None
  }

  /** The value of a non-empty string of decimal or hexadecimal digits. */
  function NumberValue(s: string, hex: bool): Option<nat>
    decreases |s|
  {
    if |s| == 0 then None
    else
      match DigitValue(s[|s| - 1], hex)
      case None => None
      case Some(d) =>
        if |s| == 1 then Some(d)
        else
          match NumberValue(s[..|s| - 1], hex)
          case None => None
          case Some(v) => Some(v * (if hex then 16 else 10) + d)
  }

  function CodeChar(v: Option<nat>): (r: Option<char>)
    ensures r.Some? <==> v.Some? && IsXmlChar(v.value)
    ensures r.Some? ==> r.value as int == v.value
  {
    if v.Some? && IsXmlChar(v.value) then Some(v.value as char) else None
  }

  /** The character the reference `&name;` stands for: one of the five
      predefined entities (section 4.6) or a character reference `&#N;`
      or `&#xH;` to an allowed character (section 4.1). The names are
      compared character by character. */
  function ReferenceChar(name: string): (r: Option<char>)
    ensures |name| == 0 ==> r.None?
    ensures r.Some? && |name| > 0 && name[0] != '#' ==> r.value in {'&', '<', '>', '"', '\''}
  {
    if |name| == 3 && name[0] == 'a' && name[1] == 'm' && name[2] == 'p' then Some('&')
    else if |name| == 2 && name[0] == 'l' && name[1] == 't' then Some('<')
    else if |name| == 2 && name[0] == 'g' && name[1] == 't' then Some('>')
    else if |name| == 4 && name[0] == 'q' && name[1] == 'u' && name[2] == 'o' && name[3] == 't' then Some('"')
    else if |name| == 4 && name[0] == 'a' && name[1] == 'p' && name[2] == 'o' && name[3] == 's' then Some('\'')
    else if |name| >= 2 && name[0] == '#' && name[1] == 'x' then CodeChar(NumberValue(name[2..], true))
    else if |name| >= 1 && name[0] == '#' then CodeChar(NumberValue(name[1..], false))
    else None
  }

  /** The position of the first `;`. */
  function SemicolonIndex(s: string): (r: Option<nat>)
    ensures r.Some? ==> r.value < |s| && s[r.value] == ';' && forall i :: 0 <= i < r.value ==> s[i] != ';'
    ensures r.None? ==> forall i :: 0 <= i < |s| ==> s[i] != ';'
  {
    if |s| == 0 then None
    else if s[0] == ';' then Some(0)
    else
      match SemicolonIndex(s[1..])
      case None => None
      case Some(j) => Some(j + 1)
  }

  /** `s` starts with `]]>`. */
  predicate StartsCdataEnd(s: string) {
    |s| >= 3 && s[0] == ']' && s[1] == ']' && s[2] == '>'
  }

  /** The text that content without markup stands for: references are
      replaced by their characters. A `<` (markup), a reference that is
      not declared or not terminated, and `]]>` are errors. */
  function DecodeText(s: string): (r: Result<string>)
    ensures r.Success? ==> |r.value| <= |s|
    decreases |s|
  {
    if |s| == 0 then Success("")
    else if s[0] == '<' then Failure(MarkupNotRead)
    else if s[0] == '&' then
      match SemicolonIndex(s)
      case None => Failure(UndeclaredReference)
      case Some(j) =>
        match ReferenceChar(s[1..j])
        case None => Failure(UndeclaredReference)
        case Some(c) =>
          match DecodeText(s[j + 1..])
          case Failure(e) => Failure(e)
          case Success(rest) => Success([c] + rest)
    else if StartsCdataEnd(s) then Failure(CdataEndInText)
    else
      match DecodeText(s[1..])
      case Failure(e) => Failure(e)
      case Success(rest) => Success([s[0]] + rest)
  }

  /** Content in the form the getter writes: it reads back, and writing
      what it reads gives it again. */
  predicate IsEscapedText(s: string) {
    DecodeText(s).Success? && EscapeText(DecodeText(s).value) == s
  }

  /** What content reads back as once set: the written form of the text
      it stands for. Content that cannot be set is left as it is. */
  function Reread(s: string): string {
    match DecodeText(s)
    case Success(t) => EscapeText(t)
    case Failure(_) => s
  }

  /** The children `e.InnerXml = s` leaves: one text node, none for empty
      content. */
  function TextChildren(t: string): seq<Node> {
    if t == "" then [] else [Text(t)]
  }

  /** `XmlNode.InnerXml` (set) for content without markup: the children
      become the text it stands for, or the parse error is raised. */
  function SetInnerXml(e: Node, s: string): (r: Result<Node>)
    requires e.Element?
    ensures r.Success? <==> DecodeText(s).Success?
    ensures r.Success? ==> r.value.Element? && r.value.ns == e.ns && r.value.local == e.local && r.value.attrs == e.attrs
    ensures r.Success? ==> InnerText(r.value) == DecodeText(s).value
    ensures r.Success? ==> InnerXml(r.value.children) == Reread(s)
  {
    match DecodeText(s)
    case Failure(err) => Failure(err)
    case Success(t) =>
      var r := e.(children := TextChildren(t));
      assert ChildrenText(r.children) == t + ChildrenText([]) || r.children == [];
      assert InnerXml(r.children) == EscapeText(t) + InnerXml([]) || r.children == [];
      Success(r)
  }

  // ---------------------------------------------------------------------
  // Round trips

  /** A reference followed by more content. */
  lemma DecodeReference(name: string, c: char, rest: string, tail: string)
    requires ReferenceChar(name) == Some(c)
    requires forall i :: 0 <= i < |name| ==> name[i] != ';'
    requires DecodeText(rest) == Success(tail)
    ensures DecodeText(Reference(name) + rest) == Success([c] + tail)
  {
    var s := Reference(name) + rest;
    ReferenceParts(name, rest);
    ReferenceStep(s, |name| + 1, c, tail);
  }

  /** Where the parts of a reference followed by more content lie. */
  lemma ReferenceParts(name: string, rest: string)
    requires forall i :: 0 <= i < |name| ==> name[i] != ';'
    ensures var s := Reference(name) + rest;
      && |s| == |name| + 2 + |rest| && s[0] == '&'
      && SemicolonIndex(s) == Some(|name| + 1)
      && s[1..|name| + 1] == name && s[|name| + 2..] == rest
  {
    var s := Reference(name) + rest;
    assert s == "&" + (name + ";" + rest);
    SemicolonAfter(name, rest);
    assert s[1..] == name + ";" + rest;
    assert SemicolonIndex(s) == Some(|name| + 1);
  }

  /** Decoding a reference that starts the content. */
  lemma ReferenceStep(s: string, j: nat, c: char, tail: string)
    requires |s| > 0 && s[0] == '&' && j < |s|
    requires SemicolonIndex(s) == Some(j)
    requires 1 <= j && ReferenceChar(s[1..j]) == Some(c)
    requires DecodeText(s[j + 1..]) == Success(tail)
    ensures DecodeText(s) == Success([c] + tail)
  {
  }

  /** The first `;` after a prefix without one. */
  lemma {:induction false} SemicolonAfter(p: string, rest: string)
    requires forall i :: 0 <= i < |p| ==> p[i] != ';'
    ensures SemicolonIndex(p + ";" + rest) == Some(|p|)
    decreases |p|
  {
    var s := p + ";" + rest;
    if |p| > 0 {
      assert s[0] == p[0];
      assert s[1..] == p[1..] + ";" + rest;
      SemicolonAfter(p[1..], rest);
    } else {
      assert s[0] == ';';
    }
  }

  /** A character that is neither markup, a reference nor the start of
      `]]>`, followed by more content. */
  lemma DecodePlain(c: char, rest: string, tail: string)
    requires c != '&' && c != '<'
    requires !StartsCdataEnd([c] + rest)
    requires DecodeText(rest) == Success(tail)
    ensures DecodeText([c] + rest) == Success([c] + tail)
  {
    var s := [c] + rest;
    assert s[0] == c && s[1..] == rest;
    DecodeStep(s);
  }

  /** Decoding one character that starts nothing special. */
  lemma DecodeStep(s: string)
    requires |s| > 0 && s[0] != '&' && s[0] != '<' && !StartsCdataEnd(s)
    ensures DecodeText(s) == (match DecodeText(s[1..])
                              case Failure(e) => Failure(e)
                              case Success(r) => Success([s[0]] + r))
  {
  }

  /** Decoding the written form of a character that is not markup, before
      content that does not continue it into `]]>`. */
  lemma DecodeEscapedPlain(c: char, rest: string, tail: string)
    requires c != '&' && c != '<' && c != '>'
    requires !StartsCdataEnd([c] + rest)
    requires DecodeText(rest) == Success(tail)
    ensures DecodeText(EscapeChar(c) + rest) == Success([c] + tail)
  {
    assert EscapeChar(c) == [c];
    DecodePlain(c, rest, tail);
  }

  /** The entity reference written for one of `&`, `<` and `>`. */
  lemma DecodeNamed(c: char, rest: string, tail: string)
    requires c == '&' || c == '<' || c == '>'
    requires DecodeText(rest) == Success(tail)
    ensures DecodeText(EscapeChar(c) + rest) == Success([c] + tail)
  {
    var name := if c == '&' then "amp" else if c == '<' then "lt" else "gt";
    assert EscapeChar(c) == Reference(name);
    assert ReferenceChar(name) == Some(c);
    DecodeReference(name, c, rest, tail);
  }

  /** A character before content whose second character is not `>` does
      not start `]]>`. */
  lemma NoCdataEnd(c: char, rest: string)
    requires |rest| >= 2 ==> rest[1] != '>'
    ensures !StartsCdataEnd([c] + rest)
  {
    if |rest| >= 2 { assert ([c] + rest)[2] == rest[1]; }
  }

  /** Writing text and reading it back gives the text (the getter and the
      setter are inverse on text). */
  lemma {:induction false} DecodeEscape(t: string)
    ensures DecodeText(EscapeText(t)) == Success(t)
    decreases |t|
  {
    if |t| > 0 {
      var c, u := t[0], t[1..];
      DecodeEscape(u);
      var rest := EscapeText(u);
      assert EscapeText(t) == EscapeChar(c) + rest;
      if c == '&' || c == '<' || c == '>' {
        DecodeNamed(c, rest, u);
      } else {
        NoCdataEnd(c, rest);
        DecodeEscapedPlain(c, rest, u);
      }
      assert t == [c] + u;
    }
  }
}
