/** Percent-encoding of URI components (RFC 3986 section 2.1), as done by
    `Uri.EscapeDataString` and undone by `Uri.UnescapeDataString`: every
    character outside the unreserved set (section 2.3) is written as the
    `%XX` escapes of its UTF-8 bytes, with upper-case hexadecimal digits. */
module PercentEncoding {
  import opened Wrappers
  import opened Bytes

  /** ALPHA / DIGIT / "-" / "." / "_" / "~" (RFC 3986 section 2.3). */
  predicate IsUnreserved(c: char) {
    ('A' <= c <= 'Z') || ('a' <= c <= 'z') || ('0' <= c <= '9') || c == '-' || c == '.' || c == '_' || c == '~'
  }

  function EscapeBytes(bs: seq<byte>): (s: string)
    ensures |s| == 3 * |bs|
    ensures forall i :: 0 <= i < |s| ==> IsUnreserved(s[i]) || s[i] == '%'
  {
    if |bs| == 0 then "" else ['%', HexDigit(bs[0] / 16), HexDigit(bs[0] % 16)] + EscapeBytes(bs[1..])
  }

  function EscapeChar(c: char): (s: string)
    ensures forall i :: 0 <= i < |s| ==> IsUnreserved(s[i]) || s[i] == '%'
  {
    if IsUnreserved(c) then [c] else EscapeBytes(Utf8Encode(c))
  }

  /** `Uri.EscapeDataString`. */
  function Escape(s: string): (r: string)
    ensures forall i :: 0 <= i < |r| ==> IsUnreserved(r[i]) || r[i] == '%'
  {
    if |s| == 0 then "" else EscapeChar(s[0]) + Escape(s[1..])
  }

  /** The byte written as `%XX` at the start of `s`, if any. */
  function EscapedByte(s: string): Option<byte> {
    if |s| >= 3 && s[0] == '%' && IsHexDigit(s[1]) && IsHexDigit(s[2])
    then Some(HexValue(s[1]) * 16 + HexValue(s[2]))
    else None
  }

  /** The `n` bytes written as consecutive `%XX` escapes at the start of `s`. */
  function EscapedBytes(s: string, n: nat): (r: Option<seq<byte>>)
    ensures r.Some? ==> |r.value| == n && 3 * n <= |s|
  {
    if n == 0 then Some([])
    else
      match EscapedByte(s)
      case None => None
      case Some(b) =>
        match EscapedBytes(s[3..], n - 1)
        case None => None
        case Some(rest) => Some([b] + rest)
  }

  /** The character spelled by the escape sequence at the start of `s`
      and the number of characters it occupies: one `%XX` for an ASCII
      byte, or the escapes of a complete UTF-8 sequence. */
  function DecodeAt(s: string): (r: Option<(char, nat)>)
    ensures r.Some? ==> 3 <= r.value.1 <= |s|
  {
    match EscapedByte(s)
    case None => None
    case Some(b) =>
      if b < 0x80 then Some((b as char, 3))
      else
        var n := SequenceLength(b);
        if n < 2 then None
        else
          match EscapedBytes(s, n)
          case None => None
          case Some(bs) =>
            match Utf8Decode(bs)
            case None => None
            case Some(c) => Some((c, 3 * n))
  }

  /** `Uri.UnescapeDataString`: escape sequences that spell a character are
      replaced by it; anything else is kept as written. */
  function Unescape(s: string): (r: string)
    ensures |r| <= |s|
    decreases |s|
  {
    if |s| == 0 then ""
    else
      match DecodeAt(s)
      case Some((c, k)) => [c] + Unescape(s[k..])
      case None => [s[0]] + Unescape(s[1..])
  }

  lemma EscapedBytesPrefix(bs: seq<byte>, t: string)
    ensures EscapedBytes(EscapeBytes(bs) + t, |bs|) == Some(bs)
  {
    if |bs| > 0 {
      var s := EscapeBytes(bs) + t;
      HexValueOfHexDigit(bs[0] / 16);
      HexValueOfHexDigit(bs[0] % 16);
      assert bs[0] == (bs[0] / 16) * 16 + bs[0] % 16;
      assert s[0] == '%' && s[1] == HexDigit(bs[0] / 16) && s[2] == HexDigit(bs[0] % 16);
      assert EscapedByte(s) == Some(bs[0]);
      assert s[3..] == EscapeBytes(bs[1..]) + t;
      EscapedBytesPrefix(bs[1..], t);
      assert [bs[0]] + bs[1..] == bs;
    }
  }

  /** An escaped character is decoded back from the front of any text. */
  lemma DecodeEscapedChar(c: char, t: string)
    requires !IsUnreserved(c)
    ensures DecodeAt(EscapeChar(c) + t) == Some((c, |EscapeChar(c)|))
  {
    var bs := Utf8Encode(c);
    var s := EscapeChar(c) + t;
    EscapedBytesPrefix(bs, t);
    EscapedBytesPrefix(bs[..1], EscapeBytes(bs[1..]) + t);
    assert EscapeBytes(bs) == EscapeBytes(bs[..1]) + EscapeBytes(bs[1..]);
    assert EscapedByte(s) == Some(bs[0]);
    Utf8RoundTrip(c);
  }

  /** Unescaping undoes escaping: a name written into a reference URI by
      `EscapeDataString` is read back unchanged. */
  lemma {:induction false} UnescapeEscape(s: string)
    ensures Unescape(Escape(s)) == s
  {
    if |s| > 0 {
      var e := Escape(s);
      var rest := Escape(s[1..]);
      assert e == EscapeChar(s[0]) + rest;
      if IsUnreserved(s[0]) {
        assert DecodeAt(e).None?;
        assert e[1..] == rest;
      } else {
        DecodeEscapedChar(s[0], rest);
        assert e[|EscapeChar(s[0])|..] == rest;
      }
      UnescapeEscape(s[1..]);
    }
  }

  /** Text without `%` is left alone by unescaping. */
  lemma {:induction false} UnescapePlain(s: string)
    requires forall i :: 0 <= i < |s| ==> s[i] != '%'
    ensures Unescape(s) == s
  {
    if |s| > 0 {
      assert DecodeAt(s).None?;
      UnescapePlain(s[1..]);
    }
  }
}
