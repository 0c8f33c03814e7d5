/** Bytes, hexadecimal digits and the UTF-8 encoding of one character
    (the encoding `Uri.EscapeDataString` applies before percent-escaping). */
module Bytes {
  import opened Wrappers

  type byte = x: int | 0 <= x < 256

  /** Upper-case hexadecimal digit, as the escaper writes it. */
  function HexDigit(d: nat): (c: char)
    requires d < 16
    ensures ('0' <= c <= '9') || ('A' <= c <= 'F')
  {
    if d < 10 then ('0' as int + d) as char else ('A' as int + d - 10) as char
  }

  predicate IsHexDigit(c: char) {
    ('0' <= c <= '9') || ('A' <= c <= 'F') || ('a' <= c <= 'f')
  }

  /** Value of a hexadecimal digit of either case. */
  function HexValue(c: char): (v: nat)
    requires IsHexDigit(c)
    ensures v < 16
  {
    if '0' <= c <= '9' then c as int - '0' as int
    else if 'A' <= c <= 'F' then c as int - 'A' as int + 10
    else c as int - 'a' as int + 10
  }

  lemma HexValueOfHexDigit(d: nat)
    requires d < 16
    ensures HexValue(HexDigit(d)) == d
  {
  }

  // ---------------------------------------------------------------------
  // UTF-8 (RFC 3629 section 3)

  /** Number of bytes announced by a UTF-8 lead byte; 0 when `b` cannot
      start a sequence. */
  function SequenceLength(b: byte): nat {
    if b < 0x80 then 1
    else if 0xC2 <= b < 0xE0 then 2
    else if 0xE0 <= b < 0xF0 then 3
    else if 0xF0 <= b < 0xF5 then 4
    else 0
  }

  predicate IsContinuation(b: byte) {
    0x80 <= b < 0xC0
  }

  function Utf8Encode(c: char): (bs: seq<byte>)
    ensures 1 <= |bs| <= 4
    ensures SequenceLength(bs[0]) == |bs|
    ensures forall i :: 1 <= i < |bs| ==> IsContinuation(bs[i])
    ensures |bs| == 1 <==> c as int < 0x80
  {
    var cp := c as int;
    if cp < 0x80 then [cp]
    else if cp < 0x800 then [0xC0 + cp / 64, 0x80 + cp % 64]
    else if cp < 0x1_0000 then
      var t := cp / 64;
      [0xE0 + t / 64, 0x80 + t % 64, 0x80 + cp % 64]
    else
      var t := cp / 64;
      var u := t / 64;
      [0xF0 + u / 64, 0x80 + u % 64, 0x80 + t % 64, 0x80 + cp % 64]
  }

  predicate IsScalarValue(cp: int) {
    (0 <= cp < 0xD800) || (0xE000 <= cp < 0x11_0000)
  }

  /** Decodes one complete UTF-8 sequence; `None` for an ill-formed or
      overlong sequence, or one that encodes a surrogate. */
  function Utf8Decode(bs: seq<byte>): (r: Option<char>)
    ensures r.Some? ==> 1 <= |bs| <= 4
  {
    if |bs| == 0 || SequenceLength(bs[0]) != |bs| then None
    else if exists i :: 1 <= i < |bs| && !IsContinuation(bs[i]) then None
    else
      var cp := CodePoint(bs);
      var minimum: int := if |bs| == 1 then 0 else if |bs| == 2 then 0x80 else if |bs| == 3 then 0x800 else 0x1_0000;
      if minimum <= cp && IsScalarValue(cp) then Some(cp as char) else None
  }

  /** The code point a well-formed sequence of length 1 to 4 spells. */
  function CodePoint(bs: seq<byte>): int
    requires 1 <= |bs| <= 4
  {
    var b := seq(|bs|, i requires 0 <= i < |bs| => bs[i] as int);
    if |bs| == 1 then b[0]
    else if |bs| == 2 then (b[0] - 0xC0) * 64 + (b[1] - 0x80)
    else if |bs| == 3 then ((b[0] - 0xE0) * 64 + (b[1] - 0x80)) * 64 + (b[2] - 0x80)
    else (((b[0] - 0xF0) * 64 + (b[1] - 0x80)) * 64 + (b[2] - 0x80)) * 64 + (b[3] - 0x80)
  }

  lemma CodePointOfEncoding(c: char)
    ensures CodePoint(Utf8Encode(c)) == c as int
  {
    var cp := c as int;
    var t := cp / 64;
    var u := t / 64;
    assert cp == t * 64 + cp % 64;
    assert t == u * 64 + t % 64;
    assert u == (u / 64) * 64 + u % 64;
  }

  /** Decoding the encoding of a character gives the character back. */
  lemma Utf8RoundTrip(c: char)
    ensures Utf8Decode(Utf8Encode(c)) == Some(c)
  {
    CodePointOfEncoding(c);
  }
}
