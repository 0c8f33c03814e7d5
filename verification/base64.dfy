/** Base 64 encoding with padding (RFC 4648 section 4), as produced by
    `Convert.ToBase64String` and read by `Convert.FromBase64String`. */
module Base64 {
  import opened Wrappers
  import opened Bytes

  const Alphabet: string := "ABCDEFGHIJKLMNOPQRSTUVWXYZabcdefghijklmnopqrstuvwxyz0123456789+/"

  /** The alphabet character for a six-bit value (RFC 4648 table 1). */
  function CharOf(v: nat): (c: char)
    requires v < 64
    ensures c != '='
  {
    if v < 26 then ('A' as int + v) as char
    else if v < 52 then ('a' as int + v - 26) as char
    else if v < 62 then ('0' as int + v - 52) as char
    else if v == 62 then '+'
    else '/'
  }

  /** Value of an alphabet character; `None` for padding and anything
      outside the alphabet. */
  function ValueOf(c: char): (r: Option<nat>)
    ensures r.Some? ==> r.value < 64
  {
    if 'A' <= c <= 'Z' then Some(c as int - 'A' as int)
    else if 'a' <= c <= 'z' then Some(c as int - 'a' as int + 26)
    else if '0' <= c <= '9' then Some(c as int - '0' as int + 52)
    else if c == '+' then Some(62)
    else if c == '/' then Some(63)
    else None
  }

  lemma ValueOfCharOf(v: nat)
    requires v < 64
    ensures ValueOf(CharOf(v)) == Some(v)
  {
  }

  predicate IsBase64Char(c: char) {
    ValueOf(c).Some?
  }

  function Val(c: char): (v: nat)
    requires IsBase64Char(c)
    ensures v < 64
  {
    ValueOf(c).value
  }

  /** Three bytes as four characters. */
  function EncodeGroup(b0: byte, b1: byte, b2: byte): (s: string)
    ensures |s| == 4
  {
    var n := (b0 * 256 + b1) * 256 + b2;
    var t := n / 64;
    var u := t / 64;
    [CharOf(u / 64), CharOf(u % 64), CharOf(t % 64), CharOf(n % 64)]
  }

  /** Two final bytes as three characters and one `=`. */
  function EncodeTwo(b0: byte, b1: byte): (s: string)
    ensures |s| == 4
  {
    var n := (b0 * 256 + b1) * 4;
    var t := n / 64;
    [CharOf(t / 64), CharOf(t % 64), CharOf(n % 64), '=']
  }

  /** One final byte as two characters and `==`. */
  function EncodeOne(b0: byte): (s: string)
    ensures |s| == 4
  {
    var n := b0 * 16;
    [CharOf(n / 64), CharOf(n % 64), '=', '=']
  }

  /** `Convert.ToBase64String`. */
  function Encode(bs: seq<byte>): (s: string)
    ensures |s| == 4 * ((|bs| + 2) / 3)
  {
    if |bs| >= 3 then EncodeGroup(bs[0], bs[1], bs[2]) + Encode(bs[3..])
    else if |bs| == 2 then EncodeTwo(bs[0], bs[1])
    else if |bs| == 1 then EncodeOne(bs[0])
    else ""
  }

  /** Decodes one group; `isLast` allows the trailing `=` padding. */
  function DecodeGroup(g: string, isLast: bool): (r: Option<seq<byte>>)
    requires |g| == 4
    ensures r.Some? ==> 1 <= |r.value| <= 3 && (!isLast ==> |r.value| == 3)
  {
    if !IsBase64Char(g[0]) || !IsBase64Char(g[1]) then None
    else if isLast && g[2] == '=' && g[3] == '=' then
      Some([(Val(g[0]) * 64 + Val(g[1])) / 16])
    else if !IsBase64Char(g[2]) then None
    else if isLast && g[3] == '=' then
      var v := ((Val(g[0]) * 64 + Val(g[1])) * 64 + Val(g[2])) / 4;
      Some([v / 256, v % 256])
    else if !IsBase64Char(g[3]) then None
    else
      var n := ((Val(g[0]) * 64 + Val(g[1])) * 64 + Val(g[2])) * 64 + Val(g[3]);
      var w := n / 256;
      Some([w / 256, w % 256, n % 256])
  }

  /** `Convert.FromBase64String`; `None` where the source throws a
      `FormatException`. */
  function Decode(s: string): (r: Option<seq<byte>>)
    ensures r.Some? ==> |s| % 4 == 0
    ensures r.Some? ==> |r.value| <= 3 * (|s| / 4) < |r.value| + 3
    decreases |s|
  {
    if |s| == 0 then Some([])
    else if |s| < 4 then None
    else if |s| == 4 then DecodeGroup(s, true)
    else
      match DecodeGroup(s[..4], false)
      case None => None
      case Some(head) =>
        match Decode(s[4..])
        case None => None
        case Some(tail) => Some(head + tail)
  }

  /** Four alphabet characters decode to the three bytes of their 24
      bits `n`. */
  lemma DecodeDigits(c0: nat, c1: nat, c2: nat, c3: nat, n: nat, isLast: bool)
    requires c0 < 64 && c1 < 64 && c2 < 64 && c3 < 64
    requires n == ((c0 * 64 + c1) * 64 + c2) * 64 + c3
    ensures DecodeGroup([CharOf(c0), CharOf(c1), CharOf(c2), CharOf(c3)], isLast)
              == Some([n / 256 / 256, n / 256 % 256, n % 256])
  {
    ValueOfCharOf(c0);
    ValueOfCharOf(c1);
    ValueOfCharOf(c2);
    ValueOfCharOf(c3);
  }

  /** Three alphabet characters and `=` decode to the two bytes of the
      top 16 of their 18 bits `n`. */
  lemma DecodeDigitsTwo(c0: nat, c1: nat, c2: nat, n: nat)
    requires c0 < 64 && c1 < 64 && c2 < 64
    requires n == (c0 * 64 + c1) * 64 + c2
    ensures DecodeGroup([CharOf(c0), CharOf(c1), CharOf(c2), '='], true) == Some([n / 4 / 256, n / 4 % 256])
  {
    ValueOfCharOf(c0);
    ValueOfCharOf(c1);
    ValueOfCharOf(c2);
  }

  /** A number is its base 64 digits. */
  lemma SixBitDigits(n: nat)
    ensures n == (n / 64 / 64 * 64 + n / 64 % 64) * 64 + n % 64
  {
    assert n / 64 / 64 * 64 + n / 64 % 64 == n / 64;
  }

  lemma DecodeFullGroup(b0: byte, b1: byte, b2: byte, isLast: bool)
    ensures DecodeGroup(EncodeGroup(b0, b1, b2), isLast) == Some([b0, b1, b2])
  {
    var n := (b0 * 256 + b1) * 256 + b2;
    var t := n / 64;
    var u := t / 64;
    SixBitDigits(t);
    assert n == t * 64 + n % 64;
    assert u / 64 < 64;
    DecodeDigits(u / 64, u % 64, t % 64, n % 64, n, isLast);
    assert EncodeGroup(b0, b1, b2) == [CharOf(u / 64), CharOf(u % 64), CharOf(t % 64), CharOf(n % 64)];
    var w := n / 256;
    assert w == b0 * 256 + b1 && n % 256 == b2;
    assert w / 256 == b0 && w % 256 == b1;
  }

  lemma DecodeTwo(b0: byte, b1: byte)
    ensures DecodeGroup(EncodeTwo(b0, b1), true) == Some([b0, b1])
  {
    var n := (b0 * 256 + b1) * 4;
    var t := n / 64;
    SixBitDigits(n);
    assert t / 64 < 64;
    DecodeDigitsTwo(t / 64, t % 64, n % 64, n);
    assert EncodeTwo(b0, b1) == [CharOf(t / 64), CharOf(t % 64), CharOf(n % 64), '='];
    var v := n / 4;
    assert v == b0 * 256 + b1;
    assert v / 256 == b0 && v % 256 == b1;
  }

  lemma DecodeOne(b0: byte)
    ensures DecodeGroup(EncodeOne(b0), true) == Some([b0])
  {
    var n := b0 * 16;
    ValueOfCharOf(n / 64);
    ValueOfCharOf(n % 64);
    assert n / 64 * 64 + n % 64 == n;
  }

  /** Decoding undoes encoding (RFC 4648 section 4). */
  lemma {:induction false} DecodeEncode(bs: seq<byte>)
    ensures Decode(Encode(bs)) == Some(bs)
    decreases |bs|
  {
    if |bs| > 3 {
      DecodeEncode(bs[3..]);
      DecodeEncodeGroup(bs);
    } else {
      DecodeEncodeLast(bs);
    }
  }

  /** A leading full group decodes to its three bytes, ahead of the rest. */
  lemma DecodeEncodeGroup(bs: seq<byte>)
    requires |bs| > 3 && Decode(Encode(bs[3..])) == Some(bs[3..])
    ensures Decode(Encode(bs)) == Some(bs)
  {
    var g := EncodeGroup(bs[0], bs[1], bs[2]);
    assert Encode(bs) == g + Encode(bs[3..]);
    EncodeNonEmpty(bs[3..]);
    DecodeFullGroup(bs[0], bs[1], bs[2], false);
    DecodeAppend(g, Encode(bs[3..]), [bs[0], bs[1], bs[2]], bs[3..]);
    SplitThree(bs);
  }

  /** A group that decodes ahead of a rest that decodes. */
  lemma DecodeAppend(g: string, rest: string, head: seq<byte>, tail: seq<byte>)
    requires |g| == 4 && |rest| > 0
    requires DecodeGroup(g, false) == Some(head) && Decode(rest) == Some(tail)
    ensures Decode(g + rest) == Some(head + tail)
  {
    SplitAt(g, rest);
  }

  /** The last group, of one to three bytes, and the empty input. */
  lemma DecodeEncodeLast(bs: seq<byte>)
    requires |bs| <= 3
    ensures Decode(Encode(bs)) == Some(bs)
  {
    SplitThree(bs);
    if |bs| == 3 {
      assert Encode(bs) == EncodeGroup(bs[0], bs[1], bs[2]);
      DecodeFullGroup(bs[0], bs[1], bs[2], true);
      assert Decode(Encode(bs)) == DecodeGroup(Encode(bs), true);
    } else if |bs| == 2 {
      assert Encode(bs) == EncodeTwo(bs[0], bs[1]);
      DecodeTwo(bs[0], bs[1]);
      assert Decode(Encode(bs)) == DecodeGroup(Encode(bs), true);
    } else if |bs| == 1 {
      assert Encode(bs) == EncodeOne(bs[0]);
      DecodeOne(bs[0]);
      assert Decode(Encode(bs)) == DecodeGroup(Encode(bs), true);
    } else {
      assert Encode(bs) == "";
    }
  }

  /** Some bytes encode to at least one group. */
  lemma EncodeNonEmpty(bs: seq<byte>)
    requires |bs| > 0
    ensures |Encode(bs)| >= 4
  {
  }

  /** The pieces of a concatenation. */
  lemma SplitAt<T>(a: seq<T>, b: seq<T>)
    ensures (a + b)[..|a|] == a && (a + b)[|a|..] == b
  {
  }

  /** Short lists are their elements. */
  lemma SplitThree<T>(s: seq<T>)
    ensures |s| == 1 ==> [s[0]] == s
    ensures |s| == 2 ==> [s[0], s[1]] == s
    ensures |s| == 3 ==> [s[0], s[1], s[2]] == s
    ensures |s| >= 3 ==> [s[0], s[1], s[2]] + s[3..] == s
  {
  }
}
