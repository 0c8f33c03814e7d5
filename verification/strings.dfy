/** String operations of the .NET base library that the source relies on:
    decimal rendering of an `int` (`$"...{n}"`), `String.Split` with
    `RemoveEmptyEntries`, `String.Trim`, `StartsWith`. */
module Strings {

  predicate IsDigit(c: char) {
    '0' <= c <= '9'
  }

  function DigitChar(d: nat): (c: char)
    requires d < 10
    ensures IsDigit(c) && c as int - '0' as int == d
  {
    ('0' as int + d) as char
  }

  /** Decimal rendering of a non-negative integer, as string interpolation
      writes it: no sign, no leading zeros. */
  function NatToString(n: nat): (s: string)
    ensures |s| >= 1
    ensures forall i :: 0 <= i < |s| ==> IsDigit(s[i])
    ensures |s| > 1 ==> s[0] != '0'
    decreases n
  {
    if n < 10 then [DigitChar(n)] else NatToString(n / 10) + [DigitChar(n % 10)]
  }

  function DigitValue(c: char): nat
    requires IsDigit(c)
  {
    c as int - '0' as int
  }

  /** Value of a string of decimal digits. */
  function DigitsValue(s: string): nat
    requires forall i :: 0 <= i < |s| ==> IsDigit(s[i])
  {
    if |s| == 0 then 0
    else DigitsValue(s[..|s| - 1]) * 10 + DigitValue(s[|s| - 1])
  }

  /** Reading back a rendered number gives the number. */
  lemma {:induction false} DigitsValueOfNatToString(n: nat)
    ensures DigitsValue(NatToString(n)) == n
    decreases n
  {
    var s := NatToString(n);
    if n >= 10 {
      DigitsValueOfNatToString(n / 10);
      assert s[..|s| - 1] == NatToString(n / 10);
    }
  }

  /** Distinct numbers render to distinct strings. */
  lemma NatToStringInjective(m: nat, n: nat)
    requires NatToString(m) == NatToString(n)
    ensures m == n
  {
    DigitsValueOfNatToString(m);
    DigitsValueOfNatToString(n);
  }

  predicate StartsWith(s: string, prefix: string) {
    |prefix| <= |s| && s[..|prefix|] == prefix
  }

  // ---------------------------------------------------------------------
  // String.Split(separators, StringSplitOptions.RemoveEmptyEntries)

  /** Length of the leading run of non-separator characters. */
  function RunLength(s: string, seps: set<char>): (k: nat)
    ensures k <= |s|
    ensures forall i :: 0 <= i < k ==> s[i] !in seps
    ensures k < |s| ==> s[k] in seps
  {
    if |s| == 0 || s[0] in seps then 0 else 1 + RunLength(s[1..], seps)
  }

  /** The maximal separator-free runs of `s`, empty pieces dropped. */
  function Split(s: string, seps: set<char>): (pieces: seq<string>)
    ensures forall i :: 0 <= i < |pieces| ==> |pieces[i]| > 0
    ensures forall i, j :: 0 <= i < |pieces| && 0 <= j < |pieces[i]| ==> pieces[i][j] !in seps
    decreases |s|
  {
    if |s| == 0 then []
    else if s[0] in seps then Split(s[1..], seps)
    else
      var k := RunLength(s, seps);
      [s[..k]] + Split(s[k..], seps)
  }

  function Concat(pieces: seq<string>): string {
    if |pieces| == 0 then "" else pieces[0] + Concat(pieces[1..])
  }

  /** `s` with every separator character deleted. */
  function RemoveAll(s: string, seps: set<char>): string {
    if |s| == 0 then "" else (if s[0] in seps then "" else [s[0]]) + RemoveAll(s[1..], seps)
  }

  lemma RemoveAllConcat(a: string, b: string, seps: set<char>)
    ensures RemoveAll(a + b, seps) == RemoveAll(a, seps) + RemoveAll(b, seps)
  {
    if |a| > 0 {
      assert (a + b)[1..] == a[1..] + b;
      RemoveAllConcat(a[1..], b, seps);
    } else {
      assert a + b == b;
    }
  }

  lemma RemoveAllNone(a: string, seps: set<char>)
    requires forall i :: 0 <= i < |a| ==> a[i] !in seps
    ensures RemoveAll(a, seps) == a
  {
    if |a| > 0 {
      RemoveAllNone(a[1..], seps);
    }
  }

  /** Splitting loses exactly the separators: the pieces, put back
      together, are the input without its separator characters. */
  lemma {:induction false} SplitKeepsContent(s: string, seps: set<char>)
    ensures Concat(Split(s, seps)) == RemoveAll(s, seps)
    decreases |s|
  {
    if |s| > 0 {
      if s[0] in seps {
        SplitKeepsContent(s[1..], seps);
      } else {
        var k := RunLength(s, seps);
        SplitKeepsContent(s[k..], seps);
        assert s == s[..k] + s[k..];
        RemoveAllConcat(s[..k], s[k..], seps);
        RemoveAllNone(s[..k], seps);
        assert ([s[..k]] + Split(s[k..], seps))[1..] == Split(s[k..], seps);
      }
    }
  }

  /** The pieces separated by one separator character each. */
  function Join(pieces: seq<string>, sep: char): string {
    if |pieces| == 0 then ""
    else if |pieces| == 1 then pieces[0]
    else pieces[0] + [sep] + Join(pieces[1..], sep)
  }

  lemma RunLengthOfPiece(p: string, rest: string, seps: set<char>)
    requires forall i :: 0 <= i < |p| ==> p[i] !in seps
    requires |rest| == 0 || rest[0] in seps
    ensures RunLength(p + rest, seps) == |p|
  {
    if |p| > 0 {
      assert (p + rest)[1..] == p[1..] + rest;
      RunLengthOfPiece(p[1..], rest, seps);
    } else {
      assert p + rest == rest;
    }
  }

  /** Split undoes Join for non-empty, separator-free pieces. */
  lemma {:induction false} SplitJoin(pieces: seq<string>, sep: char, seps: set<char>)
    requires sep in seps
    requires forall i :: 0 <= i < |pieces| ==> |pieces[i]| > 0
    requires forall i, j :: 0 <= i < |pieces| && 0 <= j < |pieces[i]| ==> pieces[i][j] !in seps
    ensures Split(Join(pieces, sep), seps) == pieces
  {
    if |pieces| == 1 {
      var p := pieces[0];
      RunLengthOfPiece(p, "", seps);
      assert p + "" == p;
      assert p[|p|..] == "";
    } else if |pieces| > 1 {
      var p := pieces[0];
      var rest := [sep] + Join(pieces[1..], sep);
      var s := Join(pieces, sep);
      assert s == p + rest;
      RunLengthOfPiece(p, rest, seps);
      assert s[..|p|] == p;
      assert s[|p|..] == rest;
      assert rest[1..] == Join(pieces[1..], sep);
      SplitJoin(pieces[1..], sep, seps);
    }
  }

  // ---------------------------------------------------------------------
  // String.Trim()

  /** `Char.IsWhiteSpace`: Unicode space separators, line and paragraph
      separators, U+0009..U+000D and U+0085. */
  predicate IsWhiteSpace(c: char) {
    || c == ' ' || ('\t' <= c <= '\r') || c == '\U{0085}' || c == '\U{00A0}'
    || c == '\U{1680}' || ('\U{2000}' <= c <= '\U{200A}') || c == '\U{2028}' || c == '\U{2029}'
    || c == '\U{202F}' || c == '\U{205F}' || c == '\U{3000}'
  }

  /** Number of leading white-space characters. */
  function LeadingSpace(s: string): (a: nat)
    ensures a <= |s|
    ensures forall i :: 0 <= i < a ==> IsWhiteSpace(s[i])
    ensures a < |s| ==> !IsWhiteSpace(s[a])
  {
    if |s| > 0 && IsWhiteSpace(s[0]) then 1 + LeadingSpace(s[1..]) else 0
  }

  /** Index where the trailing white space of `s` begins. */
  function TrailingSpaceStart(s: string): (b: nat)
    ensures b <= |s|
    ensures forall i :: b <= i < |s| ==> IsWhiteSpace(s[i])
    ensures b > 0 ==> !IsWhiteSpace(s[b - 1])
  {
    if |s| > 0 && IsWhiteSpace(s[|s| - 1]) then TrailingSpaceStart(s[..|s| - 1]) else |s|
  }

  /** `s.Trim()`: `s` without its leading and trailing white space. */
  function Trim(s: string): (r: string)
    ensures LeadingSpace(s) == |s| ==> r == ""
    ensures LeadingSpace(s) < |s| ==>
              LeadingSpace(s) < TrailingSpaceStart(s) && r == s[LeadingSpace(s)..TrailingSpaceStart(s)]
    ensures |r| > 0 ==> !IsWhiteSpace(r[0]) && !IsWhiteSpace(r[|r| - 1])
  {
    var a := LeadingSpace(s);
    if a == |s| then ""
    else
      var b := TrailingSpaceStart(s);
      assert a < b;
      s[a..b]
  }

  /** Trimming an already trimmed string changes nothing. */
  lemma TrimIdempotent(s: string)
    ensures Trim(Trim(s)) == Trim(s)
  {
    var r := Trim(s);
    if |r| > 0 {
      assert LeadingSpace(r) == 0;
      assert TrailingSpaceStart(r) == |r|;
      assert r[0..|r|] == r;
    }
  }

  /** A string without white space at either end is its own trim. */
  lemma TrimUnchanged(s: string)
    requires |s| > 0 ==> !IsWhiteSpace(s[0]) && !IsWhiteSpace(s[|s| - 1])
    ensures Trim(s) == s
  {
    if |s| > 0 {
      assert LeadingSpace(s) == 0;
      assert TrailingSpaceStart(s) == |s|;
      assert s[0..|s|] == s;
    }
  }
}
