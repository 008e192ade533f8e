/**
 * Printable, delimiter-free text for numbers and strings. It stands in for
 * the base64url segments of a JSON Web Token: every encoded string uses only
 * lower-case hexadecimal digits and commas, so the token delimiters
 * ('.', ';', ':') and the space of an Authorization header never occur in it.
 */
module HexCodec {
  import opened Wrappers
  import opened PyText

  predicate IsHexDigit(c: char) {
    '0' <= c <= '9' || 'a' <= c <= 'f'
  }

  predicate AllHex(s: string) {
    forall i :: 0 <= i < |s| ==> IsHexDigit(s[i])
  }

  function HexDigit(d: nat): (c: char)
    requires d < 16
    ensures IsHexDigit(c)
  {
    if d < 10 then ('0' as int + d) as char else ('a' as int + d - 10) as char
  }

  function DigitValue(c: char): (d: nat)
    requires IsHexDigit(c)
    ensures d < 16
  {
    if c <= '9' then c as int - '0' as int else c as int - 'a' as int + 10
  }

  /** The value of a non-empty string of hexadecimal digits, most significant first. */
  function HexValue(s: string): nat
    requires s != [] && AllHex(s)
    decreases |s|
  {
    if |s| == 1 then DigitValue(s[0])
    else HexValue(s[..|s| - 1]) * 16 + DigitValue(s[|s| - 1])
  }

  /** `format(n, "x")`: the hexadecimal rendering of `n`, read back as `n`. */
  function Hex(n: nat): (s: string)
    ensures s != [] && AllHex(s)
    ensures HexValue(s) == n
    decreases n
  {
    if n < 16 then [HexDigit(n)]
    else
      var s := Hex(n / 16) + [HexDigit(n % 16)];
      assert s[..|s| - 1] == Hex(n / 16);
      s
  }

  /** `int(s, 16)`, failing on the empty string and on non-digits. */
  function ParseHex(s: string): Option<nat> {
    if s != [] && AllHex(s) then Some(HexValue(s)) else None
  }

  lemma ParseHexOfHex(n: nat)
    ensures ParseHex(Hex(n)) == Some(n)
  {
  }

  /** Characters the encoding of a string is made of. */
  predicate IsTextChar(c: char) {
    IsHexDigit(c) || c == ','
  }

  predicate IsScalarValue(n: nat) {
    n < 0xD800 || 0xE000 <= n < 0x11_0000
  }

  /** The code points of `s`, each in hexadecimal. */
  function CodePoints(s: string): (parts: seq<string>)
    ensures |parts| == |s|
    ensures forall i :: 0 <= i < |parts| ==> parts[i] != [] && AllHex(parts[i])
  {
    if s == [] then [] else [Hex(s[0] as int)] + CodePoints(s[1..])
  }

  /** The text of a string: its code points in hexadecimal, separated by commas. */
  function EncodeText(s: string): (t: string)
    ensures forall i :: 0 <= i < |t| ==> IsTextChar(t[i])
  {
    if s == [] then []
    else
      var parts := CodePoints(s);
      forall c | !IsTextChar(c) ensures c !in Join(parts, ',') {
        JoinAvoids(parts, ',', c);
      }
      Join(parts, ',')
  }

  function DecodeCodePoints(parts: seq<string>): Option<string> {
    if parts == [] then Some([])
    else match ParseHex(parts[0])
      case None => None
      case Some(n) =>
        if !IsScalarValue(n) then None
        else match DecodeCodePoints(parts[1..])
          case None => None
          case Some(rest) => Some([n as char] + rest)
  }

  /** The inverse of `EncodeText`; `None` for text that no string encodes to. */
  function DecodeText(t: string): Option<string> {
    if t == [] then Some([]) else DecodeCodePoints(Split(t, ','))
  }

  lemma {:induction false} DecodeCodePointsOf(s: string)
    ensures DecodeCodePoints(CodePoints(s)) == Some(s)
    decreases |s|
  {
    if s != [] {
      DecodeCodePointsOf(s[1..]);
      ParseHexOfHex(s[0] as int);
      assert [s[0]] + s[1..] == s;
    }
  }

  /** Decoding undoes encoding. */
  lemma DecodeEncodeText(s: string)
    ensures DecodeText(EncodeText(s)) == Some(s)
  {
    if s != [] {
      var parts := CodePoints(s);
      SplitJoin(parts, ',');
      DecodeCodePointsOf(s);
    }
  }

  /** Hence distinct strings have distinct encodings. */
  lemma EncodeTextInjective(s1: string, s2: string)
    requires EncodeText(s1) == EncodeText(s2)
    ensures s1 == s2
  {
    DecodeEncodeText(s1);
    DecodeEncodeText(s2);
  }
}
