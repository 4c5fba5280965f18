/** Hexadecimal text shared by the converters, the device profile and the hex
    reader: C#'s `byte`, the `X2` format specifier, and `byte.Parse` with
    `NumberStyles.HexNumber`. */
module HexText {
  import opened Outcomes

  /** An unsigned 8-bit value, as C#'s `byte`. */
  type byte = x: int | 0 <= x < 256

  predicate IsUpperHexDigit(c: char) {
    '0' <= c <= '9' || 'A' <= c <= 'F'
  }

  /** The digits `NumberStyles.HexNumber` accepts, in either case. */
  predicate IsHexDigit(c: char) {
    IsUpperHexDigit(c) || 'a' <= c <= 'f'
  }

  function DigitValue(c: char): (v: nat)
    requires IsHexDigit(c)
    ensures v < 16
  {
    if '0' <= c <= '9' then c as int - '0' as int
    else if 'A' <= c <= 'F' then c as int - 'A' as int + 10
    else c as int - 'a' as int + 10
  }

  /** The upper-case digit of a value below 16. */
  function UpperDigit(v: nat): (c: char)
    requires v < 16
    ensures IsUpperHexDigit(c) && DigitValue(c) == v
  {
    if v < 10 then ('0' as int + v) as char else ('A' as int + v - 10) as char
  }

  /** `$"{b:X2}"`: exactly two upper-case digits, high nibble first. */
  function FormatX2(b: byte): (s: string)
    ensures |s| == 2 && IsUpperHexDigit(s[0]) && IsUpperHexDigit(s[1])
    ensures 16 * DigitValue(s[0]) + DigitValue(s[1]) == b
  {
    [UpperDigit(b / 16), UpperDigit(b % 16)]
  }

  lemma FormatX2Injective(a: byte, b: byte)
    requires FormatX2(a) == FormatX2(b)
    ensures a == b
  {
    assert 16 * DigitValue(FormatX2(a)[0]) + DigitValue(FormatX2(a)[1]) == a;
  }

  /** `$"0x{b:X2}"`, the literal both converters write. */
  function HexLiteral(b: byte): (s: string)
    ensures |s| == 4 && s[0] == '0' && s[1] == 'x'
    ensures IsUpperHexDigit(s[2]) && IsUpperHexDigit(s[3])
    ensures 16 * DigitValue(s[2]) + DigitValue(s[3]) == b
  {
    "0x" + FormatX2(b)
  }

  /** `s.StartsWith("0x", StringComparison.OrdinalIgnoreCase)`. */
  predicate HasHexPrefix(s: string) {
    |s| >= 2 && s[0] == '0' && (s[1] == 'x' || s[1] == 'X')
  }

  /** Removes one leading "0x" or "0X", as `Substring(2)` does after the test. */
  function StripHexPrefix(s: string): (t: string)
    ensures HasHexPrefix(s) ==> s == s[..2] + t
    ensures !HasHexPrefix(s) ==> t == s
  {
    if HasHexPrefix(s) then s[2..] else s
  }

  /** The white space .NET number parsing skips: U+0009 to U+000D and U+0020. */
  predicate IsWhite(c: char) {
    c == ' ' || '\t' <= c <= '\r'
  }

  function TrimStartWhite(s: string): string {
    if s != [] && IsWhite(s[0]) then TrimStartWhite(s[1..]) else s
  }

  function TrimEndWhite(s: string): string {
    if s != [] && IsWhite(s[|s| - 1]) then TrimEndWhite(s[..|s| - 1]) else s
  }

  /** Strips the '\0' characters .NET number parsing accepts at the very end
      of the text, after any trailing white space. */
  function TrimEndNul(s: string): string {
    if s != [] && s[|s| - 1] == '\0' then TrimEndNul(s[..|s| - 1]) else s
  }

  predicate AllHexDigits(s: string) {
    forall i :: 0 <= i < |s| ==> IsHexDigit(s[i])
  }

  /** The number a run of hex digits denotes, most significant digit first. */
  function HexNumberValue(digits: string): nat
    requires AllHexDigits(digits)
  {
    if digits == [] then 0
    else 16 * HexNumberValue(digits[..|digits| - 1]) + DigitValue(digits[|digits| - 1])
  }

  /** `byte.Parse(s, NumberStyles.HexNumber)`: optional white space, one or
      more hex digits of either case, optional white space, then any number
      of '\0' characters, and a value that fits a byte. None stands for the
      FormatException or OverflowException. */
  function ParseHexByte(s: string): Option<byte> {
    var digits := TrimEndWhite(TrimEndNul(TrimStartWhite(s)));
    if digits != [] && AllHexDigits(digits) && HexNumberValue(digits) < 256 then
      Some(HexNumberValue(digits))
    else None
  }

  /** Both converters' value logic: strip the prefix, then parse. */
  function ParseHexLiteral(s: string): Option<byte> {
    ParseHexByte(StripHexPrefix(s))
  }

  lemma {:induction false} HexNumberValueOfPair(s: string)
    requires |s| == 2 && AllHexDigits(s)
    ensures HexNumberValue(s) == 16 * DigitValue(s[0]) + DigitValue(s[1])
  {
    assert s[..1][..0] == [];
    assert HexNumberValue(s[..1]) == DigitValue(s[0]);
  }

  /** Reading back what `X2` wrote gives the byte again. */
  lemma ParseFormatX2(b: byte)
    ensures ParseHexByte(FormatX2(b)) == Some(b)
  {
    var s := FormatX2(b);
    assert TrimStartWhite(s) == s;
    assert TrimEndNul(s) == s;
    assert TrimEndWhite(s) == s;
    HexNumberValueOfPair(s);
  }

  /** Reading back a written literal gives the byte again. */
  lemma ParseHexLiteralRoundTrip(b: byte)
    ensures ParseHexLiteral(HexLiteral(b)) == Some(b)
  {
    assert StripHexPrefix(HexLiteral(b)) == FormatX2(b);
    ParseFormatX2(b);
  }
}
