/** The value logic of the JSON converter between a byte and a literal such
    as "0xAA". The JSON reader and writer themselves are not modelled: a
    token is given as its kind and text, and writing yields the string value. */
module HexByteConverter {
  import opened Outcomes
  import opened HexText

  /** The token the reader is positioned on: a string token with its text,
      or any other kind of token (number, null, start of an object, ...). */
  datatype JsonToken = StringToken(text: string) | OtherToken

  /** `ReadJson`: a string token is stripped of one "0x" (either case) and
      parsed as hex; a non-string token, or a failed parse (the exception is
      logged and swallowed), gives 0x00. */
  function ReadJson(token: JsonToken): (b: byte)
    ensures token.OtherToken? ==> b == 0
    ensures token.StringToken? && ParseHexLiteral(token.text).None? ==> b == 0
    ensures token.StringToken? && ParseHexLiteral(token.text).Some? ==>
              b == ParseHexLiteral(token.text).value
  {
    match token
    case OtherToken => 0
    case StringToken(text) =>
      match ParseHexLiteral(text)
      case Some(v) => v
      case None => 0
  }

  /** `WriteJson`: the value written for a byte. */
  function WriteJson(b: byte): (s: string)
    ensures |s| == 4 && s[..2] == "0x"
    ensures IsUpperHexDigit(s[2]) && IsUpperHexDigit(s[3])
    ensures 16 * DigitValue(s[2]) + DigitValue(s[3]) == b
  {
    HexLiteral(b)
  }

  /** Every byte survives a write followed by a read. */
  lemma RoundTrip(b: byte)
    ensures ReadJson(StringToken(WriteJson(b))) == b
  {
    ParseHexLiteralRoundTrip(b);
  }

  /** The prefix test ignores case: "0X.." reads like "0x..". */
  lemma PrefixIgnoresCase(digits: string)
    ensures ReadJson(StringToken("0X" + digits)) == ReadJson(StringToken("0x" + digits))
  {
    assert StripHexPrefix("0X" + digits) == digits;
    assert StripHexPrefix("0x" + digits) == digits;
  }

  /** Only one prefix is stripped: "0x0x12" does not parse and reads as 0x00. */
  lemma SecondPrefixNotStripped()
    ensures ReadJson(StringToken("0x0x12")) == 0
  {
    var rest := StripHexPrefix("0x0x12");
    assert rest == "0x12";
    assert !IsHexDigit(rest[1]);
    assert TrimStartWhite(rest) == rest;
    assert TrimEndNul(rest) == rest;
    assert TrimEndWhite(rest) == rest;
    assert !AllHexDigits(rest);
  }

  /** The prefix is optional and lower-case digits parse: "ab" reads as 0xAB. */
  lemma BareLowerCaseDigits()
    ensures ReadJson(StringToken("ab")) == 0xAB
  {
    assert StripHexPrefix("ab") == "ab";
    assert TrimStartWhite("ab") == "ab";
    assert TrimEndNul("ab") == "ab";
    assert TrimEndWhite("ab") == "ab";
    HexNumberValueOfPair("ab");
  }

  /** A value that does not fit a byte reads as 0x00, not as an error. */
  lemma OutOfRangeReadsZero()
    ensures ReadJson(StringToken("0x100")) == 0
  {
    var rest := StripHexPrefix("0x100");
    assert rest == "100";
    assert TrimStartWhite(rest) == rest;
    assert TrimEndNul(rest) == rest;
    assert TrimEndWhite(rest) == rest;
    assert rest[..2] == "10";
    HexNumberValueOfPair("10");
    assert HexNumberValue(rest) == 256;
  }

  /** Trailing '\0' characters after the digits and any white space are
      accepted: "0xAB \0\0" reads as 0xAB. */
  lemma TrailingNulsAccepted()
    ensures ReadJson(StringToken("0xAB \0\0")) == 0xAB
  {
    var rest := StripHexPrefix("0xAB \0\0");
    assert rest == "AB \0\0";
    assert TrimStartWhite(rest) == rest;
    assert TrimEndNul(rest) == "AB ";
    assert TrimEndWhite("AB ") == "AB";
    HexNumberValueOfPair("AB");
  }

  /** White space may not follow the '\0' characters: "0xAB\0 " reads as 0x00. */
  lemma WhiteAfterNulRejected()
    ensures ReadJson(StringToken("0xAB\0 ")) == 0
  {
    var rest := StripHexPrefix("0xAB\0 ");
    assert rest == "AB\0 ";
    assert TrimStartWhite(rest) == rest;
    assert TrimEndNul(rest) == rest;
    assert TrimEndWhite(rest) == "AB\0";
    assert !IsHexDigit("AB\0"[2]);
  }
}
