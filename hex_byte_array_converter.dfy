/** The value logic of the JSON converter between a byte array and a list of
    literals such as ["0x1E", "0x97"]. The serializer is not modelled: the
    list it deserializes is given, and writing yields the list it would
    serialize. */
module HexByteArrayConverter {
  import opened Outcomes
  import opened HexText

  /** The object types the serializer may ask about. */
  datatype ClrType = ByteArrayType | ByteType | StringType | OtherType(name: string)

  /** `CanConvert`: only `byte[]`. */
  function CanConvert(objectType: ClrType): bool {
    objectType == ByteArrayType
  }

  /** The token the reader is positioned on. At the start of an array the
      serializer yields a list of strings, or null; a list element may itself
      be null. */
  datatype ArrayToken = StartArray(list: Option<seq<Option<string>>>) | OtherToken

  /** What `ReadJson` returns whenever it cannot produce an array. */
  const Fallback: seq<byte> := [0, 0, 0]

  /** One element after the prefix is stripped, as `byte.Parse` reads it;
      a null element throws at `StartsWith` (None). */
  function ParseElement(e: Option<string>): Option<byte> {
    if e.None? then None else ParseHexLiteral(e.value)
  }

  /** The elements parsed one after the other, or None at the first failure. */
  function ParseElements(items: seq<Option<string>>): Option<seq<byte>> {
    if items == [] then Some([])
    else match ParseElement(items[0])
      case None => None
      case Some(b) =>
        match ParseElements(items[1..])
        case None => None
        case Some(rest) => Some([b] + rest)
  }

  /** The list parses exactly when every element does, and then element i of
      the array is element i of the list, parsed. */
  lemma {:induction false} ParseElementsSpec(items: seq<Option<string>>)
    ensures ParseElements(items).Some? <==> forall i :: 0 <= i < |items| ==> ParseElement(items[i]).Some?
    ensures ParseElements(items).Some? ==>
              |ParseElements(items).value| == |items| &&
              forall i :: 0 <= i < |items| ==> Some(ParseElements(items).value[i]) == ParseElement(items[i])
  {
    if items != [] {
      var tail := items[1..];
      ParseElementsSpec(tail);
      var head := ParseElement(items[0]);
      if head.None? {
        assert ParseElements(items) == None;
      } else if ParseElements(tail).None? {
        assert ParseElements(items) == None;
        var j :| 0 <= j < |tail| && ParseElement(tail[j]).None?;
        assert items[j + 1] == tail[j];
      } else {
        var bytes := [head.value] + ParseElements(tail).value;
        assert ParseElements(items) == Some(bytes);
        forall i | 0 <= i < |items|
          ensures ParseElement(items[i]).Some? && Some(bytes[i]) == ParseElement(items[i])
        {
          if i > 0 {
            assert items[i] == tail[i - 1];
          }
        }
      }
    }
  }

  /** What `ReadJson` returns for a token. */
  function Decoded(token: ArrayToken): seq<byte> {
    match token
    case OtherToken => Fallback
    case StartArray(None) => Fallback
    case StartArray(Some(items)) =>
      match ParseElements(items)
      case Some(bytes) => bytes
      case None => Fallback
  }

  /** One failing element makes the whole list fail. */
  lemma ElementFailureFailsList(items: seq<Option<string>>, i: nat)
    requires i < |items| && ParseElement(items[i]).None?
    ensures Decoded(StartArray(Some(items))) == Fallback
  {
    ParseElementsSpec(items);
  }

  /** When every element parsed, the array built element by element is the
      parsed list. */
  lemma AllElementsParsed(items: seq<Option<string>>, bytes: seq<byte>)
    requires |bytes| == |items|
    requires forall k :: 0 <= k < |items| ==> ParseElement(items[k]) == Some(bytes[k])
    ensures Decoded(StartArray(Some(items))) == bytes
  {
    ParseElementsSpec(items);
    assert ParseElements(items).value == bytes;
  }

  /** The three-byte array returned when reading fails. */
  method FallbackArray() returns (byteArray: array<byte>)
    ensures fresh(byteArray) && byteArray[..] == Fallback
  {
    byteArray := new byte[3](_ => 0);
    assert byteArray[..] == [byteArray[0], byteArray[1], byteArray[2]];
  }

  /** `ReadJson`: fills an array of the list's length element by element;
      any failure (the exception is logged and swallowed), a null list or a
      token that does not start an array gives the fallback [0, 0, 0]. */
  method ReadJson(token: ArrayToken) returns (byteArray: array<byte>)
    ensures byteArray[..] == Decoded(token)
  {
    if token.StartArray? && token.list.Some? {
      var hexStrings := token.list.value;
      byteArray := new byte[|hexStrings|];
      var i := 0;
      while i < |hexStrings|
        invariant 0 <= i <= |hexStrings| && byteArray.Length == |hexStrings|
        invariant forall k :: 0 <= k < i ==> ParseElement(hexStrings[k]) == Some(byteArray[k])
      {
        var element := hexStrings[i];
        if element.None? {
          ElementFailureFailsList(hexStrings, i);
          byteArray := FallbackArray();
          return;
        }
        var hexString := element.value;
        if HasHexPrefix(hexString) {
          hexString := hexString[2..];
        }
        assert hexString == StripHexPrefix(element.value);
        var parsed := ParseHexByte(hexString);
        assert parsed == ParseElement(hexStrings[i]);
        if parsed.None? {
          ElementFailureFailsList(hexStrings, i);
          byteArray := FallbackArray();
          return;
        }
        byteArray[i] := parsed.value;
        i := i + 1;
      }
      AllElementsParsed(hexStrings, byteArray[..]);
    } else {
      byteArray := FallbackArray();
    }
  }

  /** The value handed to `WriteJson`: a byte array, or anything else. */
  datatype JsonValue = ByteArrayValue(bytes: seq<byte>) | OtherValue

  /** `WriteJson`: for a byte array, one "0x"+X2 literal per byte in index
      order; for any other value nothing is written (None). */
  method WriteJson(value: JsonValue) returns (written: Option<seq<string>>)
    ensures value.OtherValue? <==> written.None?
    ensures value.ByteArrayValue? ==>
              |written.value| == |value.bytes| &&
              forall i :: 0 <= i < |value.bytes| ==> written.value[i] == HexLiteral(value.bytes[i])
  {
    if value.OtherValue? {
      return None;
    }
    var byteArray := value.bytes;
    var hexStrings: seq<string> := [];
    for i := 0 to |byteArray|
      invariant |hexStrings| == i
      invariant forall k :: 0 <= k < i ==> hexStrings[k] == HexLiteral(byteArray[k])
    {
      hexStrings := hexStrings + [HexLiteral(byteArray[i])];
    }
    return Some(hexStrings);
  }

  /** The list a reader sees for a written array: every element present. */
  function AsTokenList(strings: seq<string>): (r: seq<Option<string>>)
    ensures |r| == |strings| && forall i :: 0 <= i < |strings| ==> r[i] == Some(strings[i])
  {
    seq(|strings|, i requires 0 <= i < |strings| => Some(strings[i]))
  }

  /** Every byte array survives a write followed by a read, the empty array
      included (it does not turn into the fallback). */
  lemma RoundTrip(bytes: seq<byte>, written: seq<string>)
    requires |written| == |bytes|
    requires forall i :: 0 <= i < |bytes| ==> written[i] == HexLiteral(bytes[i])
    ensures Decoded(StartArray(Some(AsTokenList(written)))) == bytes
  {
    var items := AsTokenList(written);
    forall i | 0 <= i < |items|
      ensures ParseElement(items[i]) == Some(bytes[i])
    {
      ParseHexLiteralRoundTrip(bytes[i]);
    }
    ParseElementsSpec(items);
  }

  /** An element with trailing '\0' characters still parses, so the list is
      not replaced by the fallback. */
  lemma TrailingNulElement()
    ensures Decoded(StartArray(Some([Some("0xAB\0"), Some("0x01")]))) == [0xAB, 0x01]
  {
    var items := [Some("0xAB\0"), Some("0x01")];
    assert StripHexPrefix("0xAB\0") == "AB\0";
    assert TrimStartWhite("AB\0") == "AB\0";
    assert TrimEndNul("AB\0") == "AB";
    assert TrimEndWhite("AB") == "AB";
    HexNumberValueOfPair("AB");
    ParseHexLiteralRoundTrip(0x01);
    assert HexLiteral(0x01) == "0x01";
    AllElementsParsed(items, [0xAB, 0x01]);
  }
}
