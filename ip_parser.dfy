/**
 * IPParser: classifies address text (IPv4 grammar first, then IPv6) and raw
 * byte arrays (by length), converting between the two forms.
 *
 * The conversions the Java code hands to java.net.InetAddress are the pure
 * functions of IPv4Text and IPv6Text. The parser holds no state, so it is a
 * module of functions here rather than an object.
 */
module IPParser {
  import opened Results
  import opened BigEndian
  import opened AddressSpaces
  import Numerals
  import IPv4Text
  import IPv6Text

  /** A parsed address: its text, its octets and the space it belongs to. */
  datatype IPAddress = IPAddress(address: string, raw: seq<Byte>, space: AddressSpace)

  /** The three ways a parse can fail (the Java code throws ParseException with these messages). */
  datatype ParseError =
    | IPv6NotConvertible       // "Could not parse given IPv6 address"
    | NotAnAddress             // "Given String is not a valid IPv4 or IPv6 address"
    | WrongByteLength(length: nat)  // "Given byte array is not 4 (IPv4) or 16 (IPv6) bytes long"

  /**
   * parse(String): the IPv4 grammar is tried first, then the IPv6 grammar; the
   * text is kept as given and the octets come from the matching grammar.
   */
  function Parse(address: string): (r: Result<IPAddress, ParseError>)
    ensures r.Ok? <==> IPv4Text.IsIPv4Address(address) || (IPv6Text.IsIPv6Address(address) && IPv6Text.Octets(address).Some?)
    ensures r.Err? ==> (r.error == NotAnAddress <==> !IPv4Text.IsIPv4Address(address) && !IPv6Text.IsIPv6Address(address))
    ensures r.Ok? ==> r.value.address == address && |r.value.raw| == r.value.space.ByteLen()
    ensures r.Ok? ==> (r.value.space == IPv4 <==> IPv4Text.IsIPv4Address(address))
  {
    if IPv4Text.IsIPv4Address(address) then
      Ok(IPAddress(address, IPv4Text.Octets(address), IPv4))
    else if IPv6Text.IsIPv6Address(address) then
      match IPv6Text.Octets(address)
      case Some(raw) => Ok(IPAddress(address, raw, IPv6))
      case None => Err(IPv6NotConvertible)
    else
      Err(NotAnAddress)
  }

  /** parse(byte[]): sixteen octets are IPv6, four are IPv4, any other length fails. */
  function ParseBytes(raw: seq<Byte>): (r: Result<IPAddress, ParseError>)
    ensures r.Ok? <==> |raw| == 4 || |raw| == 16
    ensures r.Ok? ==> r.value.raw == raw && r.value.space.ByteLen() == |raw|
    ensures r.Err? ==> r.error == WrongByteLength(|raw|)
  {
    if |raw| == 16 then Ok(IPAddress(IPv6Text.Render(raw), raw, IPv6))
    else if |raw| == 4 then Ok(IPAddress(IPv4Text.Render(raw), raw, IPv4))
    else Err(WrongByteLength(|raw|))
  }

  /** No text is in both grammars, so the order the two are tried in never matters. */
  lemma GrammarsDisjoint(s: string)
    ensures !(IPv4Text.IsIPv4Address(s) && IPv6Text.IsIPv6Address(s))
  {
    if IPv4Text.IsIPv4Address(s) {
      IPv4Text.Alphabet(s);
      if IPv6Text.IsIPv6Address(s) {
        IPv6Text.HasColon(s);
      }
    }
  }

  /**
   * Rendering the octets of a four- or sixteen-byte array and parsing the text
   * gives back the same address: same text, same octets, same space.
   */
  lemma ParseOfParseBytes(raw: seq<Byte>)
    requires |raw| == 4 || |raw| == 16
    ensures Parse(ParseBytes(raw).value.address) == Ok(ParseBytes(raw).value)
  {
    if |raw| == 4 {
      IPv4Text.RenderRoundTrip(raw);
    } else {
      var text := IPv6Text.Render(raw);
      IPv6Text.RenderRoundTrip(raw);
      GrammarsDisjoint(text);
    }
  }

  /** A segment above 255 is no IPv4 address and, having no colon, no IPv6 address either. */
  lemma RejectsOutOfRangeSegment(s: string)
    requires s == "999.1.1.1"
    ensures Parse(s) == Err(NotAnAddress)
  {
    assert s == "999" + ['.'] + "1.1.1";
    Numerals.SplitAfterField("999", '.', "1.1.1");
    IPv4Text.RejectedSegments();
    assert ':' !in s;
    if IPv6Text.IsIPv6Address(s) {
      IPv6Text.HasColon(s);
    }
  }

  /** Text with a second "::" is neither grammar's: parsing fails. */
  lemma RejectsSecondElision()
    ensures Parse("2001:db8::1::2") == Err(NotAnAddress)
  {
    var s := "2001:db8::1::2";
    assert s[4] == ':';
    if IPv4Text.IsIPv4Address(s) {
      IPv4Text.Alphabet(s);
    }
    assert IPv6Text.DoubleColonAt(s, 8) && IPv6Text.DoubleColonAt(s, 11);
    if IPv6Text.IsIPv6Address(s) {
      IPv6Text.ElisionIndexUnique(s, 8, 11);
    }
  }
}
