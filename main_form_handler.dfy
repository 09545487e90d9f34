/**
 * MainFormHandler: the coordinator between the form and the model. It
 * validates address text, lists the subnets of a network as text (parse,
 * pick the calculator for the address's space, compute, render each subnet),
 * and delegates the subnet-mask search.
 */
module MainFormHandlers {
  import opened Results
  import opened BigEndian
  import opened AddressSpaces
  import opened IPParser
  import opened SubnetCalculators
  import IPv4Text
  import IPv6Text
  import Numerals

  /** Each subnet's text, or nothing at all when any subnet fails to re-parse. */
  function RenderAll(subnets: seq<seq<Byte>>): seq<string>
  {
    if forall i | 0 <= i < |subnets| :: ParseBytes(subnets[i]).Ok? then
      seq(|subnets|, i requires 0 <= i < |subnets| => ParseBytes(subnets[i]).value.address)
    else
      []
  }

  /**
   * What calcSubnets returns: the subnets of the network as text, or an empty
   * array when parsing or the calculator fails.
   */
  function SubnetTexts(ip: string, netMask: int, subnetMask: int): seq<string>
  {
    match Parse(ip)
    case Err(_) => []
    case Ok(address) =>
      match Subnets(address.space.ByteLen(), address.raw, netMask, subnetMask)
      case Err(_) => []
      case Ok(subnets) => RenderAll(subnets)
  }

  /** Any parse or argument error collapses to an empty array. */
  lemma SubnetTextsOnError(ip: string, netMask: int, subnetMask: int)
    requires Parse(ip).Err?
      || Subnets(Parse(ip).value.space.ByteLen(), Parse(ip).value.raw, netMask, subnetMask).Err?
    ensures SubnetTexts(ip, netMask, subnetMask) == []
  {
  }

  /**
   * On success there is one text per subnet, in the calculator's order, and
   * each text parses back to exactly that subnet's octets in the same space.
   */
  lemma SubnetTextsOnSuccess(ip: string, netMask: int, subnetMask: int)
    requires Parse(ip).Ok?
    requires Subnets(Parse(ip).value.space.ByteLen(), Parse(ip).value.raw, netMask, subnetMask).Ok?
    ensures var address := Parse(ip).value;
      var subnets := Subnets(address.space.ByteLen(), address.raw, netMask, subnetMask).value;
      var texts := SubnetTexts(ip, netMask, subnetMask);
      && |texts| == |subnets|
      && forall i | 0 <= i < |texts| :: Parse(texts[i]) == Ok(IPAddress(texts[i], subnets[i], address.space))
  {
    var address := Parse(ip).value;
    var subnets := Subnets(address.space.ByteLen(), address.raw, netMask, subnetMask).value;
    assert forall i | 0 <= i < |subnets| :: |subnets[i]| == address.space.ByteLen();
    assert forall i | 0 <= i < |subnets| :: ParseBytes(subnets[i]).Ok?;
    var texts := SubnetTexts(ip, netMask, subnetMask);
    forall i | 0 <= i < |texts|
      ensures Parse(texts[i]) == Ok(IPAddress(texts[i], subnets[i], address.space))
    {
      ParseOfParseBytes(subnets[i]);
      ByteLenDeterminesSpace(ParseBytes(subnets[i]).value.space, address.space);
    }
  }

  /** Four fields joined by dots, written out. */
  lemma JoinFour(f0: string, f1: string, f2: string, f3: string)
    ensures Numerals.Join([f0, f1, f2, f3], '.') == f0 + "." + f1 + "." + f2 + "." + f3
  {
    var fields := [f0, f1, f2, f3];
    assert fields[1..] == [f1, f2, f3];
    assert [f1, f2, f3][1..] == [f2, f3];
    assert [f2, f3][1..] == [f3];
    assert Numerals.Join([f2, f3], '.') == f2 + "." + f3;
    assert Numerals.Join([f1, f2, f3], '.') == f1 + "." + (f2 + "." + f3);
    assert Numerals.Join(fields, '.') == f0 + "." + (f1 + "." + (f2 + "." + f3));
  }

  /** The dotted-decimal text of 192.168.1.x for the four subnets of the example. */
  lemma ExampleRendering(x: Byte)
    ensures IPv4Text.Render([192, 168, 1, x]) == "192.168.1." + Numerals.DecimalText(x)
  {
    Numerals.DecimalTextOfThree(192, 1, 9, 2);
    Numerals.DecimalTextOfThree(168, 1, 6, 8);
    assert Numerals.DecimalText(192) == "192" && Numerals.DecimalText(168) == "168";
    assert Numerals.DecimalText(1) == "1";
    JoinFour("192", "168", "1", Numerals.DecimalText(x));
    assert "192" + "." + "168" + "." + "1" + "." == "192.168.1.";
  }

  /** Subnet i of 192.168.1.0/24 split into /26 is 192.168.1.(64 i). */
  lemma ExampleSubnet(i: nat)
    requires i < 4
    ensures Subnets(4, [192, 168, 1, 0], 24, 26).Ok?
    ensures |Subnets(4, [192, 168, 1, 0], 24, 26).value| == 4
    ensures Subnets(4, [192, 168, 1, 0], 24, 26).value[i] == [192, 168, 1, 64 * i]
  {
    assert Pow2(2) == 4;
    SubnetsEntries(4, [192, 168, 1, 0], 24, 26);
    ExampleEntry([192, 168, 1, 64 * i], i);
  }

  /** 192.168.1.(64 i) is the network value plus i strides of 64, encoded in four bytes. */
  lemma ExampleEntry(e: seq<Byte>, i: nat)
    requires i < 4 && e == [192, 168, 1, 64 * i]
    ensures SubnetAddress(4, Value([192, 168, 1, 0]), Stride(4, 26), i) == e
  {
    var b: seq<Byte> := [192, 168, 1, 0];
    assert Stride(4, 26) == 64 by {
      assert Pow2(6) == 64;
    }
    assert Value(e) == Value(b) + i * 64 by {
      assert e[..3] == b[..3];
    }
    DivModUnique(Value(e), Pow2(32), 0, Value(e));
    EncodeOfValue(e);
  }

  /** The four texts the example is expected to give. */
  const ExampleTexts: seq<string> := ["192.168.1.0", "192.168.1.64", "192.168.1.128", "192.168.1.192"]

  lemma ExampleOctetTexts()
    ensures "192.168.1." + Numerals.DecimalText(0) == ExampleTexts[0]
    ensures "192.168.1." + Numerals.DecimalText(64) == ExampleTexts[1]
    ensures "192.168.1." + Numerals.DecimalText(128) == ExampleTexts[2]
    ensures "192.168.1." + Numerals.DecimalText(192) == ExampleTexts[3]
  {
    assert Numerals.DecimalText(0) == "0";
    Numerals.DecimalTextOfTwo(64, 6, 4);
    Numerals.DecimalTextOfThree(128, 1, 2, 8);
    Numerals.DecimalTextOfThree(192, 1, 9, 2);
  }

  /** The text of subnet i of the example. */
  lemma ExampleSubnetText(subnet: seq<Byte>, i: nat)
    requires i < 4 && subnet == [192, 168, 1, 64 * i]
    ensures ParseBytes(subnet).Ok? && ParseBytes(subnet).value.address == ExampleTexts[i]
  {
    ExampleRendering(64 * i);
    ExampleOctetTexts();
  }

  lemma ExampleParse()
    ensures Parse(ExampleTexts[0]) == Ok(IPAddress(ExampleTexts[0], [192, 168, 1, 0], IPv4))
  {
    ExampleRendering(0);
    ExampleOctetTexts();
    IPv4Text.RenderRoundTrip([192, 168, 1, 0]);
  }

  lemma ExampleRenderAll()
    ensures Subnets(4, [192, 168, 1, 0], 24, 26).Ok?
    ensures RenderAll(Subnets(4, [192, 168, 1, 0], 24, 26).value) == ExampleTexts
  {
    ExampleSubnet(0);
    var subnets := Subnets(4, [192, 168, 1, 0], 24, 26).value;
    forall i | 0 <= i < 4
      ensures ParseBytes(subnets[i]).Ok? && ParseBytes(subnets[i]).value.address == ExampleTexts[i]
    {
      ExampleSubnet(i);
      ExampleSubnetText(subnets[i], i);
    }
  }

  /** 192.168.1.0 split from /24 into /26 gives the four quarter networks, in order. */
  lemma SubnetTextsExample()
    ensures SubnetTexts("192.168.1.0", 24, 26) == ExampleTexts
  {
    ExampleParse();
    ExampleRenderAll();
  }

  /** The handler of the form, with one calculator per address space. */
  class MainFormHandler {
    const calculators: map<AddressSpace, SubnetCalculator>

    /** Every space has a calculator, and that calculator works on the space's width. */
    predicate Valid()
    {
      forall space: AddressSpace ::
        space in calculators && calculators[space].Valid() && calculators[space].addressLen == space.ByteLen()
    }

    constructor(calculators: map<AddressSpace, SubnetCalculator>)
      ensures this.calculators == calculators
    {
      this.calculators := calculators;
    }

    /** The wiring of the application: a 4-byte calculator for IPv4 and a 16-byte one for IPv6. */
    static method Wired() returns (handler: MainFormHandler)
      ensures handler.Valid()
      ensures handler.calculators[IPv4].addressLen == 4 && handler.calculators[IPv6].addressLen == 16
    {
      var ipv4Calculator := new SubnetCalculator(IPv4.ByteLen());
      var ipv6Calculator := new SubnetCalculator(IPv6.ByteLen());
      handler := new MainFormHandler(map[IPv4 := ipv4Calculator, IPv6 := ipv6Calculator]);
      forall space: AddressSpace
        ensures space in handler.calculators && handler.calculators[space].Valid()
        ensures handler.calculators[space].addressLen == space.ByteLen()
      {
        match space
        case IPv4 =>
        case IPv6 =>
      }
    }

    /** isValidIP: true exactly when the text parses. */
    function IsValidIP(ip: string): (valid: bool)
      ensures valid <==> Parse(ip).Ok?
      ensures valid <==>
        IPv4Text.IsIPv4Address(ip) || (IPv6Text.IsIPv6Address(ip) && IPv6Text.Octets(ip).Some?)
    {
      Parse(ip).Ok?
    }

    /**
     * calcSubnets: parse the text, compute the subnets with the calculator of
     * its space, and render each subnet as text; any failure gives an empty array.
     */
    method CalcSubnets(ip: string, netMask: int, subnetMask: int) returns (texts: seq<string>)
      requires Valid()
      ensures texts == SubnetTexts(ip, netMask, subnetMask)
    {
      var parsed := Parse(ip);
      if parsed.Err? {
        return [];
      }
      var address := parsed.value;
      var calculator := calculators[address.space];
      var subnets := calculator.CalcSubnetsForNetwork(address.raw, netMask, subnetMask);
      if subnets.Err? {
        return [];
      }
      var entries := subnets.value;
      var subnetsAsStrings := new string[|entries|];
      for i := 0 to |entries|
        invariant forall j | 0 <= j < i ::
          ParseBytes(entries[j]).Ok? && subnetsAsStrings[j] == ParseBytes(entries[j]).value.address
      {
        var reparsed := ParseBytes(entries[i]);
        if reparsed.Err? {
          return [];
        }
        subnetsAsStrings[i] := reparsed.value.address;
      }
      texts := subnetsAsStrings[..];
      assert texts == RenderAll(entries);
    }

    /** calcSubnetMask: the calculator's answer, its argument errors passed on unchanged. */
    method CalcSubnetMask(netMask: int, amountOfNetworks: int) returns (r: Result<int, CalcError>)
      ensures r == SubnetMaskFor(netMask, amountOfNetworks)
    {
      r := SubnetCalculator.CalcSubnetMaskForNetwork(netMask, amountOfNetworks);
    }
  }
}
