/**
 * Two places where SubnetCalculator computes something other than what it
 * evidently means, modelled as written so the difference can be stated.
 *
 * 1. calcSubnetsForNetwork reads the network address with new BigInteger(bytes),
 *    a two's-complement number, and emits each subnet with toByteArray, the
 *    SHORTEST two's-complement encoding. The result array is allocated with
 *    ADDRESS_LEN bytes per entry, and the handler re-parses each entry as an
 *    address of 4 or 16 bytes. Whenever an entry's shortest encoding has another
 *    length (network 0.0.0.0 gives a 1-byte first entry), the whole answer of
 *    calcSubnets is an empty array. The model (SubnetCalculators.Subnets) writes
 *    every entry in exactly ADDRESS_LEN bytes; where toByteArray does give
 *    ADDRESS_LEN bytes, both agree.
 *
 * 2. calcSubnetMaskForNetwork compares (int) Math.pow(2, k) - 2 with the
 *    requested count. The cast saturates at Integer.MAX_VALUE for k >= 31, so
 *    2^31 - 2 or more subnets can never be reached and the loop does not end.
 *    The model (SubnetCalculators.SubnetMaskFor) uses exact powers and answers.
 */
module AsWritten {
  import opened Results
  import opened BigEndian
  import opened SubnetCalculators
  import opened IPParser
  import MainFormHandlers
  import IPv4Text

  /** Integer.MAX_VALUE. */
  const IntMax: int := 0x7fff_ffff

  /** 2^(8n - 1): the magnitude bound of an n-byte two's-complement number. */
  function Half(n: nat): int
    requires n >= 1
  {
    Pow2(8 * n - 1)
  }

  lemma HalfStep(n: nat)
    requires n >= 1
    ensures Half(n + 1) == 256 * Half(n)
    ensures Pow2(8 * n) == 2 * Half(n)
  {
    Pow2Add(8 * n - 1, 8);
    assert Pow2(8) == 256;
  }

  lemma HalfWeight(n: nat)
    requires n >= 1
    ensures Half(n) == 128 * Pow2(8 * (n - 1))
  {
    Pow2Add(7, 8 * (n - 1));
    assert Pow2(7) == 128;
  }

  lemma MulLe(x: int, y: int, w: int)
    requires x <= y && 0 <= w
    ensures x * w <= y * w
  {
    assert y * w - x * w == (y - x) * w;
  }

  /** new BigInteger(bytes): the bytes read as a big-endian two's-complement number. */
  function SignedValue(b: seq<Byte>): int
  {
    if |b| > 0 && b[0] >= 128 then Value(b) - Pow2(8 * |b|) else Value(b)
  }

  /**
   * SignedValue is the two's-complement reading: congruent to the unsigned
   * value, within the signed range of the width, and negative exactly when
   * the top bit is set.
   */
  lemma SignedValueMeaning(b: seq<Byte>)
    requires |b| >= 1
    ensures SignedValue(b) % Pow2(8 * |b|) == Value(b)
    ensures -Half(|b|) <= SignedValue(b) < Half(|b|)
    ensures SignedValue(b) < 0 <==> b[0] >= 128
  {
    var n := |b|;
    ValueFirst(b);
    HalfStep(n);
    HalfWeight(n);
    SignedArith(Value(b), Pow2(8 * n), Half(n), b[0], Pow2(8 * (n - 1)), Value(b[1..]));
  }

  /** The arithmetic of SignedValueMeaning, over plain integers. */
  lemma SignedArith(v: int, p: int, h: int, top: int, w: int, low: int)
    requires 0 <= top < 256 && 0 <= low < w && v == top * w + low
    requires h == 128 * w && p == 2 * h
    ensures var x := if top >= 128 then v - p else v;
      && x % p == v
      && -h <= x < h
      && (x < 0 <==> top >= 128)
  {
    TopByteRange(top, w, low);
    DivModUnique(v, p, 0, v);
    if top >= 128 {
      ModShift(v, -1, p);
    }
  }

  /** A number whose top byte is t is at least half the range exactly when t >= 128. */
  lemma TopByteRange(t: int, w: int, low: int)
    requires 0 <= t < 256 && 0 <= low < w
    ensures t >= 128 ==> 128 * w <= t * w + low
    ensures t < 128 ==> t * w + low < 128 * w
    ensures t * w + low < 256 * w
  {
    MulLe(t, 255, w);
    if t >= 128 {
      MulLe(128, t, w);
    } else {
      MulLe(t, 127, w);
    }
  }

  /** BigInteger.toByteArray: the shortest two's-complement big-endian encoding of v. */
  function ToByteArray(v: int): (b: seq<Byte>)
    ensures |b| >= 1
    decreases if v < 0 then -v else v
  {
    if -128 <= v < 128 then [v % 256] else ToByteArray(v / 256) + [v % 256]
  }

  /** The bytes of ToByteArray(v), read unsigned, are v reduced modulo their width. */
  lemma {:induction false} ToByteArrayValue(v: int)
    ensures Value(ToByteArray(v)) == v % Pow2(8 * |ToByteArray(v)|)
    decreases if v < 0 then -v else v
  {
    var b := ToByteArray(v);
    if -128 <= v < 128 {
      assert Pow2(8) == 256;
      assert b[..0] == [];
    } else {
      var high := ToByteArray(v / 256);
      var n := |high|;
      ToByteArrayValue(v / 256);
      assert b == high + [v % 256] && b[..n] == high && |b| == n + 1;
      Pow2Byte(n);
      ModOfByteShift(v, Pow2(8 * n));
    }
  }

  /**
   * v lies in the signed range of ToByteArray(v)'s length, and not in the
   * range of any shorter length: the encoding is the shortest.
   */
  lemma {:induction false} ToByteArrayShortest(v: int)
    ensures var n := |ToByteArray(v)|;
      && -Half(n) <= v < Half(n)
      && (n > 1 ==> !(-Half(n - 1) <= v < Half(n - 1)))
    decreases if v < 0 then -v else v
  {
    if -128 <= v < 128 {
      assert Half(1) == 128;
    } else {
      var n := |ToByteArray(v / 256)|;
      ToByteArrayShortest(v / 256);
      assert |ToByteArray(v)| == n + 1;
      HalfStep(n);
      ShiftInside(v, Half(n), Half(n + 1));
      if n > 1 {
        HalfStep(n - 1);
        ShiftOutside(v, Half(n - 1), Half(n));
      } else {
        assert Half(1) == 128;
      }
    }
  }

  /** v lies in [-256 h, 256 h) when v / 256 lies in [-h, h). */
  lemma ShiftInside(v: int, h: int, h1: int)
    requires h1 == 256 * h && -h <= v / 256 < h
    ensures -h1 <= v < h1
  {
    assert v == 256 * (v / 256) + v % 256;
  }

  /** v lies outside [-256 h, 256 h) when v / 256 lies outside [-h, h). */
  lemma ShiftOutside(v: int, h0: int, h: int)
    requires h == 256 * h0 && !(-h0 <= v / 256 < h0)
    ensures !(-h <= v < h)
  {
    assert v == 256 * (v / 256) + v % 256;
  }

  /** Subnet i as the Java code emits it. */
  function EntryAsWritten(addressLen: nat, networkIP: seq<Byte>, subnetMask: int, i: nat): seq<Byte>
    requires subnetMask <= ByteBits * addressLen
  {
    ToByteArray(SignedValue(networkIP) + i * Stride(addressLen, subnetMask))
  }

  /** calcSubnetsForNetwork as written: the same checks, entries from toByteArray. */
  function SubnetsAsWritten(addressLen: nat, networkIP: seq<Byte>, netMask: int, subnetMask: int)
    : (r: Result<seq<seq<Byte>>, CalcError>)
    ensures r.Err? <==> Subnets(addressLen, networkIP, netMask, subnetMask).Err?
    ensures r.Err? ==> r == Subnets(addressLen, networkIP, netMask, subnetMask)
    ensures r.Ok? ==> |r.value| == |Subnets(addressLen, networkIP, netMask, subnetMask).value|
  {
    match Subnets(addressLen, networkIP, netMask, subnetMask)
    case Err(e) => Err(e)
    case Ok(subnets) =>
      SubnetsEntries(addressLen, networkIP, netMask, subnetMask);
      Ok(seq(|subnets|, i requires 0 <= i => EntryAsWritten(addressLen, networkIP, subnetMask, i)))
  }

  /** Wherever toByteArray happens to give ADDRESS_LEN bytes, it gives the model's bytes. */
  lemma AsWrittenAgreesAtFullWidth(addressLen: nat, networkIP: seq<Byte>, netMask: int, subnetMask: int, i: nat)
    requires SubnetsAsWritten(addressLen, networkIP, netMask, subnetMask).Ok?
    requires i < |SubnetsAsWritten(addressLen, networkIP, netMask, subnetMask).value|
    requires |SubnetsAsWritten(addressLen, networkIP, netMask, subnetMask).value[i]| == addressLen
    ensures SubnetsAsWritten(addressLen, networkIP, netMask, subnetMask).value[i]
         == Subnets(addressLen, networkIP, netMask, subnetMask).value[i]
  {
    var offset := i * Stride(addressLen, subnetMask);
    var x := SignedValue(networkIP) + offset;
    var written := ToByteArray(x);
    var entry := Subnets(addressLen, networkIP, netMask, subnetMask).value[i];
    assert SubnetsAsWritten(addressLen, networkIP, netMask, subnetMask).value[i] == written;
    assert |networkIP| == addressLen == |written| >= 1;
    WrittenValue(networkIP, offset);
    EntryValue(addressLen, networkIP, netMask, subnetMask, i);
    ValueInjective(written, entry);
  }

  /**
   * When toByteArray gives as many bytes as the network has, they read as the
   * unsigned network value plus the offset, reduced to the network's width.
   */
  lemma WrittenValue(networkIP: seq<Byte>, offset: nat)
    requires |networkIP| >= 1
    requires |ToByteArray(SignedValue(networkIP) + offset)| == |networkIP|
    ensures Value(ToByteArray(SignedValue(networkIP) + offset))
         == (Value(networkIP) + offset) % Pow2(ByteBits * |networkIP|)
  {
    var m := Pow2(ByteBits * |networkIP|);
    var x := SignedValue(networkIP) + offset;
    ToByteArrayValue(x);
    SignedValueMeaning(networkIP);
    // the signed reading is congruent to the unsigned one modulo 2^bits
    CongruentSum(SignedValue(networkIP), Value(networkIP), offset, x, m);
  }

  /** Adding the same offset to two congruent numbers keeps them congruent. */
  lemma CongruentSum(s: int, v: int, offset: int, x: int, m: int)
    requires 0 < m && s % m == v && x == s + offset
    ensures x % m == (v + offset) % m
  {
    ModAddMod(s, offset, x, m);
  }

  /** calcSubnets as written: the handler over the as-written calculator. */
  function SubnetTextsAsWritten(ip: string, netMask: int, subnetMask: int): seq<string>
  {
    match Parse(ip)
    case Err(_) => []
    case Ok(address) =>
      match SubnetsAsWritten(address.space.ByteLen(), address.raw, netMask, subnetMask)
      case Err(_) => []
      case Ok(subnets) => MainFormHandlers.RenderAll(subnets)
  }

  lemma ZeroNetworkParse()
    ensures Parse("0.0.0.0") == Ok(IPAddress("0.0.0.0", [0, 0, 0, 0], AddressSpaces.IPv4))
  {
    MainFormHandlers.JoinFour("0", "0", "0", "0");
    assert Numerals.DecimalText(0) == "0";
    assert "0" + "." + "0" + "." + "0" + "." + "0" == "0.0.0.0";
    IPv4Text.RenderRoundTrip([0, 0, 0, 0]);
  }

  /**
   * Network 0.0.0.0/24 split into /26: as written, the first subnet comes out
   * as the single byte 0, which no address has, so calcSubnets answers with
   * an empty array.
   */
  lemma ZeroNetworkAsWritten()
    ensures SubnetsAsWritten(4, [0, 0, 0, 0], 24, 26).Ok?
    ensures SubnetsAsWritten(4, [0, 0, 0, 0], 24, 26).value[0] == [0]
    ensures ParseBytes([0]) == Err(WrongByteLength(1))
    ensures SubnetTextsAsWritten("0.0.0.0", 24, 26) == []
  {
    ZeroNetworkFirstEntry();
    ZeroNetworkParse();
  }

  /** The first entry as written: toByteArray of 0 is the single byte 0. */
  lemma ZeroNetworkFirstEntry()
    ensures SubnetsAsWritten(4, [0, 0, 0, 0], 24, 26).Ok?
    ensures SubnetsAsWritten(4, [0, 0, 0, 0], 24, 26).value[0] == [0]
  {
    assert Pow2(2) == 4;
    SubnetsEntries(4, [0, 0, 0, 0], 24, 26);
    ZeroValue();
    assert EntryAsWritten(4, [0, 0, 0, 0], 26, 0) == ToByteArray(0) == [0];
  }

  lemma ZeroValue()
    ensures Value([0, 0, 0, 0]) == 0
  {
    var zero: seq<Byte> := [0, 0, 0, 0];
    assert Value([0]) == 0 by { assert [0][..0] == []; }
    assert Value([0, 0]) == 0 by { assert [0, 0][..1] == [0]; }
    assert Value([0, 0, 0]) == 0 by { assert [0, 0, 0][..2] == [0, 0]; }
    assert Value(zero) == 0 by { assert zero[..3] == [0, 0, 0]; }
  }

  /**
   * The same request in the model: four 4-byte subnets, each re-parsing to
   * itself, so calcSubnets answers with four texts.
   */
  lemma ZeroNetworkCorrected()
    ensures Subnets(4, [0, 0, 0, 0], 24, 26).Ok?
    ensures Subnets(4, [0, 0, 0, 0], 24, 26).value[0] == [0, 0, 0, 0]
    ensures |MainFormHandlers.SubnetTexts("0.0.0.0", 24, 26)| == 4
  {
    assert Pow2(2) == 4;
    FirstEntryIsBase(4, [0, 0, 0, 0], 24, 26);
    ZeroNetworkParse();
    MainFormHandlers.SubnetTextsOnSuccess("0.0.0.0", 24, 26);
  }

  /** (int) Math.pow(2, k): exact up to 2^30, Integer.MAX_VALUE from k = 31 on, 0 below k = 0. */
  function JavaIntPow2(k: int): (r: int)
    ensures 0 <= r <= IntMax
    ensures 0 <= k <= 30 ==> r == Pow2(k)
  {
    if k < 0 then 0
    else if k >= 31 then IntMax
    else
      Pow2Monotone(k, 30);
      Pow2Thirty();
      Pow2(k)
  }

  lemma Pow2Thirty()
    ensures Pow2(30) == 0x4000_0000
  {
    Pow2Add(15, 15);
    assert Pow2(15) == 0x8000;
  }

  /** The loop's exit test as written: (int) Math.pow(2, exponentCounter) - 2 >= minimumSubnets. */
  predicate ExitTestAsWritten(exponentCounter: int, minimumSubnets: int)
  {
    JavaIntPow2(exponentCounter) - 2 >= minimumSubnets
  }

  /**
   * For minimumSubnets of 2^31 - 2 or 2^31 - 1 the test as written fails for
   * every value the int exponentCounter can take, wrapped around or not: the
   * loop never ends.
   */
  lemma SearchAsWrittenNeverEnds(exponentCounter: int, minimumSubnets: int)
    requires IntMax - 1 <= minimumSubnets <= IntMax
    ensures !ExitTestAsWritten(exponentCounter, minimumSubnets)
  {
  }

  /** With exact powers the same request is answered: 31 bits are borrowed. */
  lemma SearchCorrectedEnds(netMask: int)
    requires netMask >= 1
    ensures SubnetMaskFor(netMask, IntMax - 1) == Ok(netMask + 31)
  {
    Pow2Thirty();
    assert UsableSubnets(31) == IntMax - 1;
    forall j | 1 <= j < 31
      ensures UsableSubnets(j) < IntMax - 1
    {
      Pow2Monotone(j, 30);
    }
    LeastBorrowedBitsUnique(IntMax - 1, 31);
  }
}
