/**
 * SubnetCalculator: splits a network into 2^(subnetMask - netMask) equally
 * sized subnets, and finds the subnet mask that yields at least a required
 * number of usable subnets (all-zeros and all-ones subnets excluded).
 *
 * Arithmetic is on unbounded integers with exact powers of two. Each subnet
 * address is the unsigned value of the network address plus i times the subnet
 * size, reduced modulo 2^bits and written in exactly ADDRESS_LEN big-endian
 * bytes: the width the result array is allocated with. (The Java code emits
 * BigInteger.toByteArray, whose length can differ; module AsWritten models that.)
 */
module SubnetCalculators {
  import opened Results
  import opened BigEndian

  /** Bits per byte (BYTE_LEN). */
  const ByteBits: nat := 8

  /**
   * The widest split the model performs. Beyond it the Java code's
   * (int) Math.pow saturates at 2^31 - 1 and the allocation of that many
   * subnets fails, so the model reports TooManySubnets instead.
   */
  const MaxBorrowedBits: nat := 30

  /** The IllegalArgumentExceptions of the calculator, one per check. */
  datatype CalcError =
    | WrongNetworkLength(expected: nat)  // network array not ADDRESS_LEN bytes long
    | SubnetMaskNotAboveNetMask          // subnetMask <= netMask
    | MaskBeyondAddressBits              // a mask longer than the address
    | TooManySubnets                     // more than 2^MaxBorrowedBits subnets
    | MinimumSubnetsBelowOne             // fewer than one subnet asked for
    | NetMaskBelowOne                    // netMask < 1

  /** Subnet number i: base + i * stride, reduced to and written in addressLen bytes. */
  function SubnetAddress(addressLen: nat, base: nat, stride: nat, i: nat): (b: seq<Byte>)
    ensures |b| == addressLen
  {
    Encode((base + i * stride) % Pow2(ByteBits * addressLen), addressLen)
  }

  /** The subnet size: 2^(bits - subnetMask). */
  function Stride(addressLen: nat, subnetMask: int): nat
    requires subnetMask <= ByteBits * addressLen
  {
    Pow2(ByteBits * addressLen - subnetMask)
  }

  /** What calcSubnetsForNetwork returns or throws for an ADDRESS_LEN of addressLen. */
  function Subnets(addressLen: nat, networkIP: seq<Byte>, netMask: int, subnetMask: int)
    : (r: Result<seq<seq<Byte>>, CalcError>)
    ensures r.Ok? ==> forall i | 0 <= i < |r.value| :: |r.value[i]| == addressLen
  {
    var bits := ByteBits * addressLen;
    if |networkIP| != addressLen then Err(WrongNetworkLength(addressLen))
    else if subnetMask <= netMask then Err(SubnetMaskNotAboveNetMask)
    else if netMask > bits || subnetMask > bits then Err(MaskBeyondAddressBits)
    else if subnetMask - netMask > MaxBorrowedBits then Err(TooManySubnets)
    else
      var stride := Stride(addressLen, subnetMask);
      Ok(seq(Pow2(subnetMask - netMask), i requires 0 <= i => SubnetAddress(addressLen, Value(networkIP), stride, i)))
  }

  /** A successful result, entry by entry. */
  lemma SubnetsEntries(addressLen: nat, networkIP: seq<Byte>, netMask: int, subnetMask: int)
    requires Subnets(addressLen, networkIP, netMask, subnetMask).Ok?
    ensures netMask < subnetMask <= ByteBits * addressLen
    ensures var entries := Subnets(addressLen, networkIP, netMask, subnetMask).value;
      && |entries| == Pow2(subnetMask - netMask)
      && forall i | 0 <= i < |entries| ::
           entries[i] == SubnetAddress(addressLen, Value(networkIP), Stride(addressLen, subnetMask), i)
  {
  }

  /**
   * The checks run in a fixed order: the network length first, then the
   * masks' order, then their range; each error is reported exactly when the
   * earlier checks pass and its own fails.
   */
  lemma ErrorOrder(addressLen: nat, networkIP: seq<Byte>, netMask: int, subnetMask: int)
    ensures var r := Subnets(addressLen, networkIP, netMask, subnetMask);
      var bits := ByteBits * addressLen;
      && (r == Err(WrongNetworkLength(addressLen)) <==> |networkIP| != addressLen)
      && (r == Err(SubnetMaskNotAboveNetMask) <==> |networkIP| == addressLen && subnetMask <= netMask)
      && (r == Err(MaskBeyondAddressBits) <==>
            |networkIP| == addressLen && netMask < subnetMask && (netMask > bits || subnetMask > bits))
      && (r.Ok? <==>
            |networkIP| == addressLen && netMask < subnetMask <= bits && subnetMask - netMask <= MaxBorrowedBits)
  {
  }

  /** On success there are 2^(subnetMask - netMask) subnets, each ADDRESS_LEN bytes long. */
  lemma SubnetCount(addressLen: nat, networkIP: seq<Byte>, netMask: int, subnetMask: int)
    requires Subnets(addressLen, networkIP, netMask, subnetMask).Ok?
    ensures var entries := Subnets(addressLen, networkIP, netMask, subnetMask).value;
      subnetMask - netMask >= 1
      && |entries| == Pow2(subnetMask - netMask) >= 2
      && forall i | 0 <= i < |entries| :: |entries[i]| == addressLen
  {
    Pow2Monotone(1, subnetMask - netMask);
  }

  /** Entry i stands for (base + i * stride) mod 2^bits. */
  lemma EntryValue(addressLen: nat, networkIP: seq<Byte>, netMask: int, subnetMask: int, i: nat)
    requires Subnets(addressLen, networkIP, netMask, subnetMask).Ok?
    requires i < |Subnets(addressLen, networkIP, netMask, subnetMask).value|
    ensures Value(Subnets(addressLen, networkIP, netMask, subnetMask).value[i])
         == (Value(networkIP) + i * Stride(addressLen, subnetMask)) % Pow2(ByteBits * addressLen)
  {
    SubnetsEntries(addressLen, networkIP, netMask, subnetMask);
    var m := Pow2(ByteBits * addressLen);
    var v := (Value(networkIP) + i * Stride(addressLen, subnetMask)) % m;
    ValueOfEncode(v, addressLen);
    DivModUnique(v, m, 0, v);
  }

  /** The first subnet is the network address itself. */
  lemma FirstEntryIsBase(addressLen: nat, networkIP: seq<Byte>, netMask: int, subnetMask: int)
    requires Subnets(addressLen, networkIP, netMask, subnetMask).Ok?
    ensures Subnets(addressLen, networkIP, netMask, subnetMask).value[0] == networkIP
  {
    var entries := Subnets(addressLen, networkIP, netMask, subnetMask).value;
    SubnetCount(addressLen, networkIP, netMask, subnetMask);
    EntryValue(addressLen, networkIP, netMask, subnetMask, 0);
    DivModUnique(Value(networkIP), Pow2(ByteBits * addressLen), 0, Value(networkIP));
    ValueInjective(entries[0], networkIP);
  }

  /** Reducing before adding a step and reducing after it agree. */
  lemma ModAddMod(x: int, step: int, y: int, m: int)
    requires 0 < m && y == x + step
    ensures (x % m + step) % m == y % m
  {
    assert x == (x / m) * m + x % m;
    ModShift(x % m + step, x / m, m);
  }

  /** Fewer than 2^a multiples of 2^b stay below 2^(a + b). */
  lemma MultipleBelow(i: nat, a: nat, b: nat)
    requires i < Pow2(a)
    ensures i * Pow2(b) < Pow2(a + b)
  {
    Pow2Add(a, b);
    MulStrict(i, Pow2(a), Pow2(b));
  }

  /** Multiplying by a positive factor keeps a strict order. */
  lemma MulStrict(x: int, y: int, p: int)
    requires x < y && 0 < p
    ensures x * p < y * p
  {
    var d := y - x - 1;
    assert y * p == x * p + d * p + p;
    assert d * p >= 0;
  }

  /** An offset inside a block added to a block-aligned value stays inside that block. */
  lemma WithinBlock(base: nat, offset: nat, block: nat, blocks: nat)
    requires 0 < block && offset < block && base % block == 0 && base < blocks * block
    ensures (base + offset) / block == base / block
    ensures base + offset < blocks * block
  {
    var q := base / block;
    assert base == q * block;
    DivModUnique(base + offset, block, q, offset);
    assert q < blocks by {
      assert q * block < blocks * block;
    }
    assert (q + 1) * block <= blocks * block;
  }

  /** Consecutive subnets are one stride apart (modulo 2^bits). */
  lemma ConsecutiveStride(addressLen: nat, networkIP: seq<Byte>, netMask: int, subnetMask: int, i: nat)
    requires Subnets(addressLen, networkIP, netMask, subnetMask).Ok?
    requires i + 1 < |Subnets(addressLen, networkIP, netMask, subnetMask).value|
    ensures var entries := Subnets(addressLen, networkIP, netMask, subnetMask).value;
      Value(entries[i + 1])
        == (Value(entries[i]) + Stride(addressLen, subnetMask)) % Pow2(ByteBits * addressLen)
  {
    var stride := Stride(addressLen, subnetMask);
    var here := Value(networkIP) + i * stride;
    var next := Value(networkIP) + (i + 1) * stride;
    assert next == here + stride by {
      assert (i + 1) * stride == i * stride + stride;
    }
    EntryValue(addressLen, networkIP, netMask, subnetMask, i);
    EntryValue(addressLen, networkIP, netMask, subnetMask, i + 1);
    ModAddMod(here, stride, next, Pow2(ByteBits * addressLen));
  }

  /**
   * When the network address has only zeros beyond its first netMask bits,
   * no subnet wraps around: entry i is base + i * stride exactly, it keeps
   * the network's first netMask bits, and it lies inside the network.
   */
  lemma AlignedEntry(addressLen: nat, networkIP: seq<Byte>, netMask: int, subnetMask: int, i: nat)
    requires Subnets(addressLen, networkIP, netMask, subnetMask).Ok?
    requires 0 <= netMask
    requires Value(networkIP) % Pow2(ByteBits * addressLen - netMask) == 0
    requires i < |Subnets(addressLen, networkIP, netMask, subnetMask).value|
    ensures var entries := Subnets(addressLen, networkIP, netMask, subnetMask).value;
      var hostBits := Pow2(ByteBits * addressLen - netMask);
      && Value(entries[i]) == Value(networkIP) + i * Stride(addressLen, subnetMask)
      && Value(entries[i]) / hostBits == Value(networkIP) / hostBits
      && Value(entries[i]) - Value(networkIP) < hostBits
  {
    SubnetsEntries(addressLen, networkIP, netMask, subnetMask);
    EntryValue(addressLen, networkIP, netMask, subnetMask, i);
    AlignedSum(Value(networkIP), i, netMask, subnetMask, ByteBits * addressLen);
  }

  /**
   * The arithmetic behind AlignedEntry: fewer than 2^(s - n) strides of
   * 2^(bits - s), added to a multiple of 2^(bits - n) below 2^bits, stay in
   * that block and below 2^bits.
   */
  lemma AlignedSum(base: nat, i: nat, netMask: nat, subnetMask: nat, bits: nat)
    requires netMask < subnetMask <= bits && i < Pow2(subnetMask - netMask)
    requires base < Pow2(bits) && base % Pow2(bits - netMask) == 0
    ensures var v := base + i * Pow2(bits - subnetMask);
      && v % Pow2(bits) == v
      && v / Pow2(bits - netMask) == base / Pow2(bits - netMask)
      && v - base < Pow2(bits - netMask)
  {
    var h := bits - netMask;
    var offset := i * Pow2(bits - subnetMask);
    MultipleBelow(i, subnetMask - netMask, bits - subnetMask);
    assert subnetMask - netMask + (bits - subnetMask) == h;
    Pow2Add(netMask, h);
    assert netMask + h == bits;
    WithinBlock(base, offset, Pow2(h), Pow2(netMask));
    DivModUnique(base + offset, Pow2(bits), 0, base + offset);
  }

  /** For an aligned network address the subnets are strictly increasing. */
  lemma AlignedIncreasing(addressLen: nat, networkIP: seq<Byte>, netMask: int, subnetMask: int, i: nat, j: nat)
    requires Subnets(addressLen, networkIP, netMask, subnetMask).Ok?
    requires 0 <= netMask
    requires Value(networkIP) % Pow2(ByteBits * addressLen - netMask) == 0
    requires i < j < |Subnets(addressLen, networkIP, netMask, subnetMask).value|
    ensures var entries := Subnets(addressLen, networkIP, netMask, subnetMask).value;
      Value(entries[i]) < Value(entries[j])
  {
    AlignedEntry(addressLen, networkIP, netMask, subnetMask, i);
    AlignedEntry(addressLen, networkIP, netMask, subnetMask, j);
    MulStrict(i, j, Stride(addressLen, subnetMask));
  }

  /** Usable subnets with k borrowed bits: all-zeros and all-ones excluded. */
  function UsableSubnets(k: nat): int
  {
    Pow2(k) - 2
  }

  /** The search from exponent k upward, all smaller exponents having fallen short. */
  function SearchBorrowedBits(minimumSubnets: int, k: nat): (e: nat)
    requires k >= 1
    requires forall j | 1 <= j < k :: UsableSubnets(j) < minimumSubnets
    ensures e >= k && UsableSubnets(e) >= minimumSubnets
    ensures forall j | 1 <= j < e :: UsableSubnets(j) < minimumSubnets
    decreases minimumSubnets + 2 - Pow2(k)
  {
    if UsableSubnets(k) >= minimumSubnets then k
    else SearchBorrowedBits(minimumSubnets, k + 1)
  }

  /** The least k >= 1 with 2^k - 2 >= minimumSubnets. */
  function LeastBorrowedBits(minimumSubnets: int): (k: nat)
    ensures k >= 1 && UsableSubnets(k) >= minimumSubnets
    ensures forall j | 1 <= j < k :: UsableSubnets(j) < minimumSubnets
  {
    SearchBorrowedBits(minimumSubnets, 1)
  }

  /** Any exponent with the defining property is the one LeastBorrowedBits finds. */
  lemma LeastBorrowedBitsUnique(minimumSubnets: int, k: nat)
    requires k >= 1 && UsableSubnets(k) >= minimumSubnets
    requires forall j | 1 <= j < k :: UsableSubnets(j) < minimumSubnets
    ensures LeastBorrowedBits(minimumSubnets) == k
  {
  }

  /** What calcSubnetMaskForNetwork returns or throws. */
  function SubnetMaskFor(netMask: int, minimumSubnets: int): (r: Result<int, CalcError>)
  {
    if minimumSubnets < 1 then Err(MinimumSubnetsBelowOne)
    else if netMask < 1 then Err(NetMaskBelowOne)
    else Ok(netMask + LeastBorrowedBits(minimumSubnets))
  }

  /**
   * minimumSubnets < 1 is reported before netMask < 1; otherwise the result
   * borrows enough bits for minimumSubnets usable subnets, and no fewer bits
   * would do.
   */
  lemma SubnetMaskForMeaning(netMask: int, minimumSubnets: int)
    ensures var r := SubnetMaskFor(netMask, minimumSubnets);
      && (r == Err(MinimumSubnetsBelowOne) <==> minimumSubnets < 1)
      && (r == Err(NetMaskBelowOne) <==> minimumSubnets >= 1 && netMask < 1)
      && (r.Ok? ==> r.value - netMask >= 1 && UsableSubnets(r.value - netMask) >= minimumSubnets)
      && (r.Ok? ==> forall k | 1 <= k < r.value - netMask :: UsableSubnets(k) < minimumSubnets)
  {
  }

  /** At least two bits are borrowed: one bit leaves no usable subnet. */
  lemma SubnetMaskAtLeastTwoMore(netMask: int, minimumSubnets: int)
    requires SubnetMaskFor(netMask, minimumSubnets).Ok?
    ensures SubnetMaskFor(netMask, minimumSubnets).value >= netMask + 2
  {
    var k := LeastBorrowedBits(minimumSubnets);
    assert UsableSubnets(1) == 0;
    assert k != 1;
  }

  /** Five usable subnets of a /24 need three borrowed bits: a /27. */
  lemma SubnetMaskExample()
    ensures SubnetMaskFor(24, 5) == Ok(27)
  {
    assert UsableSubnets(1) == 0 && UsableSubnets(2) == 2 && UsableSubnets(3) == 6;
    LeastBorrowedBitsUnique(5, 3);
  }

  /** A calculator for addresses of a fixed byte length (4 for IPv4, 16 for IPv6). */
  class SubnetCalculator {
    const addressLen: nat
    const addressLenInBits: nat

    /** The bit width is the byte width times eight. */
    predicate Valid()
    {
      addressLenInBits == ByteBits * addressLen
    }

    constructor(addressLengthInBytes: nat)
      ensures addressLen == addressLengthInBytes && Valid()
    {
      addressLen := addressLengthInBytes;
      addressLenInBits := ByteBits * addressLengthInBytes;
    }

    /**
     * calcSubnetsForNetwork: validates its arguments, then fills an array of
     * 2^(subnetMask - netMask) subnet addresses, one stride apart.
     */
    method CalcSubnetsForNetwork(networkIP: seq<Byte>, netMask: int, subnetMask: int)
      returns (r: Result<seq<seq<Byte>>, CalcError>)
      requires Valid()
      ensures r == Subnets(addressLen, networkIP, netMask, subnetMask)
    {
      if |networkIP| != addressLen {
        return Err(WrongNetworkLength(addressLen));
      } else if subnetMask <= netMask {
        return Err(SubnetMaskNotAboveNetMask);
      } else if netMask > addressLenInBits || subnetMask > addressLenInBits {
        return Err(MaskBeyondAddressBits);
      } else if subnetMask - netMask > MaxBorrowedBits {
        return Err(TooManySubnets);
      }
      var borrowedBits := subnetMask - netMask;
      var amountOfSubnets := Pow2(borrowedBits);
      var hostPortion := ByteBits * addressLen - subnetMask;
      var baseAddress := Value(networkIP);
      var subnetBase := Pow2(hostPortion);
      var subnetArray := new seq<Byte>[amountOfSubnets];
      for subnetCounter := 0 to amountOfSubnets
        invariant forall j | 0 <= j < subnetCounter ::
          subnetArray[j] == SubnetAddress(addressLen, baseAddress, subnetBase, j)
      {
        var subnetPart := subnetCounter * subnetBase;
        var subnetAddress := (baseAddress + subnetPart) % Pow2(addressLenInBits);
        subnetArray[subnetCounter] := Encode(subnetAddress, addressLen);
      }
      SubnetsEntries(addressLen, networkIP, netMask, subnetMask);
      ghost var expected := Subnets(addressLen, networkIP, netMask, subnetMask).value;
      assert forall j | 0 <= j < amountOfSubnets :: subnetArray[..][j] == expected[j];
      assert subnetArray[..] == expected;
      r := Ok(subnetArray[..]);
    }

    /**
     * calcSubnetMaskForNetwork: tries exponents 1, 2, ... until 2^k - 2 usable
     * subnets reach minimumSubnets, and returns netMask + k.
     */
    static method CalcSubnetMaskForNetwork(netMask: int, minimumSubnets: int) returns (r: Result<int, CalcError>)
      ensures r == SubnetMaskFor(netMask, minimumSubnets)
    {
      if minimumSubnets < 1 {
        return Err(MinimumSubnetsBelowOne);
      } else if netMask < 1 {
        return Err(NetMaskBelowOne);
      }
      var exponentCounter: nat := 1;
      while true
        invariant exponentCounter >= 1
        invariant forall j | 1 <= j < exponentCounter :: UsableSubnets(j) < minimumSubnets
        decreases minimumSubnets + 2 - Pow2(exponentCounter)
      {
        var subnets := Pow2(exponentCounter) - 2;
        if subnets >= minimumSubnets {
          LeastBorrowedBitsUnique(minimumSubnets, exponentCounter);
          return Ok(netMask + exponentCounter);
        }
        exponentCounter := exponentCounter + 1;
      }
    }
  }
}
