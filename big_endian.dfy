/**
 * Fixed-width unsigned big-endian arithmetic: the value of a byte string,
 * the n-byte encoding of a number, and powers of two.
 *
 * Java's `byte` is signed; the model reads every octet as its unsigned value
 * 0..255, the way `InetAddress.getAddress` and `getHostAddress` treat them.
 */
module BigEndian {

  /** One octet, as its unsigned value. */
  type Byte = b: int | 0 <= b < 256

  function Pow2(k: nat): (r: nat)
    ensures r >= 1
  {
    if k == 0 then 1 else 2 * Pow2(k - 1)
  }

  lemma {:induction false} Pow2Add(a: nat, b: nat)
    ensures Pow2(a + b) == Pow2(a) * Pow2(b)
  {
    if b > 0 {
      Pow2Add(a, b - 1);
      assert Pow2(a + b) == 2 * Pow2(a + (b - 1));
    }
  }

  lemma Pow2Monotone(a: nat, b: nat)
    requires a <= b
    ensures Pow2(a) <= Pow2(b)
  {
    Pow2Add(a, b - a);
  }

  lemma Pow2Strict(a: nat, b: nat)
    requires a < b
    ensures Pow2(a) < Pow2(b)
  {
    Pow2Add(a, b - a);
    Pow2Monotone(1, b - a);
  }

  /** One more byte of width multiplies the range by 256. */
  lemma Pow2Byte(n: nat)
    ensures Pow2(8 * (n + 1)) == 256 * Pow2(8 * n)
  {
    Pow2Add(8 * n, 8);
    assert Pow2(8) == 256;
  }

  /** Euclidean division by a positive divisor is determined by quotient and remainder. */
  lemma DivModUnique(v: int, m: int, q: int, r: int)
    requires 0 < m && 0 <= r < m && v == q * m + r
    ensures v / m == q && v % m == r
  {
    var d := v / m - q;
    assert d * m == r - v % m;
    assert d >= 1 ==> d * m >= m;
    assert d <= -1 ==> d * m <= -m;
  }

  /** Adding a multiple of the modulus does not change the remainder. */
  lemma ModShift(v: int, k: int, m: int)
    requires 0 < m
    ensures (v + k * m) % m == v % m
  {
    DivModUnique(v + k * m, m, v / m + k, v % m);
  }

  /** The unsigned value of a big-endian byte string. */
  function Value(b: seq<Byte>): (v: nat)
    ensures v < Pow2(8 * |b|)
  {
    if |b| == 0 then 0
    else
      var prefix := b[..|b| - 1];
      Pow2Byte(|prefix|);
      Value(prefix) * 256 + b[|b| - 1]
  }

  /** The n-byte big-endian encoding of v, keeping its low 8n bits. */
  function Encode(v: nat, n: nat): (b: seq<Byte>)
    ensures |b| == n
  {
    if n == 0 then [] else Encode(v / 256, n - 1) + [v % 256]
  }

  lemma {:induction false} ValueOfEncode(v: nat, n: nat)
    ensures Value(Encode(v, n)) == v % Pow2(8 * n)
  {
    if n > 0 {
      ValueOfEncode(v / 256, n - 1);
      var e := Encode(v, n);
      assert e[..n - 1] == Encode(v / 256, n - 1);
      Pow2Byte(n - 1);
      ModOfByteShift(v, Pow2(8 * (n - 1)));
    }
  }

  /** Dropping the last byte and reducing commutes with reducing and dropping the last byte. */
  lemma ModOfByteShift(v: int, p: int)
    requires 0 < p
    ensures v % (256 * p) == ((v / 256) % p) * 256 + v % 256
  {
    var q, r := v / 256, v % 256;
    var a, c := q / p, q % p;
    assert q == a * p + c;
    assert v == 256 * q + r;
    assert v == a * (256 * p) + (c * 256 + r) by {
      assert 256 * q == 256 * (a * p) + 256 * c;
      assert 256 * (a * p) == a * (256 * p);
    }
    DivModUnique(v, 256 * p, a, c * 256 + r);
  }

  lemma {:induction false} EncodeOfValue(b: seq<Byte>)
    ensures Encode(Value(b), |b|) == b
  {
    if |b| > 0 {
      var prefix := b[..|b| - 1];
      EncodeOfValue(prefix);
      DivModUnique(Value(b), 256, Value(prefix), b[|b| - 1]);
    }
  }

  /** The first byte weighs 2^(8(n-1)) in an n-byte string. */
  lemma {:induction false} ValueFirst(b: seq<Byte>)
    requires |b| >= 1
    ensures Value(b) == b[0] * Pow2(8 * (|b| - 1)) + Value(b[1..])
  {
    if |b| > 1 {
      var prefix, tail := b[..|b| - 1], b[1..];
      var last := b[|b| - 1];
      ValueFirst(prefix);
      var w := Pow2(8 * (|b| - 2));
      var middle := Value(prefix[1..]);
      assert Value(prefix) == b[0] * w + middle;
      assert tail[..|tail| - 1] == prefix[1..];
      assert Value(tail) == middle * 256 + last;
      assert Value(b) == Value(prefix) * 256 + last;
      Pow2Byte(|b| - 2);
      MulByByteWeight(b[0], w);
    }
  }

  lemma MulByByteWeight(x: int, w: int)
    ensures (x * w) * 256 == x * (256 * w)
  {
  }

  /** Two byte strings of one width are equal exactly when their values are. */
  lemma ValueInjective(a: seq<Byte>, b: seq<Byte>)
    requires |a| == |b| && Value(a) == Value(b)
    ensures a == b
  {
    EncodeOfValue(a);
    EncodeOfValue(b);
  }
}
