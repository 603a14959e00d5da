/** The small byte helpers of the search engine: prefix stripping, the
    fixed-width coercions, the two integer encoders and the decoding of the
    target prefix into the bytes the raw test compares against. */
module Codec {
  import opened Wrappers
  import opened Hex

  /** Rust's `u64`. */
  type U64 = x: nat | x < 0x1_0000_0000_0000_0000

  /** `256^k`: a right shift by `8 * k` bits is a division by it. */
  function Pow256(k: nat): (p: nat)
    ensures p > 0
  {
    if k == 0 then 1 else 256 * Pow256(k - 1)
  }

  // ---------------------------------------------------------------------
  // without_prefix

  /** `without_prefix`: drops the first two characters. The source finds the
      third character with `nth(2)` and unwraps it, so a string of fewer than
      three characters (the bare `0x` among them) aborts: `None`. */
  function WithoutPrefix(s: string): (r: Option<string>)
    ensures r.Some? <==> |s| >= 3
    ensures r.Some? ==> s[..2] + r.value == s && |r.value| == |s| - 2
  {
    if |s| < 3 then None else Some(s[2..])
  }

  // ---------------------------------------------------------------------
  // to_fixed_20, to_fixed_32, to_fixed_47, to_fixed_4

  /** `to_fixed_N`: copies the first `n` bytes of `bytes` into a fresh array
      of `n` bytes (`copy_from_slice` of `&bytes[..n]`). */
  method ToFixed(bytes: seq<byte>, n: nat) returns (a: array<byte>)
    requires n <= |bytes|
    ensures fresh(a) && a.Length == n
    ensures a[..] == bytes[..n]
  {
    a := new byte[n];
    forall i | 0 <= i < n {
      a[i] := bytes[i];
    }
  }

  // ---------------------------------------------------------------------
  // u64_to_fixed_6 and u64_to_le_fixed_8

  /** `u64_to_fixed_6`: bytes `x >> 40`, `x >> 32`, ..., `x`, each masked with
      `0xff`. */
  function U64ToFixed6(x: U64): (r: seq<byte>)
    ensures |r| == 6
  {
    [ ((x / 0x100_0000_0000) % 0x100) as byte,
      ((x / 0x1_0000_0000) % 0x100) as byte,
      ((x / 0x100_0000) % 0x100) as byte,
      ((x / 0x1_0000) % 0x100) as byte,
      ((x / 0x100) % 0x100) as byte,
      (x % 0x100) as byte ]
  }

  /** `u64_to_le_fixed_8`: the same masked shifts for eight bytes, stored
      least significant first. */
  function U64ToLeFixed8(x: U64): (r: seq<byte>)
    ensures |r| == 8
  {
    var b1 := ((x / 0x100_0000_0000_0000) % 0x100) as byte;
    var b2 := ((x / 0x1_0000_0000_0000) % 0x100) as byte;
    var b3 := ((x / 0x100_0000_0000) % 0x100) as byte;
    var b4 := ((x / 0x1_0000_0000) % 0x100) as byte;
    var b5 := ((x / 0x100_0000) % 0x100) as byte;
    var b6 := ((x / 0x1_0000) % 0x100) as byte;
    var b7 := ((x / 0x100) % 0x100) as byte;
    var b8 := (x % 0x100) as byte;
    [b8, b7, b6, b5, b4, b3, b2, b1]
  }

  /** The number a byte string denotes, most significant byte first. */
  function BigEndianValue(bytes: seq<byte>): nat
  {
    if bytes == [] then 0
    else BigEndianValue(bytes[..|bytes| - 1]) * 256 + bytes[|bytes| - 1] as nat
  }

  /** The number a byte string denotes, least significant byte first. */
  function LittleEndianValue(bytes: seq<byte>): nat
  {
    if bytes == [] then 0 else bytes[0] as nat + 256 * LittleEndianValue(bytes[1..])
  }

  /** Division with remainder determines quotient and remainder. */
  lemma DivModUnique(x: nat, m: nat, q: nat, r: nat)
    requires m > 0 && r < m && x == m * q + r
    ensures x / m == q && x % m == r
  {
    var q', r' := x / m, x % m;
    assert m * q' + r' == m * q + r;
    if q' > q {
      MulAtLeast(m, q' - q);
    } else if q' < q {
      MulAtLeast(m, q - q');
    }
  }

  lemma MulAtLeast(m: nat, d: nat)
    requires d >= 1
    ensures m * d >= m
  {
    assert m * d == m + m * (d - 1);
  }

  /** Splitting the low `a * b` part of `x` into its low `a` part and the
      next digit in base `b`. */
  lemma DivModSplit(x: nat, a: nat, b: nat)
    requires a > 0 && b > 0
    ensures x % (a * b) == x % a + a * ((x / a) % b)
    ensures x / (a * b) == (x / a) / b
  {
    var q, r := x / a, x % a;
    var q2, r2 := q / b, q % b;
    assert x == a * q + r;
    assert q == b * q2 + r2;
    MulDistributes(a, b * q2, r2);
    MulAssociates(a, b, q2);
    assert x == (a * b) * q2 + (a * r2 + r);
    MulMonotone(a, r2, b - 1);
    MulDistributes(a, b - 1, 1);
    assert a * r2 + r < a * b;
    MulNonNegative(a, b);
    DivModUnique(x, a * b, q2, a * r2 + r);
  }

  lemma MulDistributes(a: nat, u: nat, v: nat)
    ensures a * (u + v) == a * u + a * v
  {
  }

  lemma MulAssociates(a: nat, b: nat, c: nat)
    ensures a * (b * c) == (a * b) * c
  {
  }

  lemma MulMonotone(a: nat, u: nat, v: nat)
    requires u <= v
    ensures a * u <= a * v
  {
    MulDistributes(a, u, v - u);
  }

  lemma MulNonNegative(a: nat, b: nat)
    ensures a * b >= 0
  {
  }

  /** The six bytes are the big-endian encoding of `x mod 2^48`. */
  lemma U64ToFixed6Value(x: U64)
    ensures BigEndianValue(U64ToFixed6(x)) == x % 0x1_0000_0000_0000
  {
    var r := U64ToFixed6(x);
    BigEndianValue6(r);
    DivModSplit(x, 0x100, 0x100);
    DivModSplit(x, 0x1_0000, 0x100);
    DivModSplit(x, 0x100_0000, 0x100);
    DivModSplit(x, 0x1_0000_0000, 0x100);
    DivModSplit(x, 0x100_0000_0000, 0x100);
  }

  lemma BigEndianValue6(r: seq<byte>)
    requires |r| == 6
    ensures BigEndianValue(r) == r[0] as nat * 0x100_0000_0000 + r[1] as nat * 0x1_0000_0000
      + r[2] as nat * 0x100_0000 + r[3] as nat * 0x1_0000 + r[4] as nat * 0x100 + r[5] as nat
  {
    assert r[..0] == [];
    BigEndianValueStep(r, 0);
    BigEndianValueStep(r, 1);
    BigEndianValueStep(r, 2);
    BigEndianValueStep(r, 3);
    BigEndianValueStep(r, 4);
    BigEndianValueStep(r, 5);
    assert r[..6] == r;
  }

  lemma BigEndianValueStep(r: seq<byte>, k: nat)
    requires k < |r|
    ensures BigEndianValue(r[..k + 1]) == BigEndianValue(r[..k]) * 256 + r[k] as nat
  {
    assert r[..k + 1][..k] == r[..k];
  }

  lemma LittleEndianValueStep(r: seq<byte>, k: nat)
    requires k < |r|
    ensures LittleEndianValue(r[k..]) == r[k] as nat + 256 * LittleEndianValue(r[k + 1..])
  {
    assert r[k..][1..] == r[k + 1..];
  }

  /** Distinct nonces of the swept range `0 .. 0xffffffffffff` get distinct
      six-byte encodings. */
  lemma U64ToFixed6Injective(x: U64, y: U64)
    requires x < 0xffff_ffff_ffff && y < 0xffff_ffff_ffff
    requires U64ToFixed6(x) == U64ToFixed6(y)
    ensures x == y
  {
    U64ToFixed6Value(x);
    U64ToFixed6Value(y);
    DivModUnique(x, 0x1_0000_0000_0000, 0, x);
    DivModUnique(y, 0x1_0000_0000_0000, 0, y);
  }

  /** Byte `i` of the little-endian encoding is `(x >> 8 * i) & 0xff`. */
  lemma U64ToLeFixed8At(x: U64, i: nat)
    requires i < 8
    ensures U64ToLeFixed8(x)[i] as nat == (x / Pow256(i)) % 256
  {
    assert Pow256(0) == 1;
    assert Pow256(1) == 0x100;
    assert Pow256(2) == 0x1_0000;
    assert Pow256(3) == 0x100_0000;
    assert Pow256(4) == 0x1_0000_0000;
    assert Pow256(5) == 0x100_0000_0000;
    assert Pow256(6) == 0x1_0000_0000_0000;
    assert Pow256(7) == 0x100_0000_0000_0000;
  }

  /** Reading the eight bytes back least significant first gives `x`. */
  lemma U64ToLeFixed8Value(x: U64)
    ensures LittleEndianValue(U64ToLeFixed8(x)) == x
  {
    var r := U64ToLeFixed8(x);
    LittleEndianValue8(r);
    DivModSplit(x, 0x100, 0x100);
    DivModSplit(x, 0x1_0000, 0x100);
    DivModSplit(x, 0x100_0000, 0x100);
    DivModSplit(x, 0x1_0000_0000, 0x100);
    DivModSplit(x, 0x100_0000_0000, 0x100);
    DivModSplit(x, 0x1_0000_0000_0000, 0x100);
    DivModSplit(x, 0x100_0000_0000_0000, 0x100);
    DivModUnique(x, 0x1_0000_0000_0000_0000, 0, x);
  }

  lemma LittleEndianValue8(r: seq<byte>)
    requires |r| == 8
    ensures LittleEndianValue(r) == r[0] as nat + r[1] as nat * 0x100 + r[2] as nat * 0x1_0000
      + r[3] as nat * 0x100_0000 + r[4] as nat * 0x1_0000_0000 + r[5] as nat * 0x100_0000_0000
      + r[6] as nat * 0x1_0000_0000_0000 + r[7] as nat * 0x100_0000_0000_0000
  {
    LittleEndianValueStep(r, 0);
    LittleEndianValueStep(r, 1);
    LittleEndianValueStep(r, 2);
    LittleEndianValueStep(r, 3);
    LittleEndianValueStep(r, 4);
    LittleEndianValueStep(r, 5);
    LittleEndianValueStep(r, 6);
    LittleEndianValueStep(r, 7);
    assert r[0..] == r && r[8..] == [];
  }

  // ---------------------------------------------------------------------
  // The target prefix

  /** The decoding of the target's digits in `cpu`: `chunks(2)` of the digit
      string, each chunk parsed in radix 16. An odd final digit is a chunk of
      its own and becomes a whole byte of value 0 to 15. */
  function DecodeTarget(digits: string): (r: seq<byte>)
    requires AllHex(digits)
    ensures |r| == (|digits| + 1) / 2
  {
    seq((|digits| + 1) / 2, k requires 0 <= k < (|digits| + 1) / 2 =>
      if 2 * k + 1 < |digits| then (HexValue(digits[2 * k]) * 16 + HexValue(digits[2 * k + 1])) as byte
      else HexValue(digits[2 * k]) as byte)
  }

  /** For an even number of digits the chunked decoding agrees with
      `Vec::from_hex`. */
  lemma DecodeTargetEven(digits: string)
    requires AllHex(digits) && |digits| % 2 == 0
    ensures HexDecode(digits) == Some(DecodeTarget(digits))
  {
    var d, t := HexDecode(digits).value, DecodeTarget(digits);
    assert |d| == |t|;
    forall k | 0 <= k < |d| ensures d[k] == t[k] {
      assert 2 * k + 1 < |digits|;
    }
    assert d == t;
  }

  /** With an odd number of digits the lone last digit is the last byte, of
      value 0 to 15, and the bytes before it are the decoding of the digits
      before it. */
  lemma DecodeTargetOdd(digits: string)
    requires AllHex(digits) && |digits| % 2 == 1
    ensures DecodeTarget(digits) == DecodeTarget(digits[..|digits| - 1]) + [HexValue(digits[|digits| - 1]) as byte]
  {
    var n := |digits| / 2;
    var front := digits[..|digits| - 1];
    var t, f := DecodeTarget(digits), DecodeTarget(front) + [HexValue(digits[|digits| - 1]) as byte];
    assert |digits| == 2 * n + 1 && |front| == 2 * n;
    forall k | 0 <= k < n ensures t[k] == f[k] {
      assert front[2 * k] == digits[2 * k] && front[2 * k + 1] == digits[2 * k + 1];
    }
    assert t[n] == f[n];
    assert t == f;
  }

}
