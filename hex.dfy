/** Bytes, ASCII case mapping and the lowercase hexadecimal codec that the
    search engine uses through the `hex` crate (`hex::encode`,
    `Vec::from_hex`). */
module Hex {
  import opened Wrappers

  newtype byte = x: int | 0 <= x < 256

  /** `s` starts with `p` (Rust's `starts_with` on slices and strings). */
  predicate StartsWith<T(==)>(s: seq<T>, p: seq<T>)
  {
    |p| <= |s| && s[..|p|] == p
  }

  // ---------------------------------------------------------------------
  // Characters

  /** Rust's `char::is_ascii_hexdigit`. */
  predicate IsHexDigit(c: char)
  {
    '0' <= c <= '9' || 'a' <= c <= 'f' || 'A' <= c <= 'F'
  }

  predicate IsLowerHexDigit(c: char)
  {
    '0' <= c <= '9' || 'a' <= c <= 'f'
  }

  predicate AllHex(s: string)
  {
    forall i :: 0 <= i < |s| ==> IsHexDigit(s[i])
  }

  predicate AllLowerHex(s: string)
  {
    forall i :: 0 <= i < |s| ==> IsLowerHexDigit(s[i])
  }

  /** ASCII upper-casing (what `char::to_uppercase` does on ASCII). */
  function ToUpper(c: char): char
  {
    if 'a' <= c <= 'z' then (c as int - 32) as char else c
  }

  /** ASCII lower-casing. */
  function ToLower(c: char): char
  {
    if 'A' <= c <= 'Z' then (c as int + 32) as char else c
  }

  function Lower(s: string): string
  {
    seq(|s|, i requires 0 <= i < |s| => ToLower(s[i]))
  }

  /** The value of one hex digit, in either case (radix-16 digit parsing). */
  function HexValue(c: char): (v: nat)
    requires IsHexDigit(c)
    ensures v < 16
  {
    if '0' <= c <= '9' then c as int - '0' as int
    else if 'a' <= c <= 'f' then c as int - 'a' as int + 10
    else c as int - 'A' as int + 10
  }

  /** The lowercase digit `hex::encode` writes for a nibble. */
  function HexDigit(v: nat): (c: char)
    requires v < 16
    ensures IsLowerHexDigit(c) && HexValue(c) == v
  {
    if v < 10 then ('0' as int + v) as char else ('a' as int + v - 10) as char
  }

  lemma HexDigitOfValue(c: char)
    requires IsHexDigit(c)
    ensures HexDigit(HexValue(c)) == ToLower(c)
  {
  }

  // ---------------------------------------------------------------------
  // Encoding

  /** `hex::encode`: two lowercase digits per byte, high nibble first. */
  function HexEncode(bytes: seq<byte>): (s: string)
    ensures |s| == 2 * |bytes|
  {
    seq(2 * |bytes|, i requires 0 <= i < 2 * |bytes| => HexDigit(Nibble(bytes, i)))
  }

  /** Nibble `i` of `bytes` counted from the most significant nibble of the
      first byte: the value of digit `i` of the hex encoding. */
  function Nibble(bytes: seq<byte>, i: nat): (v: nat)
    requires i < 2 * |bytes|
    ensures v < 16
  {
    if i % 2 == 0 then bytes[i / 2] as int / 16 else bytes[i / 2] as int % 16
  }

  /** Digit `i` of the encoding is the lowercase digit of nibble `i`. */
  lemma HexEncodeAt(bytes: seq<byte>, i: nat)
    requires i < 2 * |bytes|
    ensures HexEncode(bytes)[i] == HexDigit(Nibble(bytes, i))
    ensures HexValue(HexEncode(bytes)[i]) == Nibble(bytes, i)
  {
  }

  /** Hex digits `2k` and `2k+1` of an encoding spell byte `k`. */
  lemma PairValue(bytes: seq<byte>, k: nat)
    requires k < |bytes|
    ensures HexValue(HexEncode(bytes)[2 * k]) * 16 + HexValue(HexEncode(bytes)[2 * k + 1]) == bytes[k] as int
  {
    HexEncodeAt(bytes, 2 * k);
    HexEncodeAt(bytes, 2 * k + 1);
    assert (2 * k) / 2 == k && (2 * k) % 2 == 0;
    assert (2 * k + 1) / 2 == k && (2 * k + 1) % 2 == 1;
    var b := bytes[k] as int;
    assert b == b / 16 * 16 + b % 16;
  }

  /** Encoding distributes over concatenation. */
  lemma HexEncodeConcat(a: seq<byte>, b: seq<byte>)
    ensures HexEncode(a + b) == HexEncode(a) + HexEncode(b)
  {
    var e, f := HexEncode(a + b), HexEncode(a) + HexEncode(b);
    forall i | 0 <= i < |e| ensures e[i] == f[i] {
      if i < 2 * |a| {
        assert (a + b)[i / 2] == a[i / 2];
      } else {
        var j := i - 2 * |a|;
        assert j / 2 == i / 2 - |a| && j % 2 == i % 2;
        assert (a + b)[i / 2] == b[j / 2];
      }
    }
    assert e == f;
  }

  /** The encoding of a prefix is the prefix of the encoding. */
  lemma HexEncodePrefix(bytes: seq<byte>, k: nat)
    requires k <= |bytes|
    ensures HexEncode(bytes)[..2 * k] == HexEncode(bytes[..k])
  {
    var e, f := HexEncode(bytes)[..2 * k], HexEncode(bytes[..k]);
    forall i | 0 <= i < 2 * k ensures e[i] == f[i] {
      assert bytes[..k][i / 2] == bytes[i / 2];
    }
    assert e == f;
  }

  /** Hex encoding preserves and reflects prefixes. */
  lemma HexEncodeStartsWith(bytes: seq<byte>, p: seq<byte>)
    ensures StartsWith(bytes, p) <==> StartsWith(HexEncode(bytes), HexEncode(p))
  {
    if StartsWith(bytes, p) {
      HexEncodePrefix(bytes, |p|);
    }
    if StartsWith(HexEncode(bytes), HexEncode(p)) {
      HexEncodePrefix(bytes, |p|);
      HexEncodeInjective(bytes[..|p|], p);
    }
  }

  /** Distinct byte strings have distinct encodings. */
  lemma HexEncodeInjective(a: seq<byte>, b: seq<byte>)
    requires HexEncode(a) == HexEncode(b)
    ensures a == b
  {
    forall k | 0 <= k < |a| ensures a[k] == b[k] {
      PairValue(a, k);
      PairValue(b, k);
    }
  }

  // ---------------------------------------------------------------------
  // Decoding

  /** `Vec::from_hex`: fails on an odd length or on any character that is not
      an ASCII hex digit (digits of either case are accepted); otherwise
      each pair of digits, high digit first, becomes one byte. */
  function HexDecode(s: string): (r: Option<seq<byte>>)
    ensures r.Some? <==> |s| % 2 == 0 && AllHex(s)
    ensures r.Some? ==> |r.value| == |s| / 2
  {
    if |s| % 2 == 1 || !AllHex(s) then None
    else Some(seq(|s| / 2, k requires 0 <= k < |s| / 2 => (HexValue(s[2 * k]) * 16 + HexValue(s[2 * k + 1])) as byte))
  }

  /** Decoding inverts encoding. */
  lemma HexDecodeEncode(bytes: seq<byte>)
    ensures HexDecode(HexEncode(bytes)) == Some(bytes)
  {
    var s := HexEncode(bytes);
    forall i | 0 <= i < |s| ensures IsHexDigit(s[i]) {
      assert IsLowerHexDigit(s[i]);
    }
    assert AllHex(s) && |s| % 2 == 0;
    var d := HexDecode(s).value;
    forall k | 0 <= k < |bytes| ensures d[k] == bytes[k] {
      PairValue(bytes, k);
    }
    assert d == bytes;
  }

  /** Encoding what was decoded gives back the input, lower-cased. */
  lemma HexEncodeDecode(s: string)
    requires HexDecode(s).Some?
    ensures HexEncode(HexDecode(s).value) == Lower(s)
  {
    var d := HexDecode(s).value;
    var e := HexEncode(d);
    forall j | 0 <= j < |s| ensures e[j] == Lower(s)[j] {
      DigitOfPair(s, j);
    }
    assert e == Lower(s);
  }

  /** Re-encoding digit `j` of a decodable string gives that digit in lower
      case. */
  lemma DigitOfPair(s: string, j: nat)
    requires HexDecode(s).Some? && j < |s|
    ensures HexEncode(HexDecode(s).value)[j] == ToLower(s[j])
  {
    var d := HexDecode(s).value;
    var k := j / 2;
    var hi, lo := HexValue(s[2 * k]), HexValue(s[2 * k + 1]);
    assert d[k] as int == hi * 16 + lo;
    assert (hi * 16 + lo) / 16 == hi && (hi * 16 + lo) % 16 == lo;
    HexEncodeAt(d, j);
    assert IsHexDigit(s[j]);
    HexDigitOfValue(s[j]);
    if j % 2 == 0 {
      assert j == 2 * k;
    } else {
      assert j == 2 * k + 1;
    }
  }

  // ---------------------------------------------------------------------
  // Case

  lemma LowerPrefix(s: string, p: string)
    requires StartsWith(s, p)
    ensures StartsWith(Lower(s), Lower(p))
  {
    assert Lower(s)[..|p|] == Lower(p);
  }

  /** The UTF-8 bytes of an ASCII string (`str::as_bytes`). */
  function Ascii(s: string): (r: seq<byte>)
    requires forall i :: 0 <= i < |s| ==> s[i] as int < 128
    ensures |r| == |s| && forall i :: 0 <= i < |s| ==> r[i] as int == s[i] as int
  {
    seq(|s|, i requires 0 <= i < |s| => s[i] as int as byte)
  }
}
