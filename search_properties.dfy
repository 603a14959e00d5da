/** What the two-stage test and the sweep of `cpu` guarantee about the
    records they produce. */
module SearchProperties {
  import opened Wrappers
  import opened Hex
  import opened Codec
  import opened Hashing
  import opened Configuration
  import opened Search

  lemma StartsWithMarker(s: string, p: string)
    ensures StartsWith("0x" + s, "0x" + p) <==> StartsWith(s, p)
  {
    if StartsWith("0x" + s, "0x" + p) {
      assert s[..|p|] == ("0x" + s)[..|p| + 2][2..];
    }
    if StartsWith(s, p) {
      assert ("0x" + s)[..|p| + 2] == "0x" + s[..|p|];
    }
  }

  /** For an even number of target digits, the raw test on bytes is the
      case-insensitive prefix test of the target against the checksum. */
  lemma RawTestIsCaseInsensitive(keccak: Hasher, c: Config, address: seq<byte>)
    requires WellFormed(c) && |c.targetStartString| % 2 == 0 && |address| == 20
    ensures StartsWith(address, TargetBytes(c.targetStartString))
        <==> StartsWith(Lower(ChecksumAddress(keccak, address)), Lower(c.targetStartString))
  {
    var t := c.targetStartString;
    var d := t[2..];
    var hex := HexEncode(address);
    DecodeTargetEven(d);
    HexEncodeDecode(d);
    assert HexEncode(TargetBytes(t)) == Lower(d);
    HexEncodeStartsWith(address, TargetBytes(t));
    assert Lower(ChecksumAddress(keccak, address)) == "0x" + hex;
    LowerMarker(t);
    StartsWithMarker(hex, Lower(d));
  }

  /** Lower-casing keeps the `0x` marker. */
  lemma LowerMarker(t: string)
    requires StartsWith(t, "0x")
    ensures Lower(t) == "0x" + Lower(t[2..])
  {
    assert t == "0x" + t[2..];
  }

  /** For an even number of target digits, passing the checksum test implies
      passing the raw test. */
  lemma ChecksumMatchImpliesRawMatch(keccak: Hasher, c: Config, address: seq<byte>)
    requires WellFormed(c) && |c.targetStartString| % 2 == 0 && |address| == 20
    requires StartsWith(ChecksumAddress(keccak, address), c.targetStartString)
    ensures StartsWith(address, TargetBytes(c.targetStartString))
  {
    LowerPrefix(ChecksumAddress(keccak, address), c.targetStartString);
    RawTestIsCaseInsensitive(keccak, c, address);
  }

  /** With the empty target `0x` every candidate passes both stages. */
  lemma EmptyTargetMatchesEverything(keccak: Hasher, c: Config, random: seq<byte>, nonce: seq<byte>)
    requires WellFormed(c) && c.targetStartString == "0x" && |random| == 6 && |nonce| == 6
    ensures CandidateRecord(keccak, c, random, nonce).Some?
  {
    var address := Create2Address(keccak, c.factoryAddress, Salt(c.callingAddress, random, nonce), c.initCodeHash);
    assert TargetBytes(c.targetStartString) == [];
    ChecksumLowercase(keccak, HexEncode(address));
  }

  /** With the empty target the sweep records every nonce. */
  lemma EmptyTargetRecordsEveryNonce(keccak: Hasher, c: Config, random: seq<byte>, n: nat)
    requires WellFormed(c) && c.targetStartString == "0x" && |random| == 6 && n <= MaxIncrementer
    ensures |Records(keccak, c, random, n)| == n
  {
    var outcome := Outcomes(keccak, c, random);
    forall x | 0 <= x < n ensures outcome(x).Some? {
      EmptyTargetMatchesEverything(keccak, c, random, U64ToFixed6(x));
    }
    WrittenLength(outcome, n);
  }

  /** An odd number of target digits is accepted, but its lone last digit
      becomes a whole byte: the raw test wants the hex digits `0` and that
      digit, the checksum test wants that digit in the first place. Only a
      last digit `0` can satisfy both. */
  lemma OddTargetNeedsFinalZero(keccak: Hasher, c: Config, address: seq<byte>)
    requires WellFormed(c) && |c.targetStartString| % 2 == 1 && |address| == 20
    requires StartsWith(address, TargetBytes(c.targetStartString))
    requires StartsWith(ChecksumAddress(keccak, address), c.targetStartString)
    ensures c.targetStartString[|c.targetStartString| - 1] == '0'
  {
    var t := c.targetStartString;
    var d := t[2..];
    var k := |d| / 2;
    assert |d| == 2 * k + 1;
    var target := TargetBytes(t);
    OddTargetLastByte(d);
    assert address[k] == target[k];
    var hex := HexEncode(address);
    SmallByteHighDigit(address, k);
    ChecksumCase(keccak, hex, 2 * k);
    assert ChecksumAddress(keccak, address)[2 + 2 * k] == t[2 + 2 * k];
  }

  /** A byte below 16 is written with a high digit `0`. */
  lemma SmallByteHighDigit(bytes: seq<byte>, k: nat)
    requires k < |bytes| && bytes[k] < 16
    ensures HexEncode(bytes)[2 * k] == '0'
  {
    HexEncodeAt(bytes, 2 * k);
    assert (2 * k) / 2 == k && (2 * k) % 2 == 0;
  }

  /** The lone last digit of an odd target decodes to the byte at index
      `|d| / 2`, of value below 16. */
  lemma OddTargetLastByte(d: string)
    requires AllHex(d) && |d| % 2 == 1
    ensures |DecodeTarget(d)| == |d| / 2 + 1
    ensures DecodeTarget(d)[|d| / 2] as nat == HexValue(d[|d| - 1]) < 16
  {
    DecodeTargetOdd(d);
  }

  /** A nonce yields a record exactly when its address passes both stages;
      the record is then the salt string and the checksum. */
  lemma CandidateRecordPasses(keccak: Hasher, c: Config, random: seq<byte>, nonce: seq<byte>)
    requires WellFormed(c) && |random| == 6 && |nonce| == 6
    ensures var address := Create2Address(keccak, c.factoryAddress, Salt(c.callingAddress, random, nonce), c.initCodeHash);
      (CandidateRecord(keccak, c, random, nonce).Some? <==>
        StartsWith(address, TargetBytes(c.targetStartString))
        && StartsWith(ChecksumAddress(keccak, address), c.targetStartString))
  {
  }


  /** A target of more than 40 digits decodes to more than 20 bytes, so no
      20-byte address passes the raw test. */
  lemma LongTargetFailsRawTest(t: string, address: seq<byte>)
    requires StartsWith(t, "0x") && AllHex(t[2..]) && |t| > 42 && |address| == 20
    ensures !StartsWith(address, TargetBytes(t))
  {
  }

  /** Hence a target of more than 40 digits yields no record for any nonce. */
  lemma LongTargetNeverMatches(keccak: Hasher, c: Config, random: seq<byte>, nonce: seq<byte>)
    requires WellFormed(c) && |c.targetStartString| > 42 && |random| == 6 && |nonce| == 6
    ensures CandidateRecord(keccak, c, random, nonce) == None
  {
    var address := Create2Address(keccak, c.factoryAddress, Salt(c.callingAddress, random, nonce), c.initCodeHash);
    LongTargetFailsRawTest(c.targetStartString, address);
  }

  /** A record is `0x` and the 64 hex digits of the salt, ` => `, and the
      checksum of the address that salt derives; the address passes the raw
      test and the checksum the case-sensitive test. Decoding the salt from
      the record and deriving again gives the recorded address. */
  lemma RecordRoundTrip(keccak: Hasher, c: Config, random: seq<byte>, nonce: seq<byte>)
    requires WellFormed(c) && |random| == 6 && |nonce| == 6
    requires CandidateRecord(keccak, c, random, nonce).Some?
    ensures var line := CandidateRecord(keccak, c, random, nonce).value;
      var salt := Salt(c.callingAddress, random, nonce);
      var address := Create2Address(keccak, c.factoryAddress, salt, c.initCodeHash);
      && |line| == 112
      && line[..2] == "0x"
      && HexDecode(line[2..66]) == Some(salt)
      && line[66..70] == " => "
      && Lower(line[70..]) == "0x" + HexEncode(address)
      && StartsWith(line[70..], c.targetStartString)
      && StartsWith(address, TargetBytes(c.targetStartString))
  {
    var line := CandidateRecord(keccak, c, random, nonce).value;
    var salt := Salt(c.callingAddress, random, nonce);
    var address := Create2Address(keccak, c.factoryAddress, salt, c.initCodeHash);
    var checksum := ChecksumAddress(keccak, address);
    ChecksumLowercase(keccak, HexEncode(address));
    assert line == Record(FullSalt(c.callingAddress, random, nonce), checksum);
    RecordFields(HexEncode(salt), checksum);
    HexDecodeEncode(salt);
  }

  /** Where the fields of a record line sit. */
  lemma RecordFields(saltHex: string, checksum: string)
    requires |saltHex| == 64 && |checksum| == 42
    ensures var line := "0x" + saltHex + " => " + checksum;
      && |line| == 112 && line[..2] == "0x" && line[2..66] == saltHex
      && line[66..70] == " => " && line[70..] == checksum
  {
  }

  // ---------------------------------------------------------------------
  // Sequential sweeps in general

  /** A sweep writes one value per nonce that yields one. */
  lemma {:induction false} WrittenLength<T>(outcome: nat -> Option<T>, n: nat)
    requires forall x :: 0 <= x < n ==> outcome(x).Some?
    ensures |Written(outcome, n)| == n
  {
    if n > 0 {
      WrittenLength(outcome, n - 1);
    }
  }

  /** A value is written iff some nonce below `n` yields it. */
  lemma {:induction false} WrittenMembership<T>(outcome: nat -> Option<T>, n: nat, v: T)
    ensures v in Written(outcome, n) <==> exists x :: 0 <= x < n && outcome(x) == Some(v)
  {
    if n > 0 {
      WrittenMembership(outcome, n - 1, v);
      if outcome(n - 1) == Some(v) {
        assert v in Written(outcome, n);
      }
    }
  }

  predicate Distinct<T(==)>(s: seq<T>)
  {
    forall i, j :: 0 <= i < j < |s| ==> s[i] != s[j]
  }

  /** When no two nonces yield the same value, no value is written twice. */
  lemma {:induction false} WrittenDistinct<T>(outcome: nat -> Option<T>, n: nat)
    requires forall x, y :: 0 <= x < y < n && outcome(x).Some? ==> outcome(x) != outcome(y)
    ensures Distinct(Written(outcome, n))
  {
    if n > 0 {
      var before := Written(outcome, n - 1);
      WrittenDistinct(outcome, n - 1);
      if outcome(n - 1).Some? {
        var v := outcome(n - 1).value;
        forall i | 0 <= i < |before| ensures before[i] != v {
          WrittenMembership(outcome, n - 1, before[i]);
        }
      }
    }
  }

  // ---------------------------------------------------------------------
  // The sweep of `cpu`

  /** The sweep's records are exactly the records of the swept nonces: a
      line is written iff some nonce below `n` yields it, whatever the
      order of evaluation. */
  lemma RecordsAreCandidateRecords(keccak: Hasher, c: Config, random: seq<byte>, n: nat, line: string)
    requires WellFormed(c) && |random| == 6 && n <= MaxIncrementer
    ensures line in Records(keccak, c, random, n)
        <==> exists x :: 0 <= x < n && CandidateRecord(keccak, c, random, U64ToFixed6(x)) == Some(line)
  {
    var outcome := Outcomes(keccak, c, random);
    WrittenMembership(outcome, n, line);
    assert forall x :: 0 <= x < n ==> outcome(x) == CandidateRecord(keccak, c, random, U64ToFixed6(x));
  }

  /** Distinct nonces give distinct salts, so the sweep never writes the
      same line twice. */
  lemma RecordsAreDistinct(keccak: Hasher, c: Config, random: seq<byte>, n: nat)
    requires WellFormed(c) && |random| == 6 && n <= MaxIncrementer
    ensures Distinct(Records(keccak, c, random, n))
  {
    var outcome := Outcomes(keccak, c, random);
    forall x, y | 0 <= x < y < n && outcome(x).Some? ensures outcome(x) != outcome(y) {
      if outcome(x) == outcome(y) {
        CandidateRecordInjective(keccak, c, random, x, y, outcome(x).value);
      }
    }
    WrittenDistinct(outcome, n);
  }

  /** Two nonces of the sweep that yield the same record are the same
      nonce: the record spells out the salt, which ends in the nonce. */
  lemma CandidateRecordInjective(keccak: Hasher, c: Config, random: seq<byte>, x: nat, y: nat, line: string)
    requires WellFormed(c) && |random| == 6 && x < MaxIncrementer && y < MaxIncrementer
    requires CandidateRecord(keccak, c, random, U64ToFixed6(x)) == Some(line)
    requires CandidateRecord(keccak, c, random, U64ToFixed6(y)) == Some(line)
    ensures x == y
  {
    var nx, ny := U64ToFixed6(x), U64ToFixed6(y);
    RecordRoundTrip(keccak, c, random, nx);
    RecordRoundTrip(keccak, c, random, ny);
    var sx, sy := Salt(c.callingAddress, random, nx), Salt(c.callingAddress, random, ny);
    assert sx == sy;
    assert nx == sx[26..] == sy[26..] == ny;
    U64ToFixed6Injective(x, y);
  }
}
