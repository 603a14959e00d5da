/** The search engine of `cpu`: CREATE2 address derivation (EIP-1014), the
    two-stage match test, the mixed-case checksum, the result record, and one
    sweep of the nonce range for a given random salt segment. */
module Search {
  import opened Wrappers
  import opened Hex
  import opened Codec
  import opened Hashing
  import opened Configuration

  /** The byte that opens every CREATE2 hash message. */
  const ControlCharacter: byte := 0xff

  /** The exclusive upper bound of the nonce sweep. */
  const MaxIncrementer: nat := 0xffff_ffff_ffff

  // ---------------------------------------------------------------------
  // CREATE2

  /** The 32-byte salt: calling address, random segment, nonce. */
  function Salt(callingAddress: seq<byte>, random: seq<byte>, nonce: seq<byte>): (s: seq<byte>)
    ensures |s| == |callingAddress| + |random| + |nonce|
    ensures s[..|callingAddress|] == callingAddress && s[|callingAddress| + |random|..] == nonce
    ensures s[|callingAddress|..|callingAddress| + |random|] == random
  {
    callingAddress + random + nonce
  }

  /** The CREATE2 hash message `0xff ++ factory ++ salt ++ init_code_hash`. */
  function Create2Message(factory: seq<byte>, salt: seq<byte>, initCodeHash: seq<byte>): (m: seq<byte>)
    ensures |m| == 1 + |factory| + |salt| + |initCodeHash| && m[0] == ControlCharacter
    ensures m[|m| - |initCodeHash|..] == initCodeHash
  {
    [ControlCharacter] + factory + salt + initCodeHash
  }

  /** The derived address: the last 20 bytes of the digest of the message. */
  function Create2Address(keccak: Hasher, factory: seq<byte>, salt: seq<byte>, initCodeHash: seq<byte>): (a: seq<byte>)
    ensures |a| == 20
  {
    keccak(Create2Message(factory, salt, initCodeHash))[12..]
  }

  /** The part of the message that stays fixed during a sweep. */
  function Header(c: Config, random: seq<byte>): (h: seq<byte>)
    ensures |h| == 1 + |c.factoryAddress| + |c.callingAddress| + |random| && h[0] == ControlCharacter
  {
    [ControlCharacter] + c.factoryAddress + c.callingAddress + random
  }

  /** The header is 47 bytes (so `to_fixed_47` cannot fail), and the header
      followed by the nonce and the init code hash is the 85-byte CREATE2
      message of the salt `caller ++ random ++ nonce`. */
  lemma Create2MessageLayout(c: Config, random: seq<byte>, nonce: seq<byte>)
    requires WellFormed(c) && |random| == 6 && |nonce| == 6
    ensures |Header(c, random)| == 47
    ensures |Salt(c.callingAddress, random, nonce)| == 32
    ensures Header(c, random) + nonce + c.initCodeHash
         == Create2Message(c.factoryAddress, Salt(c.callingAddress, random, nonce), c.initCodeHash)
    ensures |Create2Message(c.factoryAddress, Salt(c.callingAddress, random, nonce), c.initCodeHash)| == 85
  {
  }

  // ---------------------------------------------------------------------
  // The checksum

  /** The checksum of a lowercase 40-digit hex address as `cpu` computes it:
      the digest of the address's 40 ASCII characters decides, nibble by
      nibble, whether the character is upper-cased. */
  function ChecksumHex(keccak: Hasher, address: string): (r: string)
    requires |address| == 40 && AllLowerHex(address)
    ensures |r| == 42 && r[..2] == "0x"
  {
    var digest := keccak(Ascii(address));
    "0x" + seq(40, i requires 0 <= i < 40 => if Nibble(digest, i) > 7 then ToUpper(address[i]) else address[i])
  }

  /** The checksum of a 20-byte address; lower-casing it gives `0x` and the
      hex encoding of the address. */
  function ChecksumAddress(keccak: Hasher, address: seq<byte>): (r: string)
    requires |address| == 20
    ensures |r| == 42 && Lower(r) == "0x" + HexEncode(address)
  {
    ChecksumLowercase(keccak, HexEncode(address));
    ChecksumHex(keccak, HexEncode(address))
  }

  /** The checksum loop of `cpu`: hashes the ASCII address, hex-encodes the
      digest, and appends one character per address digit. */
  method ComputeChecksum(keccak: Hasher, address: string) returns (checksumAddress: string)
    requires |address| == 40 && AllLowerHex(address)
    ensures checksumAddress == ChecksumHex(keccak, address)
  {
    var addressEncoded := Ascii(address);
    checksumAddress := "0x";
    var checksumHash := new Keccak(keccak);
    checksumHash.Update(addressEncoded);
    var checksumRes := checksumHash.Finalize();
    var addressHash := HexEncode(checksumRes);
    ghost var spec := ChecksumHex(keccak, address);
    assert checksumHash.absorbed == addressEncoded;
    assert checksumRes == keccak(Ascii(address));
    for nibble := 0 to |address|
      invariant checksumAddress == spec[..2 + nibble]
    {
      ChecksumStep(keccak, address, checksumRes, nibble);
      var hashCharacter := HexValue(addressHash[nibble]);
      var character := address[nibble];
      if hashCharacter > 7 {
        checksumAddress := checksumAddress + [ToUpper(character)];
      } else {
        checksumAddress := checksumAddress + [character];
      }
    }
    assert spec[..42] == spec;
  }

  /** One step of the checksum loop: character `2 + i` of the checksum is
      address digit `i`, upper-cased when hex digit `i` of the digest is
      above 7. */
  lemma ChecksumStep(keccak: Hasher, address: string, digest: Digest, i: nat)
    requires |address| == 40 && AllLowerHex(address) && i < 40
    requires digest == keccak(Ascii(address))
    ensures ChecksumHex(keccak, address)[..2 + i + 1]
         == ChecksumHex(keccak, address)[..2 + i]
          + [if HexValue(HexEncode(digest)[i]) > 7 then ToUpper(address[i]) else address[i]]
  {
    HexEncodeAt(digest, i);
    var spec := ChecksumHex(keccak, address);
    assert spec[..2 + i + 1] == spec[..2 + i] + [spec[2 + i]];
  }

  /** The checksum is `0x` and 42 characters, and lower-casing it gives back
      `0x` followed by the address. */
  lemma ChecksumLowercase(keccak: Hasher, address: string)
    requires |address| == 40 && AllLowerHex(address)
    ensures |ChecksumHex(keccak, address)| == 42
    ensures StartsWith(ChecksumHex(keccak, address), "0x")
    ensures Lower(ChecksumHex(keccak, address)) == "0x" + address
  {
    var r := ChecksumHex(keccak, address);
    assert r[..2] == "0x";
    forall i | 0 <= i < 42 ensures Lower(r)[i] == ("0x" + address)[i] {
      if i >= 2 {
        assert IsLowerHexDigit(address[i - 2]);
      }
    }
  }

  /** Character `i` of the address is upper-case in the checksum exactly when
      it is a letter and nibble `i` of the digest of the ASCII address
      exceeds 7; decimal digits are left alone. */
  lemma ChecksumCase(keccak: Hasher, address: string, i: nat)
    requires |address| == 40 && AllLowerHex(address) && i < 40
    ensures var c := ChecksumHex(keccak, address)[2 + i];
      && ('A' <= c <= 'Z' <==> 'a' <= address[i] <= 'f' && Nibble(keccak(Ascii(address)), i) > 7)
      && ('0' <= address[i] <= '9' ==> c == address[i])
  {
    assert IsLowerHexDigit(address[i]);
  }

  /** Re-encoding the lowercase form of a checksum gives the same checksum. */
  lemma ChecksumIdempotent(keccak: Hasher, address: string)
    requires |address| == 40 && AllLowerHex(address)
    ensures var r := Lower(ChecksumHex(keccak, address))[2..];
      |r| == 40 && AllLowerHex(r) && ChecksumHex(keccak, r) == ChecksumHex(keccak, address)
  {
    ChecksumLowercase(keccak, address);
    assert Lower(ChecksumHex(keccak, address))[2..] == address;
  }

  // ---------------------------------------------------------------------
  // The two-stage test and the record

  /** The bytes the raw test compares: the decoded digits after `0x`. */
  function TargetBytes(target: string): (r: seq<byte>)
    requires StartsWith(target, "0x") && AllHex(target[2..])
    ensures |r| == (|target| - 1) / 2
  {
    DecodeTarget(target[2..])
  }

  /** `"0x"` and the hex encoding of the 32-byte salt. */
  function FullSalt(callingAddress: seq<byte>, random: seq<byte>, nonce: seq<byte>): (r: string)
    ensures |r| == 2 + 2 * (|callingAddress| + |random| + |nonce|) && r[..2] == "0x"
  {
    "0x" + HexEncode(Salt(callingAddress, random, nonce))
  }

  /** The line written for a confirmed match (without its newline). */
  function Record(fullSalt: string, checksumAddress: string): (r: string)
    ensures |r| == |fullSalt| + 4 + |checksumAddress|
    ensures r[..|fullSalt|] == fullSalt && r[|fullSalt| + 4..] == checksumAddress
  {
    fullSalt + " => " + checksumAddress
  }

  /** The record `cpu` writes for one nonce, if any: stage 1 asks that the
      address bytes start with the target bytes, stage 2 that the checksum
      string start with the target string as given. */
  function CandidateRecord(keccak: Hasher, c: Config, random: seq<byte>, nonce: seq<byte>): (r: Option<string>)
    requires WellFormed(c) && |random| == 6 && |nonce| == 6
    ensures r.Some? ==> |r.value| == 112 && r.value[..66] == FullSalt(c.callingAddress, random, nonce)
  {
    var address := Create2Address(keccak, c.factoryAddress, Salt(c.callingAddress, random, nonce), c.initCodeHash);
    if !StartsWith(address, TargetBytes(c.targetStartString)) then None
    else
      var checksumAddress := ChecksumAddress(keccak, address);
      if StartsWith(checksumAddress, c.targetStartString)
      then Some(Record(FullSalt(c.callingAddress, random, nonce), checksumAddress))
      else None
  }

  /** The salt string `cpu` builds from hex positions 42.. of the encoded
      header and the encoded nonce is `0x` and the encoded 32-byte salt. */
  lemma FullSaltFromHeader(c: Config, random: seq<byte>, nonce: seq<byte>)
    requires WellFormed(c) && |random| == 6 && |nonce| == 6
    ensures |HexEncode(Header(c, random))| == 94
    ensures "0x" + HexEncode(Header(c, random))[42..] + HexEncode(nonce) == FullSalt(c.callingAddress, random, nonce)
    ensures |FullSalt(c.callingAddress, random, nonce)| == 66
  {
    var front := [ControlCharacter] + c.factoryAddress;
    assert Header(c, random) == front + (c.callingAddress + random);
    HexEncodeConcat(front, c.callingAddress + random);
    HexEncodeConcat(c.callingAddress + random, nonce);
    assert HexEncode(Header(c, random))[42..] == HexEncode(c.callingAddress + random);
  }

  /** One candidate as the body of the parallel loop handles it: clone the
      header state, absorb nonce and footer, finalize, then the two stages. */
  method EvaluateCandidate(c: Config, targetStart: seq<byte>, headerVec: seq<byte>, hashHeader: Keccak,
                           saltIncrementedSegment: seq<byte>, ghost random: seq<byte>)
    returns (output: Option<string>)
    requires WellFormed(c) && |random| == 6 && |saltIncrementedSegment| == 6
    requires targetStart == TargetBytes(c.targetStartString)
    requires headerVec == Header(c, random) && hashHeader.absorbed == headerVec
    ensures output == CandidateRecord(hashHeader.hasher, c, random, saltIncrementedSegment)
  {
    var hash := hashHeader.Clone();
    hash.Update(saltIncrementedSegment);
    hash.Update(c.initCodeHash);
    var res := hash.Finalize();
    Create2MessageLayout(c, random, saltIncrementedSegment);
    ghost var salt := Salt(c.callingAddress, random, saltIncrementedSegment);
    ghost var address := Create2Address(hashHeader.hasher, c.factoryAddress, salt, c.initCodeHash);
    assert res[12..32] == address;

    var last20Bytes := res[12..32];
    output := None;
    if StartsWith(last20Bytes, targetStart) {
      var addressBytes := ToFixed(res[12..], 20);
      var addressHexString := HexEncode(addressBytes[..]);
      assert addressBytes[..] == address;

      var headerHexString := HexEncode(headerVec);
      var bodyHexString := HexEncode(saltIncrementedSegment);
      FullSaltFromHeader(c, random, saltIncrementedSegment);
      var fullSalt := "0x" + headerHexString[42..] + bodyHexString;

      var checksumAddress := ComputeChecksum(hashHeader.hasher, addressHexString);
      assert checksumAddress == ChecksumAddress(hashHeader.hasher, address);
      if StartsWith(checksumAddress, c.targetStartString) {
        output := Some(fullSalt + " => " + checksumAddress);
      }
    }
  }

  // ---------------------------------------------------------------------
  // The sweep

  /** What each nonce of a sweep yields: its record, if any; nothing past
      the end of the nonce range. */
  function Outcomes(keccak: Hasher, c: Config, random: seq<byte>): nat -> Option<string>
    requires WellFormed(c) && |random| == 6
  {
    (x: nat) => if x < MaxIncrementer then CandidateRecord(keccak, c, random, U64ToFixed6(x)) else None
  }

  /** The values a sequential sweep over `0 .. n` writes, in nonce order,
      when nonce `x` yields `outcome(x)`. */
  function Written<T>(outcome: nat -> Option<T>, n: nat): (r: seq<T>)
    ensures |r| <= n
  {
    if n == 0 then [] else Written(outcome, n - 1) + ToSeq(outcome(n - 1))
  }

  /** The records of nonces `0 .. n`, in nonce order. */
  function Records(keccak: Hasher, c: Config, random: seq<byte>, n: nat): (r: seq<string>)
    requires WellFormed(c) && |random| == 6
    ensures |r| <= n
  {
    Written(Outcomes(keccak, c, random), n)
  }

  /** The append-only result file `efficient_addresses.txt`, as the lines
      appended to it during this run (what it held before is not modelled:
      it is opened with `append(true)` and never read). */
  class ResultFile {
    var lines: seq<string>

    /** The file as opened for this run: nothing appended yet. */
    constructor ()
      ensures lines == []
    {
      lines := [];
    }

    /** `writeln!` of one line under the file lock. */
    method AppendLine(line: string)
      modifies this
      ensures lines == old(lines) + [line]
    {
      lines := lines + [line];
    }
  }

  /** One iteration of the outer loop of `cpu` for the random segment
      `saltRandomSegment`: build the 47-byte header, absorb it once, then
      sweep the nonces. */
  method Cpu(config: Config, keccak: Hasher, saltRandomSegment: seq<byte>, file: ResultFile)
    requires WellFormed(config) && |saltRandomSegment| == 6
    modifies file
    ensures file.lines == old(file.lines) + Records(keccak, config, saltRandomSegment, MaxIncrementer)
  {
    var startWithoutPrefix := config.targetStartString[2..];
    var targetStart := DecodeTarget(startWithoutPrefix);

    var headerVec := [ControlCharacter];
    headerVec := headerVec + config.factoryAddress;
    headerVec := headerVec + config.callingAddress;
    headerVec := headerVec + saltRandomSegment;
    var header := ToFixed(headerVec, 47);

    var hashHeader := new Keccak(keccak);
    hashHeader.Update(header[..]);

    Sweep(config, targetStart, headerVec, hashHeader, saltRandomSegment, file);
  }

  /** The nonces `0 .. MaxIncrementer` in order, each evaluated from a clone
      of the header state; confirmed records are appended to `file`. */
  method Sweep(config: Config, targetStart: seq<byte>, headerVec: seq<byte>, hashHeader: Keccak,
               saltRandomSegment: seq<byte>, file: ResultFile)
    requires WellFormed(config) && |saltRandomSegment| == 6
    requires targetStart == TargetBytes(config.targetStartString)
    requires headerVec == Header(config, saltRandomSegment) && hashHeader.absorbed == headerVec
    modifies file
    ensures file.lines == old(file.lines) + Records(hashHeader.hasher, config, saltRandomSegment, MaxIncrementer)
  {
    ghost var keccak, lines := hashHeader.hasher, file.lines;
    var x := 0;
    while x < MaxIncrementer
      invariant x <= MaxIncrementer
      invariant hashHeader.absorbed == headerVec
      invariant file.lines == lines + Records(keccak, config, saltRandomSegment, x)
    {
      SweepNonce(config, targetStart, headerVec, hashHeader, saltRandomSegment, x, file);
      RecordsExtend(keccak, config, saltRandomSegment, lines, x);
      x := x + 1;
    }
    assert x == MaxIncrementer;
  }

  lemma RecordsExtend(keccak: Hasher, c: Config, random: seq<byte>, lines: seq<string>, x: nat)
    requires WellFormed(c) && |random| == 6 && x < MaxIncrementer
    ensures lines + Records(keccak, c, random, x + 1)
         == lines + Records(keccak, c, random, x) + ToSeq(CandidateRecord(keccak, c, random, U64ToFixed6(x)))
  {
  }

  /** The body of the parallel loop for nonce `x`. */
  method SweepNonce(config: Config, targetStart: seq<byte>, headerVec: seq<byte>, hashHeader: Keccak,
                    saltRandomSegment: seq<byte>, x: U64, file: ResultFile)
    requires WellFormed(config) && |saltRandomSegment| == 6
    requires targetStart == TargetBytes(config.targetStartString)
    requires headerVec == Header(config, saltRandomSegment) && hashHeader.absorbed == headerVec
    modifies file
    ensures file.lines == old(file.lines) + ToSeq(CandidateRecord(hashHeader.hasher, config, saltRandomSegment, U64ToFixed6(x)))
  {
    var saltIncrementedSegment := U64ToFixed6(x);
    var output := EvaluateCandidate(config, targetStart, headerVec, hashHeader, saltIncrementedSegment, saltRandomSegment);
    if output.Some? {
      file.AppendLine(output.value);
    }
  }
}
