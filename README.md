# CREATE2 salt search: a Dafny model of the search engine

This project models the search engine of a CREATE2 vanity-address finder
(`src/lib.rs`). Given a factory address, a calling address, the Keccak-256
hash of some init code and a target prefix such as `0xdead`, the program
builds 32-byte salts. Each salt is the calling address, a random 6-byte
segment and a 6-byte nonce. For each salt it derives the CREATE2 address
(EIP-1014) and keeps the salts whose address passes two tests:

1. A raw test: the address bytes start with the decoded target bytes.
2. A checksum-exact test: the EIP-55 mixed-case form of the address starts
   with the target string as written, letter case included.

Each match is appended to a results file as `0x<salt> => <checksum>`.

The model has six modules:

- `Hex` (`hex.dfy`): bytes, ASCII case mapping, and the lowercase hex codec
  that the `hex` crate provides (`hex::encode`, `Vec::from_hex`).
- `Codec` (`codec.dfy`): `without_prefix`, the `to_fixed_N` array
  coercions, the nonce and little-endian byte encodings, and the decoding
  of the target digits in `cpu`.
- `Hashing` (`hashing.dfy`): the incremental Keccak-256 state, a class whose
  state is the sequence of bytes absorbed so far. The digest function is a
  parameter (`Hasher`), not modelled.
- `Configuration` (`configuration.dfy`):
  - `Config::new` as an imperative method (`New`, with `DecodeArguments`
    for its decoding half);
  - a specification function `Validate` that `New` is proved to compute;
  - lemmas that state the order of the thirteen error checks and the
    contents of an accepted configuration independently of `Validate`.
- `Search` (`search.dfy`):
  - the CREATE2 message and address;
  - the checksum loop, as a method proved against `ChecksumHex`;
  - the per-candidate body of the parallel loop (`EvaluateCandidate`);
  - one iteration of the outer loop of `cpu`, as a sequential sweep of
    the nonce range that appends to a `ResultFile` class.
- `SearchProperties` (`search_properties.dfy`): what the two-stage test and
  the sweep guarantee about the records they write.

Where the code departs from what its comments or the usual expectations
say, the model follows the code:

- **Odd-length targets are accepted.** One would expect an odd number of
  target digits to be rejected when the arguments are validated, but
  `Config::new` only checks that the digits after `0x` are hex digits. In
  `cpu`, a final lone digit is parsed on its own (`chunks(2)`), so it
  becomes a byte below 16. There is no decoding failure. `OddTargetNeedsFinalZero` proves the consequence: with
  an odd number of digits, a record can be written only when the last
  digit is `0`.
- **The checksum hashes the 40 ASCII characters** of the lowercase hex
  address, as `address.as_bytes()` gives them (`ChecksumHex`). The comment
  at `src/lib.rs:276` speaks of 20 bytes, but 40 bytes are hashed, not the
  20 raw address bytes.
- **`without_prefix` panics** when the argument is exactly `0x`, through
  the `unwrap` on `nth(2)`. `Config::new` therefore has a third outcome,
  `Aborted`, besides `Ok` and `Err`.

## Model

| member | source | states |
|---|---|---|
| Codec.WithoutPrefix | src/lib.rs:711-718 | succeeds exactly when the string has at least 3 characters; the result is the string after its first two characters |
| Codec.ToFixed | src/lib.rs:720-750 | returns a fresh array of length `n` holding exactly the first `n` bytes of the input (`to_fixed_20/32/47/4`) |
| Codec.U64ToFixed6 | src/lib.rs:752-762 | `u64_to_fixed_6` gives six bytes; their value is pinned by `U64ToFixed6Value` |
| Codec.U64ToFixed6Value | src/lib.rs:752-762 | the six bytes are the big-endian encoding of `x mod 2^48` |
| Codec.U64ToFixed6Injective | src/lib.rs:753-762 | two nonces below `MAX_INCREMENTER` with equal 6-byte encodings are equal |
| Codec.U64ToLeFixed8 | src/lib.rs:764-776 | `u64_to_le_fixed_8` gives eight bytes; their values are pinned by `U64ToLeFixed8At` and `U64ToLeFixed8Value` |
| Codec.U64ToLeFixed8At | src/lib.rs:764-776 | byte `i` of the little-endian encoding is `(x >> 8i) & 0xff` |
| Codec.U64ToLeFixed8Value | src/lib.rs:764-776 | reading the eight bytes least-significant first gives back `x` |
| Codec.DecodeTarget | src/lib.rs:200-204 | decoding `n` target digits gives `ceil(n/2)` bytes |
| Codec.DecodeTargetEven | src/lib.rs:200-204 | for an even number of digits the chunked decoding agrees with `Vec::from_hex` |
| Codec.DecodeTargetOdd | src/lib.rs:200-204 | for an odd number of digits the lone last digit becomes one more byte, of that digit's value |
| Hex.HexValue | src/lib.rs:203 | the value of a hex digit in either case is below 16 |
| Hex.HexDigit | src/lib.rs:261 | the digit written for a nibble is a lowercase hex digit whose value is that nibble |
| Hex.HexEncode | src/lib.rs:261 | the encoding has two characters per byte |
| Hex.HexEncodeAt | src/lib.rs:261 | character `i` of the encoding is the lowercase digit of nibble `i`, high nibble first |
| Hex.HexEncodeConcat | src/lib.rs:265-267 | encoding distributes over concatenation |
| Hex.HexEncodePrefix | src/lib.rs:265-267 | the encoding of the first `k` bytes is the first `2k` characters of the encoding |
| Hex.HexEncodeStartsWith | src/lib.rs:253-261 | a byte string starts with `p` if and only if its encoding starts with the encoding of `p` |
| Hex.HexEncodeInjective | src/lib.rs:261 | distinct byte strings have distinct encodings |
| Hex.HexDecode | src/lib.rs:107-120 | `Vec::from_hex` succeeds exactly on an even number of ASCII hex digits of either case, giving half as many bytes; the bytes are pinned by `HexDecodeEncode` and `HexEncodeDecode` |
| Hex.HexDecodeEncode | src/lib.rs:107-120 | decoding an encoding gives back the bytes |
| Hex.HexEncodeDecode | src/lib.rs:107-120 | encoding what was decoded gives back the input in lower case |
| Hex.Ascii | src/lib.rs:270-277 | the bytes of an ASCII string are its character codes, one per character |
| Configuration.ParseDigits | src/lib.rs:147-150 | the digit loop of `parse::<u8>` only ever yields a value below 256 |
| Configuration.ParseU8 | src/lib.rs:147-150 | `parse::<u8>` yields a value below 256 and fails on the empty string and on a bare `+` |
| Configuration.ParseU8Decimal | src/lib.rs:84-87 | `parse::<u8>` of the decimal rendering of `n` is `n` when `n < 256` and an error otherwise; in particular the default `"255"` parses to 255 |
| Configuration.ParseDigitsAppend | src/lib.rs:147-150 | appending a digit to a parsed prefix multiplies its value by ten and adds the digit, or fails past 255 |
| Configuration.ParseDigitsOnlyDigits | src/lib.rs:147-150 | a successful parse consists of decimal digits only |
| Configuration.Validate | src/lib.rs:60-168 | with fewer than four arguments after the program name the outcome is an error; an accepted configuration is well formed (20, 20 and 32 bytes, a `u8` device, `0x` and hex digits) and keeps the target verbatim |
| Configuration.Decode | src/lib.rs:106-167 | the decoding half never panics; what it accepts is well formed and keeps the target verbatim |
| Configuration.New | src/lib.rs:60-168 | the argument checks, early returns and `without_prefix` calls of `Config::new` compute `Validate(args)` |
| Configuration.DecodeArguments | src/lib.rs:106-167 | the decoding, length checks, fixed-array copies, device parse and target check compute the decoding half of `Validate` |
| Configuration.Stripped | src/lib.rs:89-100 | conditional stripping of `0x` panics exactly on the bare marker `0x` and otherwise removes the marker if present |
| Configuration.GpuDeviceString | src/lib.rs:84-87 | the device string is the fifth argument when given; otherwise it is the decimal rendering of 255 |
| Configuration.MessageHasKey | src/lib.rs:60-158 | each of the thirteen returned messages is told apart from the others by its length and its twentieth character |
| Configuration.MessageInjective | src/lib.rs:60-158 | distinct errors have distinct messages, so the error kind carries exactly what the returned string does |
| Configuration.ValidateRejects | src/lib.rs:60-158 | error `e` is returned exactly when its check fails, every earlier check passes, and, past the presence checks, no hex argument is a bare `0x` |
| Configuration.RejectedIsFirstFailure | src/lib.rs:60-158 | a returned error is a failing check with no failing check before it |
| Configuration.ValidateDecodes | src/lib.rs:60-158 | with all four required arguments present, no bare `0x`, and a marked target, the outcome is that of decoding the unmarked arguments |
| Configuration.AcceptedPasses | src/lib.rs:60-167 | an accepted argument list fails none of the thirteen checks |
| Configuration.FirstFailureIsRejected | src/lib.rs:60-158 | the first failing check is the error returned |
| Configuration.RankInjective | src/lib.rs:60-158 | each check has its own position in the order |
| Configuration.ValidateAborts | src/lib.rs:89-100 | `Config::new` panics exactly when all four required arguments are present and one of the three hex arguments is exactly `0x` |
| Configuration.ValidateAccepts | src/lib.rs:160-167 | a configuration is returned exactly when no check fails and no hex argument is a bare `0x` |
| Configuration.TargetDigitsAccepted | src/lib.rs:152-158 | only the target's digits are checked, not their number: with the other arguments accepted, `0x` and any hex digits is accepted and kept verbatim |
| Configuration.EmptyAndOddTargetsAccepted | src/lib.rs:152-158 | the empty target `0x` and the odd-length target `0x0` are accepted |
| Configuration.AcceptedConfig | src/lib.rs:141-167 | an accepted configuration is well formed; it holds the decoded arguments, the target verbatim and the parsed device; the device is 255 when no fifth argument is given |
| Hashing.Keccak.constructor | src/lib.rs:229 | a new state has absorbed nothing |
| Hashing.Keccak.Update | src/lib.rs:232 | `update` appends its input to what was absorbed |
| Hashing.Keccak.Clone | src/lib.rs:240 | the clone is a fresh state with the same absorbed bytes |
| Hashing.Keccak.Finalize | src/lib.rs:247-248 | the digest is the hash of everything absorbed |
| Search.Salt | src/lib.rs:176-179 | the salt is the calling address, the random segment and the nonce, in that order, with their lengths adding up |
| Search.Create2Message | src/lib.rs:219-244 | the message is one byte longer than its parts, opens with `0xff` and ends with the init code hash |
| Search.Header | src/lib.rs:219-226 | the header opens with `0xff` and is one byte plus the factory, the caller and the random segment long |
| Search.Create2Address | src/lib.rs:250 | the address is 20 bytes, the digest from byte 12 on |
| Search.Create2MessageLayout | src/lib.rs:219-244 | the header is 47 bytes; the salt is 32 bytes; the header, the nonce and the footer together form the 85-byte CREATE2 message `0xff ++ factory ++ salt ++ init_code_hash` |
| Search.ChecksumHex | src/lib.rs:269-302 | the checksum of a 40-digit lowercase address is 42 characters starting with `0x`; its case is pinned by `ChecksumCase` |
| Search.ChecksumAddress | src/lib.rs:261-302 | the checksum of a 20-byte address is 42 characters, and lower-casing it gives `0x` and the hex encoding of the address |
| Search.ComputeChecksum | src/lib.rs:269-302 | the checksum loop computes `ChecksumHex` of the address |
| Search.ChecksumStep | src/lib.rs:285-302 | each loop step appends the address digit, upper-cased when the digest's hex digit at that position is above 7 |
| Search.ChecksumLowercase | src/lib.rs:269-302 | the checksum is 42 characters, starts with `0x`, and its lower-case form is `0x` followed by the address |
| Search.ChecksumCase | src/lib.rs:285-302 | a character is upper case exactly when it is a letter and its digest nibble is above 7; decimal digits are unchanged |
| Search.ChecksumIdempotent | src/lib.rs:269-302 | checksumming the lower-case form of a checksum gives the same checksum |
| Search.TargetBytes | src/lib.rs:193-206 | the target `0x` + `n` digits gives `ceil(n/2)` bytes to compare |
| Search.FullSalt | src/lib.rs:264-267 | the salt string is `0x` followed by two characters per salt byte |
| Search.Record | src/lib.rs:313 | the record line is the salt string, a 4-character separator and the checksum, in that order |
| Search.CandidateRecord | src/lib.rs:250-313 | a record, when there is one, is 112 characters and opens with the salt string of its nonce; when there is one is pinned by `CandidateRecordPasses` |
| Search.FullSaltFromHeader | src/lib.rs:264-267 | the encoded header is 94 characters; `0x`, its characters from 42 on and the encoded nonce form the 66-character string `0x` + hex(salt) |
| Search.EvaluateCandidate | src/lib.rs:239-313 | cloning the header state, absorbing nonce and footer, and running both stages yields exactly `CandidateRecord` |
| Search.ResultFile.constructor | src/lib.rs:187-191 | a newly opened result file has no lines from this run |
| Search.ResultFile.AppendLine | src/lib.rs:316-324 | a write appends exactly one line |
| Search.Written | src/lib.rs:235-238 | a sequential sweep over `n` nonces writes at most `n` values |
| Search.Records | src/lib.rs:235-327 | the sweep of `n` nonces writes at most `n` records |
| Search.SweepNonce | src/lib.rs:237-326 | the loop body for nonce `x` appends the record of `x` if there is one, and nothing otherwise |
| Search.RecordsExtend | src/lib.rs:235-238 | the records of nonces `0..x+1` are those of `0..x` followed by the record of `x` |
| Search.Sweep | src/lib.rs:235-327 | the sweep appends exactly the records of nonces `0..MAX_INCREMENTER`, in nonce order |
| Search.Cpu | src/lib.rs:193-327 | one iteration of the outer loop appends exactly the records of the whole nonce range for its random segment |
| SearchProperties.RawTestIsCaseInsensitive | src/lib.rs:253-309 | for an even number of target digits, the raw test passes exactly when the lower-cased checksum starts with the lower-cased target |
| SearchProperties.ChecksumMatchImpliesRawMatch | src/lib.rs:253-311 | for an even number of target digits, passing the checksum test implies passing the raw test |
| SearchProperties.EmptyTargetMatchesEverything | src/lib.rs:253-311 | with the target `0x` every candidate yields a record |
| SearchProperties.EmptyTargetRecordsEveryNonce | src/lib.rs:235-327 | with the target `0x` the sweep writes one record per nonce |
| SearchProperties.OddTargetLastByte | src/lib.rs:200-204 | the lone last digit of an odd target decodes to a last byte below 16 |
| SearchProperties.OddTargetNeedsFinalZero | src/lib.rs:253-309 | with an odd number of target digits, a candidate passes both stages only if the last target digit is `0` |
| SearchProperties.SmallByteHighDigit | src/lib.rs:261 | a byte below 16 is encoded with a high digit `0` |
| SearchProperties.CandidateRecordPasses | src/lib.rs:253-313 | a nonce yields a record exactly when its address passes both the raw test and the checksum test |
| SearchProperties.LongTargetFailsRawTest | src/lib.rs:200-253 | a target of more than 40 digits fails the raw test for every 20-byte address |
| SearchProperties.LongTargetNeverMatches | src/lib.rs:250-313 | hence a target of more than 40 digits yields no record for any nonce |
| SearchProperties.RecordRoundTrip | src/lib.rs:264-313 | a record is 112 characters: `0x`, the 64 hex digits that decode to the salt, ` => `, and the checksum of the derived address, which starts with the target; the address passes the raw test |
| SearchProperties.RecordFields | src/lib.rs:313 | where the salt, the separator and the checksum sit in a record line |
| SearchProperties.WrittenLength | src/lib.rs:235-238 | a sweep in which every nonce yields a value writes one value per nonce |
| SearchProperties.WrittenMembership | src/lib.rs:235-238 | a value is written exactly when some swept nonce yields it |
| SearchProperties.WrittenDistinct | src/lib.rs:235-238 | when distinct nonces yield distinct values, nothing is written twice |
| SearchProperties.RecordsAreCandidateRecords | src/lib.rs:235-327 | a line is in the sweep's output exactly when some nonce in range yields it |
| SearchProperties.RecordsAreDistinct | src/lib.rs:235-327 | the sweep never writes the same line twice |
| SearchProperties.CandidateRecordInjective | src/lib.rs:235-267 | two swept nonces that yield the same record are the same nonce, because the record spells out the salt |

## Left out

- Keccak-256 itself (`tiny_keccak`) is a foreign cryptographic primitive. The digest function is a parameter, so the EIP-55 reference vector cannot be stated.
- Parallelism (`into_par_iter`) and the exclusive file lock are not modelled. The sweep is a sequential loop in nonce order, so the lemmas about the set of records, their count and their distinctness hold for any order.
- Opening the results file, the newline `writeln!` adds, and all console output (`eprintln!`, `println!`) are I/O. The file is a sequence of lines.
- The random number generator and the unbounded outer loop are not modelled. The 6-byte random segment is a parameter, and `Cpu` models one iteration.
- The OpenCL `gpu` path, `KERNEL_SRC` and the unused constants are left out; they are commented out or not part of the search engine.
- The argument vector is taken as strings: the panic of `std::env::Args` on an argument that is not valid Unicode, while `Config::new` reads its arguments, is not modelled.
- `src/main.rs` (exit codes and the choice between CPU and GPU) is not part of this model.
- Codec.ToFixed: the slice panic on a vector shorter than `N` is a precondition, not an outcome, because every caller checks or constructs the length first.
- Codec.U64ToFixed6Value: shifts and masks of `u64` are modelled as division and remainder by powers of 256 on unbounded integers. These are equal for values below 2^64.
- Configuration.ParseU8Decimal: `parse::<u8>` is modelled for ASCII input (an optional `+`, then decimal digits); the error kinds Rust distinguishes are merged into one.
