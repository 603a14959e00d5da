/** `Config::new`: validation of the command-line arguments into the search
    parameters. `args` is the whole argument vector; its first element, the
    program name, is skipped. */
module Configuration {
  import opened Wrappers
  import opened Hex
  import opened Codec

  /** The validated search parameters. */
  datatype Config = Config(
    factoryAddress: seq<byte>,
    callingAddress: seq<byte>,
    initCodeHash: seq<byte>,
    gpuDevice: nat,
    targetStartString: string)

  /** What every `Config` produced by `New` satisfies and what `cpu` relies
      on: the fixed widths, a `u8` device, and a target made of `0x` followed
      by ASCII hex digits only. */
  predicate WellFormed(c: Config)
  {
    && |c.factoryAddress| == 20
    && |c.callingAddress| == 20
    && |c.initCodeHash| == 32
    && c.gpuDevice < 256
    && StartsWith(c.targetStartString, "0x")
    && AllHex(c.targetStartString[2..])
  }

  /** The errors `Config::new` returns, one per message. */
  datatype ConfigError =
    | MissingFactoryAddress
    | MissingCallingAddress
    | MissingInitCodeHash
    | MissingTargetStart
    | TargetWithoutPrefix
    | UndecodableFactoryAddress
    | UndecodableCallingAddress
    | UndecodableInitCodeHash
    | BadFactoryAddressLength
    | BadCallingAddressLength
    | BadInitCodeHashLength
    | InvalidGpuDevice
    | TargetNotHex

  /** The message returned for each error. */
  function Message(e: ConfigError): string
  {
    match e
    case MissingFactoryAddress => "didn't get a factory_address argument."
    case MissingCallingAddress => "didn't get a calling_address argument."
    case MissingInitCodeHash => "didn't get an init_code_hash argument."
    case MissingTargetStart => "didn't get an target_start argument."
    case TargetWithoutPrefix => "target_start argument must start with 0x."
    case UndecodableFactoryAddress => "could not decode factory address argument."
    case UndecodableCallingAddress => "could not decode calling address argument."
    case UndecodableInitCodeHash => "could not decode initialization code hash argument."
    case BadFactoryAddressLength => "invalid length for factory address argument."
    case BadCallingAddressLength => "invalid length for calling address argument."
    case BadInitCodeHashLength => "invalid length for initialization code hash argument."
    case InvalidGpuDevice => "invalid gpu device value."
    case TargetNotHex => "invalid target address start provided, not hex string."
  }

  /** The length of each message and its character 19: no two messages
      agree on both. */
  function MessageKey(e: ConfigError): (int, char)
  {
    match e
    case MissingFactoryAddress => (38, 'y')
    case MissingCallingAddress => (38, 'g')
    case MissingInitCodeHash => (38, 'c')
    case MissingTargetStart => (36, 't')
    case TargetWithoutPrefix => (41, 'n')
    case UndecodableFactoryAddress => (42, 'c')
    case UndecodableCallingAddress => (42, 'l')
    case UndecodableInitCodeHash => (51, 'i')
    case BadFactoryAddressLength => (44, 'f')
    case BadCallingAddressLength => (44, 'c')
    case BadInitCodeHashLength => (53, 'i')
    case InvalidGpuDevice => (25, 'v')
    case TargetNotHex => (54, 'e')
  }

  /** Each message has the length and character 19 that `MessageKey` lists
      (checked two messages at a time, the literals being long). */
  lemma MessageHasKey(e: ConfigError)
    ensures |Message(e)| > 19 && (|Message(e)|, Message(e)[19]) == MessageKey(e)
  {
    if e == MissingFactoryAddress || e == MissingCallingAddress {
      MissingAddressMessageKeys(e);
    } else if e == MissingInitCodeHash || e == MissingTargetStart {
      MissingHashOrTargetMessageKeys(e);
    } else if e == TargetWithoutPrefix || e == UndecodableFactoryAddress {
      PrefixOrFactoryDecodeMessageKeys(e);
    } else if e == UndecodableCallingAddress || e == UndecodableInitCodeHash {
      DecodeMessageKeys(e);
    } else if e == BadFactoryAddressLength || e == BadCallingAddressLength {
      AddressLengthMessageKeys(e);
    } else if e == BadInitCodeHashLength || e == InvalidGpuDevice {
      HashLengthOrDeviceMessageKeys(e);
    } else {
      TargetHexMessageKey(e);
    }
  }

  lemma MissingAddressMessageKeys(e: ConfigError)
    requires e == MissingFactoryAddress || e == MissingCallingAddress
    ensures |Message(e)| > 19 && (|Message(e)|, Message(e)[19]) == MessageKey(e)
  {
  }

  lemma MissingHashOrTargetMessageKeys(e: ConfigError)
    requires e == MissingInitCodeHash || e == MissingTargetStart
    ensures |Message(e)| > 19 && (|Message(e)|, Message(e)[19]) == MessageKey(e)
  {
  }

  lemma PrefixOrFactoryDecodeMessageKeys(e: ConfigError)
    requires e == TargetWithoutPrefix || e == UndecodableFactoryAddress
    ensures |Message(e)| > 19 && (|Message(e)|, Message(e)[19]) == MessageKey(e)
  {
  }

  lemma DecodeMessageKeys(e: ConfigError)
    requires e == UndecodableCallingAddress || e == UndecodableInitCodeHash
    ensures |Message(e)| > 19 && (|Message(e)|, Message(e)[19]) == MessageKey(e)
  {
  }

  lemma AddressLengthMessageKeys(e: ConfigError)
    requires e == BadFactoryAddressLength || e == BadCallingAddressLength
    ensures |Message(e)| > 19 && (|Message(e)|, Message(e)[19]) == MessageKey(e)
  {
  }

  lemma HashLengthOrDeviceMessageKeys(e: ConfigError)
    requires e == BadInitCodeHashLength || e == InvalidGpuDevice
    ensures |Message(e)| > 19 && (|Message(e)|, Message(e)[19]) == MessageKey(e)
  {
  }

  lemma TargetHexMessageKey(e: ConfigError)
    requires e == TargetNotHex
    ensures |Message(e)| > 19 && (|Message(e)|, Message(e)[19]) == MessageKey(e)
  {
  }

  /** The keys are distinct. */
  lemma MessageKeyInjective(e: ConfigError, e': ConfigError)
    requires MessageKey(e) == MessageKey(e')
    ensures e == e'
  {
  }

  /** Distinct errors have distinct messages, so the error kind loses
      nothing of the `Err(&str)` that `Config::new` returns. */
  lemma MessageInjective(e: ConfigError, e': ConfigError)
    requires Message(e) == Message(e')
    ensures e == e'
  {
    MessageHasKey(e);
    MessageHasKey(e');
    MessageKeyInjective(e, e');
  }

  /** What `Config::new` ends in: a configuration, an error, or a panic (the
      `unwrap` inside `without_prefix`). */
  datatype Outcome = Accepted(config: Config) | Rejected(error: ConfigError) | Aborted

  // ---------------------------------------------------------------------
  // `str::parse::<u8>`

  predicate IsDecimalDigit(c: char)
  {
    '0' <= c <= '9'
  }

  function DigitValue(c: char): nat
    requires IsDecimalDigit(c)
  {
    c as int - '0' as int
  }

  /** The digit loop of `u8::from_str_radix`: digits are taken left to
      right, the value so far is multiplied by ten and the digit added, and
      the parse fails at the first character that is not a digit or at the
      first step past 255. */
  function ParseDigits(digits: string, acc: nat): (r: Option<nat>)
    requires acc < 256
    ensures r.Some? ==> r.value < 256
  {
    if digits == [] then Some(acc)
    else if !IsDecimalDigit(digits[0]) then None
    else
      var v := acc * 10 + DigitValue(digits[0]);
      if v > 255 then None else ParseDigits(digits[1..], v)
  }

  /** `parse::<u8>`: an optional `+`, then one or more ASCII decimal digits
      (leading zeros allowed) whose value fits in a `u8`. */
  function ParseU8(s: string): (r: Option<nat>)
    ensures r.Some? ==> r.value < 256
    ensures s == [] || s == "+" ==> r.None?
  {
    var digits := if |s| > 0 && s[0] == '+' then s[1..] else s;
    if digits == [] then None else ParseDigits(digits, 0)
  }

  /** The shortest decimal rendering of `n`. */
  function Decimal(n: nat): (s: string)
    ensures |s| > 0 && forall i :: 0 <= i < |s| ==> IsDecimalDigit(s[i])
  {
    (if n < 10 then [] else Decimal(n / 10)) + [('0' as int + n % 10) as char]
  }

  /** Appending a digit multiplies the value parsed so far by ten and adds
      the digit, or fails past 255. */
  lemma {:induction false} ParseDigitsAppend(s: string, d: char, acc: nat)
    requires acc < 256 && IsDecimalDigit(d)
    ensures ParseDigits(s + [d], acc)
         == match ParseDigits(s, acc)
            case None => None
            case Some(v) => if v * 10 + DigitValue(d) > 255 then None else Some(v * 10 + DigitValue(d))
  {
    if s == [] {
      assert [d][1..] == [];
    } else if IsDecimalDigit(s[0]) {
      var v := acc * 10 + DigitValue(s[0]);
      assert (s + [d])[1..] == s[1..] + [d];
      if v <= 255 {
        ParseDigitsAppend(s[1..], d, v);
      }
    }
  }

  lemma {:induction false} ParseDigitsDecimal(n: nat)
    ensures ParseDigits(Decimal(n), 0) == (if n < 256 then Some(n) else None)
  {
    var d := ('0' as int + n % 10) as char;
    if n < 10 {
      ParseDigitsAppend([], d, 0);
      assert Decimal(n) == [] + [d];
    } else {
      ParseDigitsDecimal(n / 10);
      ParseDigitsAppend(Decimal(n / 10), d, 0);
    }
  }

  /** The decimal rendering of `n` parses back to `n` exactly when `n` fits
      in a `u8`; so the default `"255"` parses to 255. */
  lemma ParseU8Decimal(n: nat)
    ensures ParseU8(Decimal(n)) == (if n < 256 then Some(n) else None)
  {
    ParseDigitsDecimal(n);
    assert IsDecimalDigit(Decimal(n)[0]);
  }

  /** A string that parses holds only decimal digits after its optional
      `+`. */
  lemma {:induction false} ParseDigitsOnlyDigits(digits: string, acc: nat, i: nat)
    requires acc < 256 && ParseDigits(digits, acc).Some? && i < |digits|
    ensures IsDecimalDigit(digits[i])
  {
    if i > 0 {
      ParseDigitsOnlyDigits(digits[1..], acc * 10 + DigitValue(digits[0]), i - 1);
    }
  }

  // ---------------------------------------------------------------------
  // Config::new

  /** "strip 0x from args if applicable": `without_prefix` runs only when the
      argument starts with `0x`, so only the bare marker `0x` panics; any
      other argument loses its marker, if it has one. */
  function Stripped(s: string): (r: Option<string>)
    ensures r.None? <==> s == "0x"
    ensures r.Some? ==> r.value == Unmarked(s)
  {
    if StartsWith(s, "0x") then
      assert |s| < 3 ==> s == s[..2];
      WithoutPrefix(s)
    else Some(s)
  }

  /** The fifth argument, or `"255"` when it is absent: the decimal
      rendering of device 255, which selects the CPU (`ParseU8Decimal` shows
      that it parses back to 255). */
  function GpuDeviceString(args: seq<string>): (r: string)
    ensures |args| >= 6 ==> r == args[5]
    ensures |args| < 6 ==> r == Decimal(255)
  {
    if |args| >= 6 then args[5]
    else
      assert Decimal(255) == "255";
      "255"
  }

  /** The outcome of `Config::new` on the argument vector `args`. */
  function Validate(args: seq<string>): (r: Outcome)
    ensures |args| < 5 ==> r.Rejected?
    ensures r.Accepted? ==> |args| >= 5 && WellFormed(r.config) && r.config.targetStartString == args[4]
  {
    if |args| < 2 then Rejected(MissingFactoryAddress)
    else if |args| < 3 then Rejected(MissingCallingAddress)
    else if |args| < 4 then Rejected(MissingInitCodeHash)
    else if |args| < 5 then Rejected(MissingTargetStart)
    else
      var factory, calling, init, target := Stripped(args[1]), Stripped(args[2]), Stripped(args[3]), args[4];
      if factory.None? || calling.None? || init.None? then Aborted
      else if !StartsWith(target, "0x") then Rejected(TargetWithoutPrefix)
      else Decode(factory.value, calling.value, init.value, target, GpuDeviceString(args))
  }

  /** The second half of `Config::new`, once the hex arguments are stripped
      and the target is known to start with `0x`: decode, check lengths,
      parse the device, check the target digits. */
  function Decode(factory: string, calling: string, init: string, target: string, gpuDevice: string): (r: Outcome)
    requires StartsWith(target, "0x")
    ensures !r.Aborted?
    ensures r.Accepted? ==> WellFormed(r.config) && r.config.targetStartString == target
  {
    var factoryBytes, callingBytes, initBytes := HexDecode(factory), HexDecode(calling), HexDecode(init);
    if factoryBytes.None? then Rejected(UndecodableFactoryAddress)
    else if callingBytes.None? then Rejected(UndecodableCallingAddress)
    else if initBytes.None? then Rejected(UndecodableInitCodeHash)
    else if |factoryBytes.value| != 20 then Rejected(BadFactoryAddressLength)
    else if |callingBytes.value| != 20 then Rejected(BadCallingAddressLength)
    else if |initBytes.value| != 32 then Rejected(BadInitCodeHashLength)
    else
      var device := ParseU8(gpuDevice);
      if device.None? then Rejected(InvalidGpuDevice)
      else if !AllHex(target[2..]) then Rejected(TargetNotHex)
      else Accepted(Config(factoryBytes.value, callingBytes.value, initBytes.value, device.value, target))
  }

  /** `Config::new`, step by step as the source runs it: the argument strings
      are reassigned when their prefix is stripped, and the first failing
      check returns. */
  method New(args: seq<string>) returns (r: Outcome)
    ensures r == Validate(args)
  {
    if |args| < 2 { return Rejected(MissingFactoryAddress); }
    var factoryAddressString := args[1];
    if |args| < 3 { return Rejected(MissingCallingAddress); }
    var callingAddressString := args[2];
    if |args| < 4 { return Rejected(MissingInitCodeHash); }
    var initCodeHashString := args[3];
    if |args| < 5 { return Rejected(MissingTargetStart); }
    var targetStartString := args[4];
    var gpuDeviceString := if |args| >= 6 then args[5] else "255";

    if StartsWith(factoryAddressString, "0x") {
      var s := WithoutPrefix(factoryAddressString);
      if s.None? { return Aborted; }
      factoryAddressString := s.value;
    }
    if StartsWith(callingAddressString, "0x") {
      var s := WithoutPrefix(callingAddressString);
      if s.None? { return Aborted; }
      callingAddressString := s.value;
    }
    if StartsWith(initCodeHashString, "0x") {
      var s := WithoutPrefix(initCodeHashString);
      if s.None? { return Aborted; }
      initCodeHashString := s.value;
    }

    if !StartsWith(targetStartString, "0x") { return Rejected(TargetWithoutPrefix); }

    r := DecodeArguments(factoryAddressString, callingAddressString, initCodeHashString, targetStartString, gpuDeviceString);
  }

  /** The decoding half of `Config::new`: `Vec::from_hex` on the three
      stripped arguments, the length checks, the `to_fixed_N` copies, the
      device parse and the target digit check, each returning on failure. */
  method DecodeArguments(factoryAddressString: string, callingAddressString: string, initCodeHashString: string,
                         targetStartString: string, gpuDeviceString: string)
    returns (r: Outcome)
    requires StartsWith(targetStartString, "0x")
    ensures r == Decode(factoryAddressString, callingAddressString, initCodeHashString, targetStartString, gpuDeviceString)
  {
    var factoryAddressVec := HexDecode(factoryAddressString);
    if factoryAddressVec.None? { return Rejected(UndecodableFactoryAddress); }
    var callingAddressVec := HexDecode(callingAddressString);
    if callingAddressVec.None? { return Rejected(UndecodableCallingAddress); }
    var initCodeHashVec := HexDecode(initCodeHashString);
    if initCodeHashVec.None? { return Rejected(UndecodableInitCodeHash); }

    if |factoryAddressVec.value| != 20 { return Rejected(BadFactoryAddressLength); }
    if |callingAddressVec.value| != 20 { return Rejected(BadCallingAddressLength); }
    if |initCodeHashVec.value| != 32 { return Rejected(BadInitCodeHashLength); }

    var factoryAddress := ToFixed(factoryAddressVec.value, 20);
    var callingAddress := ToFixed(callingAddressVec.value, 20);
    var initCodeHash := ToFixed(initCodeHashVec.value, 32);

    var gpuDevice := ParseU8(gpuDeviceString);
    if gpuDevice.None? { return Rejected(InvalidGpuDevice); }

    if !AllHex(targetStartString[2..]) { return Rejected(TargetNotHex); }

    assert factoryAddress[..] == factoryAddressVec.value;
    assert callingAddress[..] == callingAddressVec.value;
    assert initCodeHash[..] == initCodeHashVec.value;
    r := Accepted(Config(factoryAddress[..], callingAddress[..], initCodeHash[..], gpuDevice.value, targetStartString));
  }

  // ---------------------------------------------------------------------
  // The order of the checks, stated independently of `Validate`

  /** The position of each check in `Config::new`. */
  function Rank(e: ConfigError): nat
  {
    match e
    case MissingFactoryAddress => 0
    case MissingCallingAddress => 1
    case MissingInitCodeHash => 2
    case MissingTargetStart => 3
    case TargetWithoutPrefix => 4
    case UndecodableFactoryAddress => 5
    case UndecodableCallingAddress => 6
    case UndecodableInitCodeHash => 7
    case BadFactoryAddressLength => 8
    case BadCallingAddressLength => 9
    case BadInitCodeHashLength => 10
    case InvalidGpuDevice => 11
    case TargetNotHex => 12
  }

  /** An argument with its `0x` marker removed, if it has one. */
  function Unmarked(s: string): string
  {
    if StartsWith(s, "0x") then s[2..] else s
  }

  /** Argument `i` is present and is not hex of an even number of digits. */
  predicate Undecodable(args: seq<string>, i: nat)
  {
    i < |args| && HexDecode(Unmarked(args[i])).None?
  }

  /** Argument `i` is present, decodes, but to the wrong number of bytes. */
  predicate WrongLength(args: seq<string>, i: nat, n: nat)
  {
    i < |args| && HexDecode(Unmarked(args[i])).Some? && |HexDecode(Unmarked(args[i])).value| != n
  }

  /** The condition the check for `e` tests, taken on its own. */
  predicate Fails(args: seq<string>, e: ConfigError)
  {
    match e
    case MissingFactoryAddress => |args| < 2
    case MissingCallingAddress => |args| < 3
    case MissingInitCodeHash => |args| < 4
    case MissingTargetStart => |args| < 5
    case TargetWithoutPrefix => |args| >= 5 && !StartsWith(args[4], "0x")
    case UndecodableFactoryAddress => Undecodable(args, 1)
    case UndecodableCallingAddress => Undecodable(args, 2)
    case UndecodableInitCodeHash => Undecodable(args, 3)
    case BadFactoryAddressLength => WrongLength(args, 1, 20)
    case BadCallingAddressLength => WrongLength(args, 2, 20)
    case BadInitCodeHashLength => WrongLength(args, 3, 32)
    case InvalidGpuDevice => ParseU8(GpuDeviceString(args)).None?
    case TargetNotHex => |args| >= 5 && StartsWith(args[4], "0x") && !AllHex(args[4][2..])
  }

  /** One of the three hex arguments is exactly `0x`: stripping it panics. */
  predicate BareMarker(args: seq<string>)
  {
    exists i :: 1 <= i < 4 && i < |args| && args[i] == "0x"
  }

  /** `Config::new` reports error `e` exactly when the check for `e` fails,
      every earlier check passes, and (past the four presence checks) no hex
      argument is a bare `0x`. */
  lemma ValidateRejects(args: seq<string>, e: ConfigError)
    ensures Validate(args) == Rejected(e) <==>
      && Fails(args, e)
      && (forall e' :: Rank(e') < Rank(e) ==> !Fails(args, e'))
      && (Rank(e) >= 4 ==> !BareMarker(args))
  {
    if Validate(args) == Rejected(e) {
      RejectedIsFirstFailure(args, e);
    } else if Fails(args, e) && (forall e' :: Rank(e') < Rank(e) ==> !Fails(args, e')) && (Rank(e) >= 4 ==> !BareMarker(args)) {
      FirstFailureIsRejected(args, e);
    }
  }

  lemma RejectedIsFirstFailure(args: seq<string>, e: ConfigError)
    requires Validate(args) == Rejected(e)
    ensures Fails(args, e) && (Rank(e) >= 4 ==> !BareMarker(args))
    ensures forall e' :: Rank(e') < Rank(e) ==> !Fails(args, e')
  {
    if |args| >= 5 {
      ValidateAborts(args);
      if StartsWith(args[4], "0x") {
        ValidateDecodes(args);
      }
    }
  }

  /** Past the presence checks, the marker check and the panics, `Config::new`
      decodes the unmarked arguments. */
  lemma ValidateDecodes(args: seq<string>)
    requires |args| >= 5 && !BareMarker(args) && StartsWith(args[4], "0x")
    ensures Validate(args) == Decode(Unmarked(args[1]), Unmarked(args[2]), Unmarked(args[3]), args[4], GpuDeviceString(args))
  {
    assert args[1] != "0x" && args[2] != "0x" && args[3] != "0x";
  }

  lemma FirstFailureIsRejected(args: seq<string>, e: ConfigError)
    requires Fails(args, e) && (Rank(e) >= 4 ==> !BareMarker(args))
    requires forall e' :: Rank(e') < Rank(e) ==> !Fails(args, e')
    ensures Validate(args) == Rejected(e)
  {
    ValidateAborts(args);
    ValidateAccepts(args);
    if Validate(args).Rejected? {
      var first := Validate(args).error;
      RejectedIsFirstFailure(args, first);
      RankInjective(e, first);
    }
  }

  lemma RankInjective(e: ConfigError, e': ConfigError)
    requires Rank(e) == Rank(e')
    ensures e == e'
  {
  }


  /** `Config::new` panics exactly when all four required arguments are
      present and one of the three hex arguments is a bare `0x`. */
  lemma ValidateAborts(args: seq<string>)
    ensures Validate(args) == Aborted <==> |args| >= 5 && BareMarker(args)
  {
  }

  /** `Config::new` succeeds exactly when no check fails and nothing panics. */
  lemma ValidateAccepts(args: seq<string>)
    ensures Validate(args).Accepted? <==> (forall e :: !Fails(args, e)) && !BareMarker(args)
  {
    ValidateAborts(args);
    match Validate(args)
    case Aborted =>
    case Rejected(e) => RejectedIsFirstFailure(args, e);
    case Accepted(_) =>
      forall e ensures !Fails(args, e) {
        AcceptedPasses(args, e);
      }
  }

  /** An accepted argument list passes every check. */
  lemma AcceptedPasses(args: seq<string>, e: ConfigError)
    requires Validate(args).Accepted?
    ensures !Fails(args, e)
  {
    ValidateAborts(args);
    ValidateDecodes(args);
  }

  /** Only the target's marker and digits are checked, not their number: with
      the other arguments accepted, `0x` followed by any hex digits is
      accepted and kept verbatim. */
  lemma TargetDigitsAccepted(args: seq<string>, digits: string)
    requires Validate(args).Accepted? && AllHex(digits)
    ensures |args| >= 5
    ensures var other := Validate(args[4 := "0x" + digits]);
      other.Accepted? && other.config.targetStartString == "0x" + digits
  {
    var other := args[4 := "0x" + digits];
    ValidateAccepts(args);
    ValidateAccepts(other);
    assert other[4][2..] == digits;
    forall e ensures !Fails(other, e) {
      assert !Fails(args, e);
    }
    assert other[1..4] == args[1..4];
  }

  /** In particular the empty target `0x` and the odd-length target `0x0`
      are accepted. */
  lemma EmptyAndOddTargetsAccepted(args: seq<string>)
    requires Validate(args).Accepted?
    ensures |args| >= 5
    ensures Validate(args[4 := "0x"]).Accepted? && Validate(args[4 := "0x0"]).Accepted?
  {
    TargetDigitsAccepted(args, "");
    TargetDigitsAccepted(args, "0");
    assert "0x" + "" == "0x" && "0x" + "0" == "0x0";
  }

  /** A configuration `Config::new` returns holds the decoded arguments with
      one `0x` removed, the device (255 when absent) and the target
      verbatim. */
  lemma AcceptedConfig(args: seq<string>)
    requires Validate(args).Accepted?
    ensures |args| >= 5
    ensures var c := Validate(args).config;
      && WellFormed(c)
      && Some(c.factoryAddress) == HexDecode(Unmarked(args[1]))
      && Some(c.callingAddress) == HexDecode(Unmarked(args[2]))
      && Some(c.initCodeHash) == HexDecode(Unmarked(args[3]))
      && c.targetStartString == args[4]
      && Some(c.gpuDevice) == ParseU8(GpuDeviceString(args))
      && (|args| == 5 ==> c.gpuDevice == 255)
  {
    ParseU8Decimal(255);
  }

}
