/** The `nsec3-hash` command: its argument validators, the legacy
    `ldns-nsec3-hash` argument parser, the iterated NSEC3 hash (section 5 of
    RFC 5155) and the line the command prints. */
module Nsec3HashCommand {
  import opened Base
  import opened OsStrings
  import opened Lexopt
  import opened Errors
  import opened IntParse
  import opened DomainNames
  import opened Salts
  import opened OptionValues
  import Base32Hex

  //--- Hash algorithms

  /** `Nsec3HashAlg`: the one-octet hash algorithm number of NSEC3 records. */
  datatype HashAlg = HashAlg(code: byte)

  const SHA1: HashAlg := HashAlg(1)
  const SHA1_MNEMONIC := "SHA-1"

  /** `Nsec3HashAlg::to_mnemonic`: only SHA-1 has a name. */
  function ToMnemonic(alg: HashAlg): (m: Option<string>)
    ensures m.Some? <==> alg == SHA1
  {
    if alg == SHA1 then Some(SHA1_MNEMONIC) else None
  }

  /** `Nsec3HashAlg::from_mnemonic`. */
  function FromMnemonic(m: string): (alg: Option<HashAlg>)
    ensures alg.Some? ==> ToMnemonic(alg.value) == Some(m)
  {
    if m == SHA1_MNEMONIC then Some(SHA1) else None
  }

  /** The algorithms that have a mnemonic, which are the ones the hash
      supports. */
  type KnownAlg = a: HashAlg | ToMnemonic(a).Some? witness SHA1

  const UNKNOWN_NUMBER := "unknown algorithm number"
  const UNKNOWN_MNEMONIC := "unknown algorithm mnemonic"

  /** `parse_nsec_alg`: text that parses as a `u8` is an algorithm number
      and must have a mnemonic; any other text must be a mnemonic. */
  function ParseNsecAlg(arg: string): (r: Result<KnownAlg, string>)
    ensures ParseUnsigned(arg, 255).Ok? ==>
      (r.Ok? <==> ToMnemonic(HashAlg(ParseUnsigned(arg, 255).value)).Some?)
    ensures ParseUnsigned(arg, 255).Ok? && r.Ok? ==> r.value.code == ParseUnsigned(arg, 255).value
    ensures ParseUnsigned(arg, 255).Err? ==> (r.Ok? <==> FromMnemonic(arg).Some?)
    ensures ParseUnsigned(arg, 255).Err? && r.Ok? ==> ToMnemonic(r.value) == Some(arg)
    ensures r == Err(UNKNOWN_NUMBER) <==> ParseUnsigned(arg, 255).Ok? && r.Err?
    ensures r == Err(UNKNOWN_MNEMONIC) <==> ParseUnsigned(arg, 255).Err? && r.Err?
  {
    match ParseUnsigned(arg, 255)
    case Ok(num) =>
      var alg := HashAlg(num);
      if ToMnemonic(alg).Some? then Ok(alg) else Err(UNKNOWN_NUMBER)
    case Err(_) =>
      match FromMnemonic(arg)
      case Some(alg) => Ok(alg)
      case None => Err(UNKNOWN_MNEMONIC)
  }

  /** Every known algorithm is reached both from its number and from its
      mnemonic. */
  lemma NumberAndMnemonicAgree(alg: KnownAlg)
    ensures ParseNsecAlg(DecimalString(alg.code)) == Ok(alg)
    ensures ParseNsecAlg(ToMnemonic(alg).value) == Ok(alg)
  {
    ParseDecimalString(alg.code, 255);
    assert ParseUnsigned(SHA1_MNEMONIC, 255).Err? by {
      ParseUnsignedValue(SHA1_MNEMONIC, 255);
      assert !IsDigit(Unsigned(SHA1_MNEMONIC)[0]);
    }
  }

  /** A decimal number too large for an octet is not an algorithm number, so
      it is reported as an unknown mnemonic. */
  lemma OutOfRangeNumberIsMnemonicError(n: nat)
    requires n > 255
    ensures ParseNsecAlg(DecimalString(n)) == Err(UNKNOWN_MNEMONIC)
  {
    var s := DecimalString(n);
    assert s[0] != '+';
    assert Unsigned(s) == s;
    DecimalStringValue(n);
    ParseUnsignedValue(s, 255);
    assert s != SHA1_MNEMONIC by {
      assert IsDigit(s[0]);
    }
  }

  //--- Names and numbers

  /** KELVIN SIGN (U+212A): the one character outside ASCII whose Unicode
      lower-case form, `k`, is ASCII. */
  const KELVIN_SIGN: char := '\U{212A}'

  /** `char::to_lowercase` as far as a name can tell: ASCII upper-case
      letters and the Kelvin sign become ASCII lower-case letters. Every
      other character outside ASCII is kept; a name holding one is refused
      whatever its case. */
  function NameLowerChar(c: char): char {
    if c == KELVIN_SIGN then 'k' else LowerChar(c)
  }

  /** `str::to_lowercase`, one character at a time. */
  function NameLower(s: string): (r: string)
    ensures |r| == |s|
    ensures forall i :: 0 <= i < |s| ==> r[i] == NameLowerChar(s[i])
  {
    seq(|s|, i requires 0 <= i < |s| => NameLowerChar(s[i]))
  }

  /** The text with every Kelvin sign written as the letter `k`. */
  function KelvinToK(s: string): (r: string)
    ensures |r| == |s|
    ensures forall i :: 0 <= i < |s| ==> r[i] == (if s[i] == KELVIN_SIGN then 'k' else s[i])
  {
    seq(|s|, i requires 0 <= i < |s| => if s[i] == KELVIN_SIGN then 'k' else s[i])
  }

  /** `parse_name`, the validator of the native parser: the text is
      lower-cased before it is read as a name. */
  function ParseName(arg: string): (r: Result<DomainName, string>)
    ensures r.Ok? ==> forall i :: 0 <= i < |r.value.labels| ==> IsLowerCase(r.value.labels[i])
  {
    NameLowerIsAsciiLower(arg);
    NameFromStrLower(KelvinToK(arg));
    var r := NameFromStr(NameLower(arg));
    if r.Ok? then
      LowerLabelsLowerCase(NameFromStr(KelvinToK(arg)).value.labels);
      r
    else r
  }

  /** Lower-casing as `to_lowercase` does is ASCII lower-casing once the
      Kelvin signs are written as `k`. */
  lemma NameLowerIsAsciiLower(s: string)
    ensures NameLower(s) == Lower(KelvinToK(s))
  {
    forall i | 0 <= i < |s| ensures NameLower(s)[i] == Lower(KelvinToK(s))[i] {
      if s[i] == KELVIN_SIGN {
        assert LowerChar('k') == 'k';
      }
    }
  }

  /** `parse_name` accepts exactly the texts the legacy parser's name reader
      accepts once their Kelvin signs are written as `k`, refuses the others
      with the same error, and its labels are the lower-cased ones. A text
      without a Kelvin sign is read alike by both. */
  lemma ParseNameLowerCase(arg: string)
    ensures ParseName(arg).Ok? <==> NameFromStr(KelvinToK(arg)).Ok?
    ensures NameFromStr(KelvinToK(arg)).Err? ==> ParseName(arg) == NameFromStr(KelvinToK(arg))
    ensures ParseName(arg).Ok? ==>
      ParseName(arg).value.labels == LowerLabels(NameFromStr(KelvinToK(arg)).value.labels)
    ensures (forall i :: 0 <= i < |arg| ==> arg[i] != KELVIN_SIGN) ==> KelvinToK(arg) == arg
  {
    NameLowerIsAsciiLower(arg);
    NameFromStrLower(KelvinToK(arg));
  }

  /** The two name readers differ only in case and in the Kelvin sign, so
      the hash input is the same whichever parser read the name; any text
      the legacy reader accepts has no Kelvin sign. */
  lemma ParseNameSameCanonical(arg: string)
    ensures NameFromStr(KelvinToK(arg)).Ok? ==>
      ParseName(arg).Ok? && Canonical(ParseName(arg).value) == Canonical(NameFromStr(KelvinToK(arg)).value)
    ensures NameFromStr(arg).Ok? ==> KelvinToK(arg) == arg
  {
    ParseNameLowerCase(arg);
    var k := KelvinToK(arg);
    if NameFromStr(k).Ok? {
      var n := NameFromStr(k).value;
      var m := ParseName(arg).value;
      forall i | 0 <= i < |m.labels| ensures Lower(m.labels[i]) == Lower(n.labels[i]) {
        LowerIdempotent(n.labels[i]);
      }
      CanonicalIgnoresCase(m, n);
    }
    if NameFromStr(arg).Ok? {
      NameFromStrAscii(arg);
      assert forall i :: 0 <= i < |arg| ==> arg[i] != KELVIN_SIGN;
    }
  }

  /** The Kelvin sign is where the two readers part: `parse_name` reads
      `\u{212A}ey.test` as `key.test`, the legacy reader refuses it. */
  lemma KelvinSignReaders()
    ensures ParseName("\U{212A}ey.test") == Ok(Name(["key", "test"]))
    ensures NameFromStr("\U{212A}ey.test") == Err(BAD_CHAR)
  {
    var t := "\U{212A}ey.test";
    assert NameLower(t) == "key.test" by {
      assert NameLower(t)[0] == 'k';
      forall i | 1 <= i < |t| ensures NameLower(t)[i] == t[i] {
        assert t[i] != KELVIN_SIGN && !IsAsciiUpper(t[i]);
      }
    }
    KeyTestLabels();
    KelvinLabelRefused();
  }

  lemma KelvinLabelRefused()
    ensures NameFromStr("\U{212A}ey.test") == Err(BAD_CHAR)
  {
    var labels := ["\U{212A}ey", "test"];
    var t := "\U{212A}ey.test";
    assert t == labels[0] + "." + labels[1];
    assert t != "." && t[|t| - 1] == 't';
    assert DropFinalDot(t) == t;
    SplitLabelThenRest(labels[0], labels[1]);
    SplitNoDot(labels[1]);
    assert Split(t) == labels;
    assert !IsAscii(labels[0]) by {
      assert labels[0][0] == KELVIN_SIGN;
    }
    assert !HasEmptyLabel(labels) by {
      assert |labels[0]| == 3 && |labels[1]| == 4;
    }
    assert !HasLongLabel(labels);
  }

  lemma KeyTestLabels()
    ensures NameFromStr("key.test") == Ok(Name(["key", "test"]))
  {
    var labels := ["key", "test"];
    var t := "key.test";
    assert t == labels[0] + "." + labels[1];
    assert t != "." && t[|t| - 1] == 't';
    assert DropFinalDot(t) == t;
    SplitLabelThenRest(labels[0], labels[1]);
    SplitNoDot(labels[1]);
    assert Split(t) == labels;
    assert WireLength(labels) == 10 by {
      assert labels[1..] == ["test"];
      assert ["test"][1..] == [];
    }
    assert !HasEmptyLabel(labels) by {
      assert |labels[0]| == 3 && |labels[1]| == 4;
    }
    assert !HasLongLabel(labels);
    assert !HasNonAsciiLabel(labels) by {
      assert IsAscii(labels[0]) && IsAscii(labels[1]);
    }
  }

  lemma LowerIdempotent(s: string)
    ensures Lower(Lower(s)) == Lower(s)
  {
    forall j | 0 <= j < |s| ensures Lower(Lower(s))[j] == Lower(s)[j] {
      LowerCharFacts(s[j]);
    }
  }

  /** `u16::from_str`, the reader of the iteration count. */
  function ParseIterations(arg: string): (r: Result<u16, string>)
    ensures r.Ok? <==> ParseUnsigned(arg, 0xFFFF).Ok?
    ensures r.Ok? ==> r.value == ParseUnsigned(arg, 0xFFFF).value
    ensures r.Err? ==> r.error == IntErrorMessage(ParseUnsigned(arg, 0xFFFF).error)
  {
    ParseUnsignedValue(arg, 0xFFFF);
    match ParseUnsigned(arg, 0xFFFF)
    case Ok(n) => Ok(n)
    case Err(k) => Err(IntErrorMessage(k))
  }

  //--- Arguments

  /** The validated arguments of the command. */
  datatype Nsec3HashArgs = Nsec3HashArgs(algorithm: KnownAlg, iterations: u16, salt: Salt, name: DomainName)

  /** The usage text of `ldns-nsec3-hash`; it has no final line break. */
  const LDNS_HELP: string :=
    "ldns-nsec3-hash [OPTIONS] <domain name>\n"
    + "  prints the NSEC3 hash of the given domain name\n"
    + "\n"
    + "  -a <algorithm> hashing algorithm number\n"
    + "  -t <number>    iterations\n"
    + "  -s <string>    salt in hex"

  //--- The legacy parser

  /** The four mutable locals of `parse_ldns`. */
  datatype Slots = Slots(algorithm: KnownAlg, iterations: u16, salt: Salt, name: Option<DomainName>)

  /** Their initial values: SHA-1, one iteration, an empty salt, no name. */
  const DEFAULTS: Slots := Slots(SHA1, 1, [], None)

  const ALG_OPT := "algorithm (-a)"
  const SALT_OPT := "salt (-s)"
  const ITER_OPT := "iterations (-t)"
  const NAME_OPT := "domain name"
  const MISSING_NAME := "Missing domain name argument"

  function InvalidShortMessage(c: char): string {
    "Invalid short option: -" + [c]
  }

  function LongOptionMessage(name: string): string {
    "Long options are not supported, but `--" + name + "` given"
  }

  /** The short options that take a value. */
  predicate TakesValue(c: char) {
    c == 'a' || c == 's' || c == 't'
  }

  /** Decoding the value of `-a`, `-s` or `-t` into its slot. */
  function SetOption(c: char, val: OsString, st: Slots): (r: Result<Slots, Error>)
    requires TakesValue(c)
    ensures r.Ok? ==> r.value.name == st.name
    ensures r.Err? ==> r.error.primary.Other? && r.error.context == []
  {
    if c == 'a' then
      (match DecodeValue(ALG_OPT, val, ParseNsecAlg)
       case Ok(a) => Ok(st.(algorithm := a))
       case Err(e) => Err(e))
    else if c == 's' then
      (match DecodeValue(SALT_OPT, val, SaltFromStr)
       case Ok(s) => Ok(st.(salt := s))
       case Err(e) => Err(e))
    else
      match DecodeValue(ITER_OPT, val, ParseIterations)
      case Ok(n) => Ok(st.(iterations := n))
      case Err(e) => Err(e)
  }

  /** What the token loop does with the tokens `rest`, starting from the
      slots `st`: an option that takes a value consumes the next token; the
      first positional value is read as the name and later ones are skipped
      unread. */
  function Consume(rest: seq<Arg>, st: Slots): Result<Slots, Error>
    decreases |rest|
  {
    if rest == [] then Ok(st)
    else
      match rest[0]
      case Short(c) =>
        if !TakesValue(c) then Err(FromMessage(InvalidShortMessage(c)))
        else if |rest| == 1 then Err(FromLexopt(MissingValue(Some(ShortFlag(c)))))
        else
          (match SetOption(c, Raw(rest[1]), st)
           case Ok(next) => Consume(rest[2..], next)
           case Err(e) => Err(e))
      case Long(name) => Err(FromMessage(LongOptionMessage(name)))
      case Value(v) =>
        if st.name.Some? then Consume(rest[1..], st)
        else
          match DecodeValue(NAME_OPT, v, NameFromStr)
          case Ok(n) => Consume(rest[1..], st.(name := Some(n)))
          case Err(e) => Err(e)
  }

  /** After the loop: a name is required. */
  function Finish(r: Result<Slots, Error>): Result<Nsec3HashArgs, Error> {
    match r
    case Err(e) => Err(e)
    case Ok(st) =>
      if st.name.None? then Err(FromMessage(MISSING_NAME))
      else Ok(Nsec3HashArgs(st.algorithm, st.iterations, st.salt, st.name.value))
  }

  /** The result of `parse_ldns` on the tokens `args`. */
  function LdnsParse(args: seq<Arg>): Result<Nsec3HashArgs, Error> {
    Finish(Consume(args, DEFAULTS))
  }

  /** `parse_ldns`: the token loop over four mutable slots. */
  method ParseLdns(args: seq<Arg>) returns (r: Result<Nsec3HashArgs, Error>)
    ensures r == LdnsParse(args)
  {
    var algorithm: KnownAlg := SHA1;
    var iterations: u16 := 1;
    var salt: Salt := [];
    var name: Option<DomainName> := None;
    var i := 0;
    while i < |args|
      invariant 0 <= i <= |args|
      invariant Finish(Consume(args[i..], Slots(algorithm, iterations, salt, name))) == LdnsParse(args)
      decreases |args| - i
    {
      var st := Slots(algorithm, iterations, salt, name);
      match args[i]
      case Short(c) =>
        if !TakesValue(c) {
          return Err(FromMessage(InvalidShortMessage(c)));
        }
        if i + 1 == |args| {
          return Err(FromLexopt(MissingValue(Some(ShortFlag(c)))));
        }
        var val := Raw(args[i + 1]);
        assert args[i..][1] == args[i + 1] && args[i..][2..] == args[i + 2..];
        if c == 'a' {
          var a := DecodeValue(ALG_OPT, val, ParseNsecAlg);
          if a.Err? {
            return Err(a.error);
          }
          algorithm := a.value;
        } else if c == 's' {
          var s := DecodeValue(SALT_OPT, val, SaltFromStr);
          if s.Err? {
            return Err(s.error);
          }
          salt := s.value;
        } else {
          var t := DecodeValue(ITER_OPT, val, ParseIterations);
          if t.Err? {
            return Err(t.error);
          }
          iterations := t.value;
        }
        i := i + 2;
      case Long(x) =>
        return Err(FromMessage(LongOptionMessage(x)));
      case Value(v) =>
        assert args[i..][1..] == args[i + 1..];
        if name.None? {
          var n := DecodeValue(NAME_OPT, v, NameFromStr);
          if n.Err? {
            return Err(n.error);
          }
          name := Some(n.value);
        }
        i := i + 1;
    }
    assert args[i..] == [];
    if name.None? {
      return Err(FromMessage(MISSING_NAME));
    }
    r := Ok(Nsec3HashArgs(algorithm, iterations, salt, name.value));
  }

  //--- What the legacy parser accepts

  /** The positional values of a token sequence, read the way the loop reads
      them: a token after `-a`, `-s` or `-t` is that option's value. */
  ghost function Positionals(args: seq<Arg>): seq<OsString>
    decreases |args|
  {
    if args == [] then []
    else if args[0].Short? && TakesValue(args[0].c) && |args| >= 2 then Positionals(args[2..])
    else if args[0].Value? then [args[0].v] + Positionals(args[1..])
    else Positionals(args[1..])
  }

  /** The raw value given to the last occurrence of the option `-opt`. */
  ghost function LastValue(args: seq<Arg>, opt: char): Option<OsString>
    decreases |args|
  {
    if args == [] then None
    else if args[0].Short? && TakesValue(args[0].c) && |args| >= 2 then
      var later := LastValue(args[2..], opt);
      if later.None? && args[0].c == opt then Some(Raw(args[1])) else later
    else LastValue(args[1..], opt)
  }

  /** A slot is left alone when its option is absent and holds the decoded
      last value otherwise. */
  ghost predicate SlotFromOption<T>(last: Option<OsString>, opt: string, f: string -> Result<T, string>,
                                    before: T, after: T)
  {
    if last.None? then after == before else DecodeValue(opt, last.value, f) == Ok(after)
  }

  /** The name slot, once set, stays; otherwise it holds the decoded first
      positional value, if any. */
  ghost predicate NameFromPositionals(ps: seq<OsString>, before: Option<DomainName>, after: Option<DomainName>) {
    if before.Some? then after == before
    else if ps == [] then after.None?
    else after.Some? && DecodeValue(NAME_OPT, ps[0], NameFromStr) == Ok(after.value)
  }

  lemma {:induction false} ConsumeSlots(args: seq<Arg>, st: Slots)
    requires Consume(args, st).Ok?
    ensures SlotFromOption(LastValue(args, 'a'), ALG_OPT, ParseNsecAlg, st.algorithm, Consume(args, st).value.algorithm)
    ensures SlotFromOption(LastValue(args, 's'), SALT_OPT, SaltFromStr, st.salt, Consume(args, st).value.salt)
    ensures SlotFromOption(LastValue(args, 't'), ITER_OPT, ParseIterations, st.iterations, Consume(args, st).value.iterations)
    ensures NameFromPositionals(Positionals(args), st.name, Consume(args, st).value.name)
    decreases |args|
  {
    if args != [] {
      match args[0]
      case Short(c) =>
        var next := SetOption(c, Raw(args[1]), st).value;
        ConsumeSlots(args[2..], next);
      case Value(v) =>
        if st.name.Some? {
          ConsumeSlots(args[1..], st);
        } else {
          var n := DecodeValue(NAME_OPT, v, NameFromStr).value;
          ConsumeSlots(args[1..], st.(name := Some(n)));
        }
    }
  }

  /** A successful legacy parse holds, for each option, the decoded value of
      its last occurrence or its default, and as the name the decoded first
      positional value. */
  lemma LdnsParseSlots(args: seq<Arg>)
    requires LdnsParse(args).Ok?
    ensures SlotFromOption(LastValue(args, 'a'), ALG_OPT, ParseNsecAlg, DEFAULTS.algorithm, LdnsParse(args).value.algorithm)
    ensures SlotFromOption(LastValue(args, 's'), SALT_OPT, SaltFromStr, DEFAULTS.salt, LdnsParse(args).value.salt)
    ensures SlotFromOption(LastValue(args, 't'), ITER_OPT, ParseIterations, DEFAULTS.iterations, LdnsParse(args).value.iterations)
    ensures Positionals(args) != []
    ensures DecodeValue(NAME_OPT, Positionals(args)[0], NameFromStr) == Ok(LdnsParse(args).value.name)
  {
    var st := Consume(args, DEFAULTS).value;
    ConsumeSlots(args, DEFAULTS);
    assert LdnsParse(args).value == Nsec3HashArgs(st.algorithm, st.iterations, st.salt, st.name.value);
  }

  lemma {:induction false} NoOptionNoValue(args: seq<Arg>, opt: char)
    requires forall k :: 0 <= k < |args| ==> args[k] != Short(opt)
    ensures LastValue(args, opt).None?
    decreases |args|
  {
    if args != [] {
      if args[0].Short? && TakesValue(args[0].c) && |args| >= 2 {
        NoOptionNoValue(args[2..], opt);
      } else {
        NoOptionNoValue(args[1..], opt);
      }
    }
  }

  /** Without `-a`, `-s` and `-t` tokens a successful legacy parse holds the
      defaults: SHA-1, one iteration and an empty salt. */
  lemma LdnsParseDefaults(args: seq<Arg>)
    requires LdnsParse(args).Ok?
    requires forall k :: 0 <= k < |args| ==> !(args[k].Short? && TakesValue(args[k].c))
    ensures LdnsParse(args).value.algorithm == SHA1
    ensures LdnsParse(args).value.iterations == 1
    ensures LdnsParse(args).value.salt == []
  {
    LdnsParseSlots(args);
    NoOptionNoValue(args, 'a');
    NoOptionNoValue(args, 's');
    NoOptionNoValue(args, 't');
  }

  /** Giving `-t` the decimal form of a count sets the iteration slot to that
      count. */
  lemma IterationsOption(k: u16, st: Slots)
    ensures SetOption('t', FromText(DecimalString(k)), st) == Ok(st.(iterations := k))
  {
    ToStrFromText(DecimalString(k));
    ParseDecimalString(k, 0xFFFF);
  }

  /** Once a prefix of the tokens has been consumed without error, the rest
      is consumed from the slots the prefix left. */
  lemma {:induction false} ConsumeAppend(p: seq<Arg>, q: seq<Arg>, st: Slots)
    requires Consume(p, st).Ok?
    ensures Consume(p + q, st) == Consume(q, Consume(p, st).value)
    decreases |p|
  {
    if p == [] {
      assert p + q == q;
    } else {
      match p[0]
      case Short(c) =>
        assert (p + q)[0] == p[0] && (p + q)[1] == p[1];
        assert (p + q)[2..] == p[2..] + q;
        ConsumeAppend(p[2..], q, SetOption(c, Raw(p[1]), st).value);
      case Value(v) =>
        assert (p + q)[0] == p[0];
        assert (p + q)[1..] == p[1..] + q;
        if st.name.Some? {
          ConsumeAppend(p[1..], q, st);
        } else {
          ConsumeAppend(p[1..], q, st.(name := Some(DecodeValue(NAME_OPT, v, NameFromStr).value)));
        }
    }
  }

  /** After a name has been read, a further positional value is skipped
      without being read: the parse is as if it were not there. */
  lemma ExtraPositionalIgnored(p: seq<Arg>, v: OsString, q: seq<Arg>)
    requires Consume(p, DEFAULTS).Ok? && Consume(p, DEFAULTS).value.name.Some?
    ensures LdnsParse(p + [Value(v)] + q) == LdnsParse(p + q)
  {
    var st := Consume(p, DEFAULTS).value;
    ConsumeAppend(p, [Value(v)] + q, DEFAULTS);
    assert p + [Value(v)] + q == p + ([Value(v)] + q);
    assert ([Value(v)] + q)[1..] == q;
    ConsumeAppend(p, q, DEFAULTS);
  }

  /** A long option reached by the loop fails the parse with a message that
      names it. */
  lemma LongOptionRejected(p: seq<Arg>, name: string, q: seq<Arg>)
    requires Consume(p, DEFAULTS).Ok?
    ensures LdnsParse(p + [Long(name)] + q) == Err(FromMessage(LongOptionMessage(name)))
  {
    ConsumeAppend(p, [Long(name)] + q, DEFAULTS);
    assert p + [Long(name)] + q == p + ([Long(name)] + q);
  }

  /** A short option other than `-a`, `-s` and `-t` reached by the loop
      fails the parse with a message that names it. */
  lemma InvalidShortRejected(p: seq<Arg>, c: char, q: seq<Arg>)
    requires Consume(p, DEFAULTS).Ok?
    requires !TakesValue(c)
    ensures LdnsParse(p + [Short(c)] + q) == Err(FromMessage(InvalidShortMessage(c)))
  {
    ConsumeAppend(p, [Short(c)] + q, DEFAULTS);
    assert p + [Short(c)] + q == p + ([Short(c)] + q);
  }

  /** An option that takes a value but ends the tokens fails with the
      missing-value error that names it. */
  lemma DanglingOptionRejected(p: seq<Arg>, c: char)
    requires Consume(p, DEFAULTS).Ok?
    requires TakesValue(c)
    ensures LdnsParse(p + [Short(c)]) == Err(FromLexopt(MissingValue(Some(ShortFlag(c)))))
  {
    ConsumeAppend(p, [Short(c)], DEFAULTS);
  }

  /** Tokens that are consumed without error but hold no positional value
      fail with the missing-name error; with a positional value the parse
      succeeds. */
  lemma MissingNameRejected(args: seq<Arg>)
    requires Consume(args, DEFAULTS).Ok?
    ensures LdnsParse(args).Ok? <==> Positionals(args) != []
    ensures Positionals(args) == [] ==> LdnsParse(args) == Err(FromMessage(MISSING_NAME))
  {
    ConsumeSlots(args, DEFAULTS);
  }

  /** The raw text of an option token, starting with `-`, is never a valid
      value of `-a`, `-s` or `-t`. */
  lemma OptionTextRejected(c: char, a: Arg)
    requires TakesValue(c)
    requires a.Short? || a.Long?
    ensures forall st :: SetOption(c, Raw(a), st).Err?
  {
    var s := if a.Short? then ShortFlag(a.c) else "--" + a.name;
    assert Raw(a) == FromText(s);
    ToStrFromText(s);
    DashRejected(s, 255);
    DashRejected(s, 0xFFFF);
    DashSaltRejected(s);
    assert s != SHA1_MNEMONIC;
  }

  /** A long option or an unknown short option anywhere among the tokens
      makes the legacy parse fail: no option value can swallow it, since
      option values never start with `-`. */
  lemma {:induction false} ConsumeBadOption(args: seq<Arg>, st: Slots, k: nat)
    requires k < |args|
    requires args[k].Long? || (args[k].Short? && !TakesValue(args[k].c))
    ensures Consume(args, st).Err?
    decreases |args|
  {
    if k > 0 {
      match args[0]
      case Short(c) =>
        if TakesValue(c) {
          if k == 1 {
            OptionTextRejected(c, args[1]);
          } else {
            match SetOption(c, Raw(args[1]), st) {
              case Ok(next) => ConsumeBadOption(args[2..], next, k - 2);
              case Err(_) =>
            }
          }
        }
      case Long(_) =>
      case Value(v) =>
        if st.name.Some? {
          ConsumeBadOption(args[1..], st, k - 1);
        } else {
          match DecodeValue(NAME_OPT, v, NameFromStr) {
            case Ok(n) => ConsumeBadOption(args[1..], st.(name := Some(n)), k - 1);
            case Err(_) =>
          }
        }
    }
  }

  lemma BadOptionRejected(args: seq<Arg>, k: nat)
    requires k < |args|
    requires args[k].Long? || (args[k].Short? && !TakesValue(args[k].c))
    ensures LdnsParse(args).Err?
  {
    ConsumeBadOption(args, DEFAULTS, k);
  }

  /** Every failure of the legacy parser is a plain error without context,
      so its exit code is 1. */
  lemma {:induction false} ConsumeErrorPlain(args: seq<Arg>, st: Slots)
    requires Consume(args, st).Err?
    ensures Consume(args, st).error.primary.Other? && Consume(args, st).error.context == []
    decreases |args|
  {
    match args[0]
    case Short(c) =>
      if TakesValue(c) && |args| >= 2 && SetOption(c, Raw(args[1]), st).Ok? {
        ConsumeErrorPlain(args[2..], SetOption(c, Raw(args[1]), st).value);
      }
    case Long(_) =>
    case Value(v) =>
      if st.name.Some? {
        ConsumeErrorPlain(args[1..], st);
      } else if DecodeValue(NAME_OPT, v, NameFromStr).Ok? {
        ConsumeErrorPlain(args[1..], st.(name := Some(DecodeValue(NAME_OPT, v, NameFromStr).value)));
      }
  }

  lemma LdnsParseErrorPlain(args: seq<Arg>)
    requires LdnsParse(args).Err?
    ensures LdnsParse(args).error.primary.Other? && LdnsParse(args).error.context == []
  {
    if Consume(args, DEFAULTS).Err? {
      ConsumeErrorPlain(args, DEFAULTS);
    }
  }

  /** Both an empty argument list and a lone `-a` are refused. */
  lemma LdnsParseRefusals()
    ensures LdnsParse([]) == Err(FromMessage(MISSING_NAME))
    ensures LdnsParse([Short('a')]) == Err(FromLexopt(MissingValue(Some("-a"))))
  {
    DanglingOptionRejected([], 'a');
    assert [] + [Short('a')] == [Short('a')];
    assert ShortFlag('a') == "-a";
  }

  //--- The iterated hash

  const DIGEST_LEN := 20

  /** A SHA-1 digest: twenty octets. */
  type Digest = d: Bytes | |d| == DIGEST_LEN witness seq(DIGEST_LEN, _ => 0)

  /** The hash of section 5 of RFC 5155: one digest of the input followed by
      the salt, then `k` further digests, each of the previous digest
      followed by the salt. */
  function IteratedHash(sha1: Bytes -> Digest, x: Bytes, salt: Bytes, k: nat): Digest
    decreases k
  {
    if k == 0 then sha1(x + salt) else sha1(IteratedHash(sha1, x, salt, k - 1) + salt)
  }

  /** `nsec3_hash`: a buffer holding the canonical owner name and the salt is
      digested, then refilled with the digest and the salt and digested
      again, `iterations` times. Only SHA-1 is supported; the source panics
      on any other algorithm. */
  method Nsec3Hash(sha1: Bytes -> Digest, owner: DomainName, algorithm: HashAlg, iterations: u16, salt: Salt)
    returns (h: Digest)
    requires algorithm == SHA1
    ensures h == IteratedHash(sha1, Canonical(owner), salt, iterations)
  {
    var buf: Bytes := [];
    buf := buf + Canonical(owner);
    buf := buf + salt;
    assert buf == Canonical(owner) + salt;
    h := sha1(buf);
    for i := 0 to iterations
      invariant h == IteratedHash(sha1, Canonical(owner), salt, i)
    {
      buf := buf[..0];
      buf := buf + h;
      buf := buf + salt;
      assert buf == h + salt;
      h := sha1(buf);
    }
  }

  /** `k` applications of one step `d` to `sha1(d + salt)`. */
  function Rehash(sha1: Bytes -> Digest, salt: Bytes, k: nat, d: Digest): Digest
    decreases k
  {
    if k == 0 then d else Rehash(sha1, salt, k - 1, sha1(d + salt))
  }

  lemma {:induction false} RehashLast(sha1: Bytes -> Digest, salt: Bytes, k: nat, d: Digest)
    ensures Rehash(sha1, salt, k + 1, d) == sha1(Rehash(sha1, salt, k, d) + salt)
    decreases k
  {
    if k > 0 {
      RehashLast(sha1, salt, k - 1, sha1(d + salt));
    }
  }

  /** The hash is the first digest with the step applied `k` more times. */
  lemma {:induction false} IteratedHashIsRehash(sha1: Bytes -> Digest, x: Bytes, salt: Bytes, k: nat)
    ensures IteratedHash(sha1, x, salt, k) == Rehash(sha1, salt, k, sha1(x + salt))
    decreases k
  {
    if k > 0 {
      IteratedHashIsRehash(sha1, x, salt, k - 1);
      RehashLast(sha1, salt, k - 1, sha1(x + salt));
    }
  }

  /** Names that agree up to ASCII case hash alike. */
  lemma HashIgnoresCase(sha1: Bytes -> Digest, n: DomainName, m: DomainName, salt: Salt, k: nat)
    requires |n.labels| == |m.labels|
    requires forall i :: 0 <= i < |n.labels| ==> Lower(n.labels[i]) == Lower(m.labels[i])
    ensures IteratedHash(sha1, Canonical(n), salt, k) == IteratedHash(sha1, Canonical(m), salt, k)
  {
    CanonicalIgnoresCase(n, m);
  }

  //--- Executing the command

  /** The line `execute` prints: the lower-cased base 32 form of the hash
      and a dot. */
  function Execute(args: Nsec3HashArgs, sha1: Bytes -> Digest): (out: string)
    ensures |out| == 34
    ensures out[32..] == ".\n"
    ensures forall i :: 0 <= i < 32 ==> Base32Hex.IsLowerAlphabetChar(out[i])
  {
    var h := IteratedHash(sha1, Canonical(args.name), args.salt, args.iterations);
    Base32Hex.LowerEncoding(h);
    Lower(Base32Hex.Encode(h)) + ".\n"
  }

  /** The printed line, without its final dot and newline, decodes back to
      the iterated hash of the name. */
  lemma ExecuteDecodes(args: Nsec3HashArgs, sha1: Bytes -> Digest)
    ensures Base32Hex.Decode(Execute(args, sha1)[..32])
         == Some(IteratedHash(sha1, Canonical(args.name), args.salt, args.iterations))
  {
    var h := IteratedHash(sha1, Canonical(args.name), args.salt, args.iterations);
    assert Execute(args, sha1)[..32] == Lower(Base32Hex.Encode(h));
    Base32Hex.DecodeEncode(h);
  }
}
