/** The multicall dispatcher of `src/lib.rs`: the file name the program was
    invoked under selects the legacy grammar of an `ldns-*` tool, otherwise
    the native command line applies; `run` turns the outcome into an exit
    code and output. */
module Dispatch {
  import opened Base
  import opened OsStrings
  import opened Lexopt
  import opened Errors
  import opened Nsec3HashCommand
  import opened Commands

  const MISSING_BINARY := "Missing binary name"
  const MISSING_FILE_NAME := "Missing binary file name"
  const NOT_UNICODE_NAME := "Binary file name is not valid unicode"
  const LDNS_NSEC3_HASH := "ldns-nsec3-hash"

  /** The tokeniser of the legacy grammar (`lexopt`), taken as given. */
  type Lexer = seq<OsString> -> seq<Arg>

  /** The native parser (`Args::try_parse_from`), taken as given. */
  type NativeParser = seq<OsString> -> Result<Args, ClapError>

  /** `try_ldns_compatibility`: `None` when the invocation name is not that
      of a legacy tool; otherwise the legacy parse of the arguments after
      it. */
  function TryLdnsCompatibility(argv: seq<OsString>, lex: Lexer): (r: Result<Option<Args>, Error>)
    ensures argv == [] ==> r == Err(FromMessage(MISSING_BINARY))
    ensures argv != [] && FileName(argv[0]).None? ==> r == Err(FromMessage(MISSING_FILE_NAME))
    ensures argv != [] && FileName(argv[0]).Some? && !IsUnicode(FileName(argv[0]).value) ==>
      r == Err(FromMessage(NOT_UNICODE_NAME))
    ensures r.Err? ==> r.error.primary.Other?
  {
    if argv == [] then Err(FromMessage(MISSING_BINARY))
    else
      match FileName(argv[0])
      case None => Err(FromMessage(MISSING_FILE_NAME))
      case Some(file) =>
        match ToStr(file)
        case None => Err(FromMessage(NOT_UNICODE_NAME))
        case Some(name) =>
          if name != LDNS_NSEC3_HASH then Ok(None)
          else
            match ParseLdnsArgs(lex(argv[1..]))
            case Ok(a) => Ok(Some(a))
            case Err(e) =>
              LdnsParseErrorPlain(lex(argv[1..]));
              Err(e)
  }

  /** The legacy tool's name is a normal path component and valid
      Unicode. */
  lemma LegacyNameFacts()
    ensures IsNormalComponent(FromText(LDNS_NSEC3_HASH))
    ensures ToStr(FromText(LDNS_NSEC3_HASH)) == Some(LDNS_NSEC3_HASH)
  {
    var name := FromText(LDNS_NSEC3_HASH);
    assert name[0] == Char('l') && name[1] == Char('d');
    forall j | 0 <= j < |name| ensures name[j] != Sep {
      assert name[j] == Char(LDNS_NSEC3_HASH[j]);
    }
    ToStrFromText(LDNS_NSEC3_HASH);
  }

  /** A program path whose file name is the legacy tool's name hands the
      arguments after it to the legacy parser and returns its result. */
  lemma LegacyDispatch(first: OsString, rest: seq<OsString>, lex: Lexer)
    requires FileName(first) == Some(FromText(LDNS_NSEC3_HASH))
    ensures ParseLdnsArgs(lex(rest)).Ok? ==>
      TryLdnsCompatibility([first] + rest, lex) == Ok(Some(ParseLdnsArgs(lex(rest)).value))
    ensures ParseLdnsArgs(lex(rest)).Err? ==>
      TryLdnsCompatibility([first] + rest, lex) == Err(ParseLdnsArgs(lex(rest)).error)
  {
    LegacyNameFacts();
    assert ([first] + rest)[0] == first;
    assert ([first] + rest)[1..] == rest;
  }

  /** The legacy name, after any directory, selects the legacy parser, which
      gets exactly the arguments after the program path. */
  lemma LegacyNameSelectsLegacyParser(dir: OsString, rest: seq<OsString>, lex: Lexer)
    ensures TryLdnsCompatibility([dir + [Sep] + FromText(LDNS_NSEC3_HASH)] + rest, lex)
         == TryLdnsCompatibility([FromText(LDNS_NSEC3_HASH)] + rest, lex)
    ensures ParseLdnsArgs(lex(rest)).Ok? ==>
      TryLdnsCompatibility([FromText(LDNS_NSEC3_HASH)] + rest, lex) == Ok(Some(ParseLdnsArgs(lex(rest)).value))
    ensures ParseLdnsArgs(lex(rest)).Err? ==>
      TryLdnsCompatibility([FromText(LDNS_NSEC3_HASH)] + rest, lex) == Err(ParseLdnsArgs(lex(rest)).error)
  {
    var name := FromText(LDNS_NSEC3_HASH);
    LegacyNameFacts();
    FileNameOfJoin(dir, name);
    LegacyDispatch(dir + [Sep] + name, rest, lex);
    LegacyDispatch(name, rest, lex);
  }

  /** Any other valid file name gives `None`, whatever the other
      arguments are. */
  lemma OtherNamesIgnoreArguments(first: OsString, rest: seq<OsString>, rest': seq<OsString>, lex: Lexer, lex': Lexer)
    requires FileName(first).Some? && ToStr(FileName(first).value).Some?
    requires ToStr(FileName(first).value).value != LDNS_NSEC3_HASH
    ensures TryLdnsCompatibility([first] + rest, lex) == Ok(None)
    ensures TryLdnsCompatibility([first] + rest', lex') == Ok(None)
  {
  }

  /** The root has no file name. */
  lemma RootPathRejected(rest: seq<OsString>, lex: Lexer)
    ensures TryLdnsCompatibility([[Sep]] + rest, lex) == Err(FromMessage(MISSING_FILE_NAME))
  {
    assert ([[Sep]] + rest)[0] == [Sep];
    assert LastSep([Sep]) == 0;
    assert [Sep][1..] == [] && [Sep][..0] == [];
    assert FileName([Sep]) == None;
  }

  /** A path ending in `..`, after a directory or alone, has no file
      name. */
  lemma ParentPathRejected(dir: OsString, rest: seq<OsString>, lex: Lexer)
    ensures TryLdnsCompatibility([dir + [Sep] + DotDot] + rest, lex) == Err(FromMessage(MISSING_FILE_NAME))
    ensures TryLdnsCompatibility([DotDot] + rest, lex) == Err(FromMessage(MISSING_FILE_NAME))
  {
    var p := dir + [Sep] + DotDot;
    assert ([p] + rest)[0] == p;
    assert p[|p| - 1] == Char('.') && p[|p| - 2] == Char('.') && p[|p| - 3] == Sep;
    assert LastSep(p) == |p| - 3;
    assert p[|p| - 2..] == DotDot;
    assert ([DotDot] + rest)[0] == DotDot;
    assert LastSep(DotDot[..1]) == -1;
    assert LastSep(DotDot) == -1;
    assert DotDot[0..] == DotDot;
  }

  /** A file name that is not Unicode is refused, whatever directory comes
      before it. */
  lemma NonUnicodeNameRejected(dir: OsString, name: OsString, rest: seq<OsString>, lex: Lexer)
    requires IsNormalComponent(name) && !IsUnicode(name)
    ensures TryLdnsCompatibility([dir + [Sep] + name] + rest, lex) == Err(FromMessage(NOT_UNICODE_NAME))
    ensures TryLdnsCompatibility([name] + rest, lex) == Err(FromMessage(NOT_UNICODE_NAME))
  {
    FileNameOfJoin(dir, name);
    assert ([dir + [Sep] + name] + rest)[0] == dir + [Sep] + name;
    assert ([name] + rest)[0] == name;
  }

  /** `parse_args`: the legacy result when the invocation name selects one,
      otherwise the native parse of the whole command line. */
  function ParseArgs(argv: seq<OsString>, lex: Lexer, native: NativeParser): (r: Result<Args, Error>)
    ensures argv == [] ==> r == Err(FromMessage(MISSING_BINARY))
    ensures r.Err? && r.error.primary.Clap? ==>
      TryLdnsCompatibility(argv, lex) == Ok(None) && native(argv) == Err(r.error.primary.clap)
  {
    match TryLdnsCompatibility(argv, lex)
    case Err(e) => Err(e)
    case Ok(Some(a)) => Ok(a)
    case Ok(None) =>
      match native(argv)
      case Ok(a) => Ok(a)
      case Err(c) => Err(FromClap(c))
  }

  /** A legacy outcome, success or failure, is returned as it is: a legacy
      failure never falls back to the native parser. Only `None` hands the
      whole command line, program path included, to the native parser. */
  lemma ParseArgsFallback(argv: seq<OsString>, lex: Lexer, native: NativeParser)
    ensures TryLdnsCompatibility(argv, lex).Err? ==>
      ParseArgs(argv, lex, native) == Err(TryLdnsCompatibility(argv, lex).error)
    ensures TryLdnsCompatibility(argv, lex).Ok? && TryLdnsCompatibility(argv, lex).value.Some? ==>
      ParseArgs(argv, lex, native) == Ok(TryLdnsCompatibility(argv, lex).value.value)
    ensures TryLdnsCompatibility(argv, lex) == Ok(None) ==>
      (ParseArgs(argv, lex, native).Ok? <==> native(argv).Ok?)
    ensures TryLdnsCompatibility(argv, lex) == Ok(None) && native(argv).Ok? ==>
      ParseArgs(argv, lex, native).value == native(argv).value
    ensures TryLdnsCompatibility(argv, lex) == Ok(None) && native(argv).Err? ==>
      ParseArgs(argv, lex, native).error == FromClap(native(argv).error)
  {
  }

  /** What a run leaves behind: the exit code and the text written to
      standard output and standard error. */
  datatype RunOutcome = RunOutcome(exitCode: byte, stdout: string, stderr: string)

  /** `run`: parse, then execute; an error is printed and gives the exit
      code. `prog` is the program name the error headline shows and `term`
      tells whether standard error is a terminal. */
  function Run(argv: seq<OsString>, lex: Lexer, native: NativeParser, sha1: Bytes -> Digest,
               prog: string, term: bool): (out: RunOutcome)
    ensures ParseArgs(argv, lex, native).Ok? ==> out.exitCode == 0 && out.stderr == ""
    ensures ParseArgs(argv, lex, native).Err? ==> out.stdout == ""
  {
    var res := match ParseArgs(argv, lex, native)
      case Ok(a) => ExecuteArgs(a, sha1)
      case Err(e) => Err(e);
    match res
    case Ok(text) => RunOutcome(0, text, "")
    case Err(e) => RunOutcome(ExitCode(e), "", Rendering(e, prog, term))
  }

  /** The exit code is 0 exactly when the command line parses, or when the
      native parser's own error has an exit code whose low byte is 0;
      otherwise it is the error's exit code and the error is rendered on
      standard error. */
  lemma RunExitCode(argv: seq<OsString>, lex: Lexer, native: NativeParser, sha1: Bytes -> Digest,
                    prog: string, term: bool)
    ensures Run(argv, lex, native, sha1, prog, term).exitCode == 0 <==>
      ParseArgs(argv, lex, native).Ok?
      || (ParseArgs(argv, lex, native).error.primary.Clap?
          && ParseArgs(argv, lex, native).error.primary.clap.code % 256 == 0)
    ensures ParseArgs(argv, lex, native).Err? ==>
      Run(argv, lex, native, sha1, prog, term).exitCode == ExitCode(ParseArgs(argv, lex, native).error)
      && Run(argv, lex, native, sha1, prog, term).stderr == Rendering(ParseArgs(argv, lex, native).error, prog, term)
  {
  }

  /** Invoked as `ldns-nsec3-hash` with arguments the legacy parser accepts,
      the run succeeds and prints the hash line. */
  lemma LegacyRunSucceeds(dir: OsString, rest: seq<OsString>, lex: Lexer, native: NativeParser,
                          sha1: Bytes -> Digest, prog: string, term: bool)
    requires LdnsParse(lex(rest)).Ok?
    ensures Run([dir + [Sep] + FromText(LDNS_NSEC3_HASH)] + rest, lex, native, sha1, prog, term)
         == RunOutcome(0, Execute(LdnsParse(lex(rest)).value, sha1), "")
  {
    LegacyNameSelectsLegacyParser(dir, rest, lex);
  }

  /** Invoked as `ldns-nsec3-hash` with arguments the legacy parser refuses,
      the run exits with 1 and prints the failure with the help text. */
  lemma LegacyRunFails(dir: OsString, rest: seq<OsString>, lex: Lexer, native: NativeParser,
                       sha1: Bytes -> Digest, prog: string, term: bool)
    requires LdnsParse(lex(rest)).Err?
    ensures Run([dir + [Sep] + FromText(LDNS_NSEC3_HASH)] + rest, lex, native, sha1, prog, term)
         == RunOutcome(1, "", Headline(prog, term, Display(LdnsParse(lex(rest)).error)) + ContextBlock(LDNS_HELP))
  {
    LegacyNameSelectsLegacyParser(dir, rest, lex);
    ParseLdnsArgsFailure(lex(rest), prog, term);
  }

  /** `ldns-nsec3-hash` alone, and with a lone `-a`, exit with 1. */
  lemma LegacyRefusals(lex: Lexer, native: NativeParser, sha1: Bytes -> Digest, prog: string, term: bool)
    requires lex([]) == []
    requires lex([FromText("-a")]) == [Short('a')]
    ensures Run([FromText(LDNS_NSEC3_HASH)], lex, native, sha1, prog, term)
         == RunOutcome(1, "", Headline(prog, term, MISSING_NAME) + ContextBlock(LDNS_HELP))
    ensures Run([FromText(LDNS_NSEC3_HASH), FromText("-a")], lex, native, sha1, prog, term).exitCode == 1
  {
    LdnsParseRefusals();
    LegacyRunFails([], [], lex, native, sha1, prog, term);
    LegacyNameSelectsLegacyParser([], [], lex);
    LegacyRunFails([], [FromText("-a")], lex, native, sha1, prog, term);
    LegacyNameSelectsLegacyParser([], [FromText("-a")], lex);
    assert [FromText(LDNS_NSEC3_HASH)] + [] == [FromText(LDNS_NSEC3_HASH)];
    assert [FromText(LDNS_NSEC3_HASH)] + [FromText("-a")] == [FromText(LDNS_NSEC3_HASH), FromText("-a")];
  }

  /** When the native parser refuses the command line, the exit code is the
      low byte of clap's own code and standard error shows clap's styled
      text, with no headline and no context. */
  lemma NativeRefusal(argv: seq<OsString>, lex: Lexer, native: NativeParser, sha1: Bytes -> Digest,
                      prog: string, term: bool)
    ensures TryLdnsCompatibility(argv, lex) == Ok(None) && native(argv).Err? ==>
      Run(argv, lex, native, sha1, prog, term)
      == RunOutcome(native(argv).error.code % 256, "", native(argv).error.styled + "\n")
  {
  }

  const DNST := "dnst"

  /** Invoked as `dnst`, after any directory, the whole command line goes to
      the native parser: its refusal exits with the low byte of clap's code
      and prints clap's text, and its result is executed otherwise. */
  lemma NativeInvocation(dir: OsString, rest: seq<OsString>, lex: Lexer, native: NativeParser,
                         sha1: Bytes -> Digest, prog: string, term: bool)
    ensures TryLdnsCompatibility([dir + [Sep] + FromText(DNST)] + rest, lex) == Ok(None)
    ensures native([dir + [Sep] + FromText(DNST)] + rest).Err? ==>
      Run([dir + [Sep] + FromText(DNST)] + rest, lex, native, sha1, prog, term)
      == RunOutcome(native([dir + [Sep] + FromText(DNST)] + rest).error.code % 256, "",
                    native([dir + [Sep] + FromText(DNST)] + rest).error.styled + "\n")
    ensures native([dir + [Sep] + FromText(DNST)] + rest).Ok? ==>
      Run([dir + [Sep] + FromText(DNST)] + rest, lex, native, sha1, prog, term)
      == RunOutcome(0, ExecuteArgs(native([dir + [Sep] + FromText(DNST)] + rest).value, sha1).value, "")
  {
    var name := FromText(DNST);
    var argv := [dir + [Sep] + name] + rest;
    assert name[0] == Char('d');
    forall j | 0 <= j < |name| ensures name[j] != Sep {
      assert name[j] == Char(DNST[j]);
    }
    FileNameOfJoin(dir, name);
    ToStrFromText(DNST);
    assert argv[0] == dir + [Sep] + name;
    assert DNST != LDNS_NSEC3_HASH by {
      assert |DNST| != |LDNS_NSEC3_HASH|;
    }
  }
}
