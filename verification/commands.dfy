/** The commands of the tool and the arguments they are parsed into, and
    the legacy entry point `parse_ldns_args` of `ldns-nsec3-hash`. */
module Commands {
  import opened Base
  import opened Lexopt
  import opened Errors
  import opened Nsec3HashCommand

  /** `Command`: each variant owns its validated arguments. */
  datatype Command = Nsec3Hash(args: Nsec3HashArgs) | Help(command: Option<string>)

  /** `Args`, the parsed command line. */
  datatype Args = Args(command: Command)

  /** `Args::execute`: what the command writes to standard output. Neither
      command fails. */
  function ExecuteArgs(a: Args, sha1: Bytes -> Digest): (r: Result<string, Error>)
    ensures r.Ok?
    ensures a.command.Help? ==> r.value == ""
    ensures a.command.Nsec3Hash? ==> |r.value| == 34 && r.value[32..] == ".\n"
  {
    match a.command
    case Nsec3Hash(args) => Ok(Execute(args, sha1))
    case Help(_) => Ok("")
  }

  /** `parse_ldns_args` for `ldns-nsec3-hash`: the legacy parser, whose
      failures carry the tool's help text as one more layer of context. */
  function ParseLdnsArgs(args: seq<Arg>): (r: Result<Args, Error>)
    ensures r.Ok? <==> LdnsParse(args).Ok?
    ensures r.Ok? ==> r.value == Args(Nsec3Hash(LdnsParse(args).value))
    ensures r.Err? ==> r.error == AddContext(LdnsParse(args).error, LDNS_HELP)
  {
    match LdnsParse(args)
    case Ok(a) => Ok(Args(Nsec3Hash(a)))
    case Err(e) => Err(AddContext(e, LDNS_HELP))
  }

  /** A legacy failure is a plain error with exactly one layer of context,
      the help text; it is rendered as the failure's message followed by the
      help block, and its exit code is 1. */
  lemma ParseLdnsArgsFailure(args: seq<Arg>, prog: string, term: bool)
    requires LdnsParse(args).Err?
    ensures ParseLdnsArgs(args).Err?
    ensures ParseLdnsArgs(args).error == Error(LdnsParse(args).error.primary, [LDNS_HELP])
    ensures ExitCode(ParseLdnsArgs(args).error) == 1
    ensures Rendering(ParseLdnsArgs(args).error, prog, term)
         == Headline(prog, term, Display(LdnsParse(args).error)) + ContextBlock(LDNS_HELP)
  {
    var e := LdnsParse(args).error;
    LdnsParseErrorPlain(args);
    AddContextEffect(e, LDNS_HELP, prog, term);
    assert e.context + [LDNS_HELP] == [LDNS_HELP];
  }
}
