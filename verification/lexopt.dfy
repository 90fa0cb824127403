/** The token stream the legacy argument parser walks (the `lexopt::Arg`
    values returned by `Parser::next`), what `Parser::value` hands back for a
    token, and the one `lexopt` error this model produces. */
module Lexopt {
  import opened Base
  import opened OsStrings

  /** One token: a short option `-c`, a long option `--name`, or a plain
      (positional) value. */
  datatype Arg = Short(c: char) | Long(name: string) | Value(v: OsString)

  /** The raw argument behind a token; this is what `Parser::value` returns
      when it takes the next argument as the value of an option. */
  function Raw(a: Arg): OsString {
    match a
    case Short(c) => FromText(ShortFlag(c))
    case Long(x) => FromText("--" + x)
    case Value(v) => v
  }

  /** How `lexopt` names a short option in its messages. */
  function ShortFlag(c: char): string {
    "-" + [c]
  }

  /** Errors of `lexopt`: an option whose value is missing, or any other
      failure, which this model keeps as its text. */
  datatype LexoptError = MissingValue(option: Option<string>) | OtherLexoptError(description: string)

  /** `Display` for `lexopt::Error`. */
  function LexoptMessage(e: LexoptError): string {
    match e
    case MissingValue(None) => "missing argument"
    case MissingValue(Some(o)) => "missing argument for option '" + o + "'"
    case OtherLexoptError(d) => d
  }
}
