/** Decoding the value of a legacy option (`parse_os` and `parse_os_with`):
    the raw argument must be valid Unicode, and the validator must accept
    the text; either failure becomes a plain error that names the option. */
module OptionValues {
  import opened Base
  import opened OsStrings
  import opened Errors

  function NotUnicodeMessage(opt: string, val: OsString): string {
    "Invalid value for " + opt + ": \"" + Lossy(val) + "\" is not valid unicode"
  }

  function RejectedMessage(opt: string, text: string, reason: string): string {
    "Invalid value \"" + text + "\" for " + opt + ": " + reason
  }

  /** `parse_os_with(opt, val, f)`; `parse_os` is the same with the target
      type's `from_str` as `f`. */
  function DecodeValue<T>(opt: string, val: OsString, f: string -> Result<T, string>): (r: Result<T, Error>)
    ensures r.Ok? <==> IsUnicode(val) && f(ToStr(val).value).Ok?
    ensures r.Ok? ==> r.value == f(ToStr(val).value).value
    ensures !IsUnicode(val) ==> r == Err(FromMessage(NotUnicodeMessage(opt, val)))
    ensures IsUnicode(val) && f(ToStr(val).value).Err? ==>
      r == Err(FromMessage(RejectedMessage(opt, ToStr(val).value, f(ToStr(val).value).error)))
  {
    match ToStr(val)
    case None => Err(FromMessage(NotUnicodeMessage(opt, val)))
    case Some(s) =>
      match f(s)
      case Ok(v) => Ok(v)
      case Err(reason) => Err(FromMessage(RejectedMessage(opt, s, reason)))
  }
}
