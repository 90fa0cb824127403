# dnst core in Dafny: NSEC3 hashing, multicall dispatch, errors

`dnst` is a multicall DNS tool. The name it is invoked under decides how the
command line is read. Invoked as `ldns-nsec3-hash`, it reads the legacy
`ldns` grammar: short options `-a`, `-s`, `-t`, and a domain name. Under any
other name it reads its own native subcommand grammar. This project models
three parts of it in Dafny and proves properties of them:

- **The `nsec3-hash` command** (`src/commands/nsec3hash.rs`):
  - the legacy argument parser `parse_ldns`, a token loop over four slots:
    algorithm, iterations, salt and name;
  - the validators `parse_nsec_alg` and `parse_name`;
  - the iterated hash `nsec3_hash` (section 5 of RFC 5155) over the
    canonical owner name (section 6.2 of RFC 4034) followed by the salt;
  - the output line of `execute`.
- **The dispatcher** (`src/lib.rs`):
  - `try_ldns_compatibility` picks the legacy parser by the file name of the
    program path;
  - `parse_args` falls back to the native parser;
  - `run` maps the outcome to an exit code and output.
- **The error model** (`src/error.rs`):
  - an error is a primary message plus context layers, ordered innermost to
    outermost;
  - the `From` conversions, `context`, and the `Context` extension on
    results;
  - `exit_code`, `Display`, and the `pretty_print` rendering.

Files:

| file | module | models |
|---|---|---|
| `base.dfy` | `Base` | `Option`, `Result`, octets, ASCII lower-casing |
| `os_str.dfy` | `OsStrings` | `OsString`, `to_str`, `to_string_lossy`, `Path::file_name` on Unix |
| `lexopt.dfy` | `Lexopt` | the `lexopt` tokens, `Parser::value`, the missing-value error |
| `errors.dfy` | `Errors` | `src/error.rs` |
| `int_parse.dfy` | `IntParse` | `from_str` for `u8` and `u16`, and decimal rendering |
| `domain_name.dfy` | `DomainNames` | a stand-in for the `domain` crate's names and their canonical form |
| `salt.dfy` | `Salts` | a stand-in for `Nsec3Salt` and its hexadecimal form |
| `base32hex.dfy` | `Base32Hex` | base 32 with the extended hex alphabet (section 7 of RFC 4648), and its decoding |
| `option_values.dfy` | `OptionValues` | `parse_os` and `parse_os_with` |
| `nsec3hash.dfy` | `Nsec3HashCommand` | `src/commands/nsec3hash.rs` |
| `commands.dfy` | `Commands` | `Command`, `Args`, `parse_ldns_args` |
| `dispatch.dfy` | `Dispatch` | `src/lib.rs` |

How the source's shape is kept:

- `parse_ldns` is an imperative loop over mutable locals. It is the method
  `ParseLdns`, with a `while` loop. It is proved equal to `LdnsParse`, a
  recursive specification that consumes tokens the same way. The lemmas
  about what the parser accepts are stated about `LdnsParse`.
- `nsec3_hash` refills a buffer and reassigns the digest in a `for` loop. It
  is the method `Nsec3Hash`, proved equal to the recursive `IteratedHash`.
- `pretty_print` writes one block per context layer in a loop. It is the
  method `PrettyPrint`, proved equal to the function `Rendering`.
- Everything in `src/lib.rs` is a chain of `?`, `match` and result mapping.
  It is modelled as functions.

Inputs the source reads from its surroundings are parameters here:

- the SHA-1 digest, a function from octets to 20 octets;
- the `lexopt` tokeniser;
- clap's native parser;
- the program name shown in error headlines;
- whether standard error is a terminal.

Behaviour of the code that the model keeps and states as lemmas:

- A decimal number too large for an octet, such as `256`, given to `-a` is
  reported as an "unknown algorithm mnemonic". `parse_nsec_alg` parses
  numbers as `u8`, and a failed parse falls through to the mnemonic lookup
  (`OutOfRangeNumberIsMnemonicError`).
- The legacy parser reads the name without lower-casing it. The native
  validator `parse_name` lower-cases it first, with Unicode `to_lowercase`.
  That turns the Kelvin sign (U+212A) into the ASCII letter `k`, so
  `parse_name` reads `\u{212A}ey.test` as `key.test` while the legacy reader
  refuses it (`KelvinSignReaders`). Apart from that the two readers accept
  the same texts and give names with the same canonical form, so the hash is
  the same (`ParseNameLowerCase`, `ParseNameSameCanonical`).
- Positional values after the first are skipped without being read, even
  when they are not valid names (`ExtraPositionalIgnored`).
- An option that takes a value swallows the next token whatever it is. That
  token's text then starts with `-`, which no validator accepts. So a long
  option or an unknown short option anywhere makes the legacy parse fail
  (`BadOptionRejected`).
- `pretty_print` writes the headline without a line break. Only the context
  blocks end in one, so an error with no context ends without a line break.
  A legacy error always carries the help text as context, so its rendering
  ends with a line break.

## Model

| member | source | states |
|---|---|---|
| Errors.New | src/error.rs:42-47 | a new error has a plain primary message and no context |
| Errors.AddContext | src/error.rs:50-53 | adding context keeps the primary message and every earlier layer in place and puts the new layer last |
| Errors.AddContextsAppends | src/error.rs:17-20 | layers added one by one end up after the existing ones, innermost first, with the primary unchanged |
| Errors.FromMessage | src/error.rs:107-117 | the error shows the text, has exit code 1 and no context |
| Errors.FromIo | src/error.rs:119-123 | the error shows the `io::Error`'s text, has exit code 1 and no context |
| Errors.FromLexopt | src/error.rs:125-129 | the error shows the `lexopt::Error`'s message, has exit code 1 and no context |
| Errors.FromClap | src/error.rs:131-137 | the error shows clap's plain text, has clap's exit code narrowed to a byte, and no context |
| Errors.Conversions | src/error.rs:107-137 | the conversions from text, `io::Error` and `lexopt::Error` give a plain primary with no context and exit code 1; the one from a clap error gives a clap primary with no context and clap's exit code |
| Errors.ExitCode | src/error.rs:89-102 | the exit code is 1 for plain errors and the low byte of clap's `i32` code for clap errors |
| Errors.Marker | src/error.rs:77-81 | the marker is the red `ERROR:` exactly when standard error is a terminal, and the plain `ERROR:` exactly when it is not |
| Errors.PrettyPrint | src/error.rs:56-87 | the text written equals `Rendering`: for a clap error, clap's styled text and a newline; otherwise `[prog] MARKER msg` followed by one `... while` block per layer, in stored order |
| Errors.Display | src/error.rs:142-146 | a clap error shows clap's plain text, any other error its message; that context layers never show is `AddContextEffect` |
| Errors.AddContextEffect | src/error.rs:142-146 | adding context changes neither the exit code nor what `Display` shows; a plain error's rendering gains exactly the new layer's block, and a clap error's rendering does not change |
| Errors.ResultContext | src/error.rs:176-178 | `context` on a result leaves `Ok` unchanged and adds exactly one layer to an `Err` |
| Errors.ResultWithContext | src/error.rs:180-182 | `with_context` leaves `Ok` unchanged and adds exactly the computed layer to an `Err` |
| Errors.NestedContextRendering | src/error.rs:175-183 | two nested contexts are stored inner then outer, and rendered in that order after the earlier rendering |
| IntParse.ParseUnsigned | src/commands/nsec3hash.rs:116 | integer parsing reports the empty-input error exactly for empty text, and any value it gives fits the target type |
| IntParse.ParseUnsignedValue | src/commands/nsec3hash.rs:116 | integer parsing succeeds exactly on an optional `+` followed by one or more digits whose value fits, and gives that value |
| IntParse.DashRejected | src/commands/nsec3hash.rs:116 | text starting with `-` is an invalid digit for unsigned types |
| IntParse.ParseDecimalString | src/commands/nsec3hash.rs:116 | parsing the decimal rendering of any value that fits gives back that value |
| OsStrings.ToStr | src/lib.rs:25-26 | `to_str` succeeds exactly on valid Unicode and gives the text that the raw string encodes |
| OsStrings.FileName | src/lib.rs:22-24 | a file name, when there is one, is a normal path component: non-empty, without separators, and neither `.` nor `..` |
| OsStrings.FileNameOfJoin | src/lib.rs:22-24 | the file name of a normal component, with or without any directory before it, is that component |
| DomainNames.CheckLabels | src/commands/nsec3hash.rs:88 | an accepted name has exactly the labels read from the text |
| DomainNames.NameStringRoundTrip | src/commands/nsec3hash.rs:88 | reading back the presentation form of any name gives the same name |
| DomainNames.CanonicalShape | src/commands/nsec3hash.rs:157 | the canonical form is as long as the wire form, at most 255 octets, and ends with the root's zero octet |
| DomainNames.CanonicalIgnoresCase | src/commands/nsec3hash.rs:157 | names whose labels agree up to ASCII case have the same canonical form |
| DomainNames.NameFromStrLower | src/commands/nsec3hash.rs:111-113 | lower-casing before reading accepts the same texts, fails with the same message, and gives the lower-cased labels |
| Salts.Base16Decode | src/commands/nsec3hash.rs:76 | decoded salt octets are half as many as the hex digits read |
| Salts.SaltRoundTrip | src/commands/nsec3hash.rs:76 | reading back a salt's presentation form, or its bare hex form, gives the same salt |
| Salts.DashSaltRejected | src/commands/nsec3hash.rs:76 | text of two or more characters starting with `-` is never a salt |
| Base32Hex.Encode | src/commands/nsec3hash.rs:133-135 | the encoding has one character of the extended hex alphabet per five bits, rounded up |
| Base32Hex.LowerEncoding | src/commands/nsec3hash.rs:133-135 | lower-casing the encoding keeps its length and leaves only `0`-`9` and `a`-`v` |
| Base32Hex.DecodeEncode | src/commands/nsec3hash.rs:133-135 | the encoding, in upper or lower case, decodes back to the octets that were encoded |
| OptionValues.DecodeValue | src/commands/nsec3hash.rs:72 | an option value is accepted exactly when it is Unicode and the validator accepts it, and then has the validator's value; otherwise the plain error names the option and says whether the value was not Unicode or why it was refused |
| Nsec3HashCommand.ToMnemonic | src/commands/nsec3hash.rs:120 | an algorithm has a mnemonic exactly when it is SHA-1 |
| Nsec3HashCommand.FromMnemonic | src/commands/nsec3hash.rs:126 | a mnemonic maps to an algorithm whose own mnemonic it is |
| Nsec3HashCommand.ParseNsecAlg | src/commands/nsec3hash.rs:115-128 | text that parses as an octet is accepted exactly when that number has a mnemonic, and otherwise fails only with "unknown algorithm number"; other text is accepted exactly when it is a mnemonic, and otherwise fails only with "unknown algorithm mnemonic" |
| Nsec3HashCommand.NumberAndMnemonicAgree | src/commands/nsec3hash.rs:115-128 | every known algorithm is given both by its decimal number and by its mnemonic |
| Nsec3HashCommand.OutOfRangeNumberIsMnemonicError | src/commands/nsec3hash.rs:116-126 | a decimal number above 255 fails with "unknown algorithm mnemonic" |
| Nsec3HashCommand.ParseName | src/commands/nsec3hash.rs:111-113 | the labels of a name `parse_name` accepts hold no upper-case letter; how it relates to the plain reader is stated by `ParseNameLowerCase` and `KelvinSignReaders` |
| Nsec3HashCommand.ParseNameLowerCase | src/commands/nsec3hash.rs:111-113 | `parse_name` accepts exactly what the plain name reader accepts once Kelvin signs are written as `k`, fails with the same errors otherwise, and gives the lower-cased labels; a text without a Kelvin sign is read alike by both |
| Nsec3HashCommand.ParseNameSameCanonical | src/commands/nsec3hash.rs:111-113 | when the plain reader accepts the text with its Kelvin signs written as `k`, `parse_name` accepts the text and gives the same canonical form; a text the plain reader accepts has no Kelvin sign |
| Nsec3HashCommand.KelvinSignReaders | src/commands/nsec3hash.rs:111-113 | `parse_name` reads `\u{212A}ey.test` as `key.test`, which the plain reader used by the legacy parser refuses as an illegal character |
| DomainNames.NameFromStrAscii | src/commands/nsec3hash.rs:88 | every text the plain name reader accepts is ASCII throughout |
| Nsec3HashCommand.ParseIterations | src/commands/nsec3hash.rs:78-81 | the iteration count is accepted exactly when the text parses as a `u16`, with that value; otherwise the integer error's message is given |
| Nsec3HashCommand.SetOption | src/commands/nsec3hash.rs:70-81 | decoding an option's value never touches the name slot, and its failures are plain errors without context |
| Nsec3HashCommand.ParseLdns | src/commands/nsec3hash.rs:60-107 | the token loop over four mutable slots gives exactly `LdnsParse`, the recursive consumption of the tokens from the defaults followed by the missing-name check |
| Nsec3HashCommand.LdnsParseSlots | src/commands/nsec3hash.rs:61-106 | on success each option slot holds the decoded value of its last occurrence, or its default when the option is absent, and the name is the decoded first positional value |
| Nsec3HashCommand.LdnsParseDefaults | src/commands/nsec3hash.rs:61-63 | without `-a`, `-s` and `-t` tokens a successful parse gives SHA-1, one iteration and an empty salt |
| Nsec3HashCommand.IterationsOption | src/commands/nsec3hash.rs:78-81 | `-t` with the decimal form of any count sets exactly the iteration slot to that count |
| Nsec3HashCommand.ExtraPositionalIgnored | src/commands/nsec3hash.rs:82-88 | once a name is set, a further positional value, valid or not, leaves the parse as if it were absent |
| Nsec3HashCommand.LongOptionRejected | src/commands/nsec3hash.rs:91-93 | a long option `--x` reached by the loop fails with "Long options are not supported, but `--x` given" |
| Nsec3HashCommand.InvalidShortRejected | src/commands/nsec3hash.rs:90 | a short option other than `-a`, `-s`, `-t` reached by the loop fails with "Invalid short option: -x" |
| Nsec3HashCommand.DanglingOptionRejected | src/commands/nsec3hash.rs:71 | an option that takes a value but ends the tokens fails with `lexopt`'s missing-value error naming it |
| Nsec3HashCommand.MissingNameRejected | src/commands/nsec3hash.rs:97-99 | tokens consumed without error succeed exactly when they hold a positional value, and fail with "Missing domain name argument" when they hold none |
| Nsec3HashCommand.BadOptionRejected | src/commands/nsec3hash.rs:90-93 | a long option or an unknown short option anywhere among the tokens makes the parse fail |
| Nsec3HashCommand.LdnsParseErrorPlain | src/commands/nsec3hash.rs:60-107 | every legacy parse failure is a plain error without context |
| Nsec3HashCommand.LdnsParseRefusals | src/commands/nsec3hash.rs:210-216 | an empty argument list fails with the missing-name error, and a lone `-a` with the missing-value error for `-a` |
| Nsec3HashCommand.Nsec3Hash | src/commands/nsec3hash.rs:145-184 | the buffer-and-loop hash equals `IteratedHash`: the digest of the canonical owner name followed by the salt, then `iterations` further digests of the previous digest followed by the salt |
| Nsec3HashCommand.IteratedHashIsRehash | src/commands/nsec3hash.rs:168-180 | the hash is the first digest with the step h ↦ H(h followed by salt) applied exactly `iterations` times |
| Nsec3HashCommand.HashIgnoresCase | src/commands/nsec3hash.rs:157 | names that agree up to ASCII case hash alike |
| Nsec3HashCommand.Execute | src/commands/nsec3hash.rs:132-140 | the printed line is 32 characters of the lower-case base 32 alphabet followed by `.` and a newline |
| Nsec3HashCommand.ExecuteDecodes | src/commands/nsec3hash.rs:132-140 | the 32 characters before the dot decode back to the iterated hash of the name |
| Commands.ExecuteArgs | src/args.rs:13-16 | executing never fails; `help` prints nothing and `nsec3-hash` prints its 34-character line |
| Commands.ParseLdnsArgs | src/lib.rs:29 | the legacy entry point succeeds exactly when `parse_ldns` does, with its arguments, and a failure gets the help text as one more context layer |
| Commands.ParseLdnsArgsFailure | src/commands/nsec3hash.rs:48-58 | a legacy failure has the help text as its only context layer and exit code 1, and renders as the headline followed by the help block |
| Dispatch.TryLdnsCompatibility | src/lib.rs:16-34 | an empty argument list fails with "Missing binary name"; a program path without a file name fails with "Missing binary file name"; a file name that is not Unicode fails with "Binary file name is not valid unicode"; every failure is a plain error |
| Dispatch.LegacyNameSelectsLegacyParser | src/lib.rs:22-33 | `ldns-nsec3-hash`, after any directory, selects the legacy parser, which gets exactly the arguments after the program path; its result, success or failure, is returned as it is |
| Dispatch.OtherNamesIgnoreArguments | src/lib.rs:28-30 | any other valid Unicode file name gives `None`, whatever the other arguments and tokeniser are |
| Dispatch.RootPathRejected | src/lib.rs:22-24 | the root path has no file name: "Missing binary file name" |
| Dispatch.ParentPathRejected | src/lib.rs:22-24 | a path ending in `..`, after a directory or alone, has no file name: "Missing binary file name" |
| Dispatch.NonUnicodeNameRejected | src/lib.rs:22-26 | every normal file name that is not Unicode, alone or after any directory, gives "Binary file name is not valid unicode" |
| Dispatch.ParseArgs | src/lib.rs:36-42 | an empty argument list fails with "Missing binary name"; a clap error arises only when dispatch gave `None`, and it is the native parser's own error; the full case split is `ParseArgsFallback` |
| Dispatch.ParseArgsFallback | src/lib.rs:36-42 | a legacy failure or success is returned as it is; only `None` hands the whole command line, program path included, to the native parser, whose failure becomes a clap error |
| Dispatch.Run | src/lib.rs:44-53 | a successful parse exits with 0 and writes nothing on standard error; a failed one writes nothing on standard output |
| Dispatch.RunExitCode | src/lib.rs:44-53 | the exit code is 0 exactly when parsing succeeds or clap's own code has low byte 0; on failure it is the error's exit code and standard error holds the error's rendering |
| Dispatch.LegacyRunSucceeds | src/lib.rs:44-53 | `ldns-nsec3-hash` with accepted arguments exits with 0 and prints the hash line |
| Dispatch.LegacyRunFails | src/lib.rs:44-53 | `ldns-nsec3-hash` with refused arguments exits with 1 and writes the failure's headline and the help block |
| Dispatch.LegacyRefusals | src/commands/nsec3hash.rs:210-216 | `ldns-nsec3-hash` alone, or with a lone `-a`, exits with 1; alone, it writes the missing-name headline and the help block |
| Dispatch.NativeRefusal | src/error.rs:60-68 | when dispatch gives `None` and the native parser fails, the run exits with the low byte of clap's code and writes clap's styled text and a newline, with no headline and no context |
| Dispatch.NativeInvocation | src/lib.rs:36-53 | invoked as `dnst` after any directory, dispatch gives `None`; a native failure exits with the low byte of clap's code and prints clap's text, and a native success is executed and exits with 0 |

## Left out

- The SHA-1 digest from `ring` is a foreign call. Here it is a parameter: any function from octets to 20 octets. So the known test vector for `example.test` (`o09614ibh1cq1rcc86289olr22ea0fso.`) is not proved.
- `lexopt`'s tokenisation is a parameter. This covers combined short options, `-avalue`, `--` and `--name=value`. The parser walks whatever token sequence it gets. When an option takes a value, the next token's raw argument is that value.
- clap's native grammar, help and version output, and its error texts and codes are a parameter. The native parse's result is taken as given.
- `parse_os`, `parse_os_with` and `parse_ldns_args` are not part of this model's sources. Their behaviour is modelled from how they are used:
  - `parse_os` decodes a value or fails with a plain error naming the option; the wording of that message is a stand-in.
  - `parse_ldns_args` adds `LDNS_HELP` as one context layer to a failure.
- The `domain` crate is replaced by simple stand-ins whose error texts are stand-ins:
  - name syntax: names are split at dots; escape sequences and non-ASCII labels are not modelled;
  - `compose_canonical`;
  - hex salt decoding;
  - the base 32 rendering of `OwnerHash`.
- Nsec3HashCommand.ParseName, ParseNameLowerCase, ParseNameSameCanonical: `to_lowercase` is modelled as ASCII lower-casing plus the Kelvin sign (U+212A) becoming `k`, the one character outside ASCII whose lower-case form is ASCII. Other characters outside ASCII are kept as they are. `to_lowercase` may change them, even their number (U+0130 becomes two characters), but the result still holds a character outside ASCII, so the name is refused either way. The stand-in error given for such a refused name may differ from the one the source's reader would give.
- `Nsec3HashAlg::from_mnemonic` is taken as an exact match on `SHA-1`.
- Errors.AddContext: `Error::context` pushes onto the context vector of an error it owns. The model returns a new value instead, because ownership means no one else can observe the change.
- Standard output and standard error are returned as text (`RunOutcome`), not written to sinks. The environment abstraction (`src/env/`) and its test buffer are not part of this model.
- The ambient reads of `pretty_print` (`std::env::args().next()` and `is_terminal`) are the parameters `prog` and `term`.
- Dispatch.Run, RunExitCode: `prog` is any text, so the model lets the errors "Missing binary name" and "Binary file name is not valid unicode" exit with 1 and render a headline. In the source, `pretty_print` takes `prog` from `std::env::args().next().unwrap()`. When the environment's arguments are the process's own, that call panics on an empty argument list (the `unwrap`) and on a first argument that is not Unicode. So these two errors end in a panic instead. The model does not capture this panic path.
- OsStrings.Lossy: an invalid unit stands for one maximal run of bytes that does not decode. Nothing stops a model value from splitting a valid UTF-8 sequence into invalid units. Only the stand-in text of the "not valid unicode" message depends on this.
- `src/main.rs` and `src/bin/ldns.rs` are not part of this model. They are an older copy of the dispatcher and a test binary doing process I/O.
- The `Debug` formatting of errors is not part of this model.
