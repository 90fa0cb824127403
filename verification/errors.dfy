/** The program error of `src/error.rs`: a primary message and an
    append-only list of context layers, its exit code, its rendering on
    standard error, and the `Context` extension on results. */
module Errors {
  import opened Base
  import opened Lexopt

  /** A `clap::Error`, kept opaque: the styled text `render().ansi()` gives,
      the text its `Display` shows, and the `i32` its `exit_code()` returns. */
  datatype ClapError = ClapError(styled: string, plain: string, code: int)

  datatype PrimaryError = Clap(clap: ClapError) | Other(message: string)

  /** A program error. The context layers are ordered from innermost (added
      first, closest to the failure) to outermost. */
  datatype Error = Error(primary: PrimaryError, context: seq<string>)

  /** An `io::Error`, kept as the text its `Display` shows. */
  datatype IoError = IoError(description: string)

  //--- Construction and context

  /** `Error::new`. */
  function New(message: string): (e: Error)
    ensures e.primary == Other(message) && e.context == []
  {
    Error(Other(message), [])
  }

  /** `Error::context`: one more, outer, layer of context. */
  function AddContext(e: Error, layer: string): (r: Error)
    ensures r.primary == e.primary
    ensures |r.context| == |e.context| + 1
    ensures r.context[..|e.context|] == e.context && r.context[|e.context|] == layer
  {
    e.(context := e.context + [layer])
  }

  /** The layers, innermost first, added one `AddContext` at a time. */
  function AddContexts(e: Error, layers: seq<string>): Error
    decreases |layers|
  {
    if layers == [] then e else AddContexts(AddContext(e, layers[0]), layers[1..])
  }

  /** However many layers are added, the primary message stays and the
      layers already present keep their places, followed by the new ones in
      the order they were added. */
  lemma {:induction false} AddContextsAppends(e: Error, layers: seq<string>)
    ensures AddContexts(e, layers) == Error(e.primary, e.context + layers)
    decreases |layers|
  {
    if layers != [] {
      AddContextsAppends(AddContext(e, layers[0]), layers[1..]);
      assert e.context + [layers[0]] + layers[1..] == e.context + layers;
    }
  }

  //--- Conversions for `?`

  /** `From<&str>` and `From<String>`: both are `Error::new`. */
  function FromMessage(message: string): (e: Error)
    ensures Display(e) == message && ExitCode(e) == 1 && e.context == []
  {
    New(message)
  }

  /** `From<io::Error>`. */
  function FromIo(e: IoError): (r: Error)
    ensures Display(r) == e.description && ExitCode(r) == 1 && r.context == []
  {
    New(e.description)
  }

  /** `From<lexopt::Error>`. */
  function FromLexopt(e: LexoptError): (r: Error)
    ensures Display(r) == LexoptMessage(e) && ExitCode(r) == 1 && r.context == []
  {
    New(LexoptMessage(e))
  }

  /** `From<clap::Error>`. */
  function FromClap(e: ClapError): (r: Error)
    ensures Display(r) == e.plain && ExitCode(r) == e.code % 256 && r.context == []
  {
    Error(Clap(e), [])
  }

  /** Every conversion starts with no context; only the one from a clap
      error has a clap primary, and its exit code is clap's own. */
  lemma Conversions(message: string, io: IoError, lex: LexoptError, clap: ClapError)
    ensures FromMessage(message) == Error(Other(message), [])
    ensures FromIo(io) == Error(Other(io.description), [])
    ensures FromLexopt(lex) == Error(Other(LexoptMessage(lex)), [])
    ensures FromClap(clap) == Error(Clap(clap), [])
    ensures ExitCode(FromMessage(message)) == ExitCode(FromIo(io)) == ExitCode(FromLexopt(lex)) == 1
    ensures ExitCode(FromClap(clap)) == clap.code % 256
  {
  }

  //--- Exit code and display

  /** `Error::exit_code`: 1 for our own errors, clap's code for clap errors,
      narrowed from `i32` to `u8` (the low byte, which for a negative code is
      what Euclidean `%` gives as well). */
  function ExitCode(e: Error): (code: byte)
    ensures e.primary.Other? ==> code == 1
    ensures e.primary.Clap? ==> code == e.primary.clap.code % 256
  {
    match e.primary
    case Clap(c) => c.code % 256
    case Other(_) => 1
  }

  /** `Display` for `Error`: the primary message alone. */
  function Display(e: Error): (s: string)
    ensures e.primary.Clap? ==> s == e.primary.clap.plain
    ensures e.primary.Other? ==> s == e.primary.message
  {
    match e.primary
    case Clap(c) => c.plain
    case Other(m) => m
  }

  //--- Rendering on standard error

  const RED_ERROR: string := "\U{1B}[31mERROR:\U{1B}[0m"
  const PLAIN_ERROR: string := "ERROR:"

  /** The error marker: red when standard error is a terminal. */
  function Marker(term: bool): (m: string)
    ensures m == RED_ERROR <==> term
    ensures m == PLAIN_ERROR <==> !term
  {
    if term then RED_ERROR else PLAIN_ERROR
  }

  /** The first part of a plain error's rendering; note that it ends without
      a line break. */
  function Headline(prog: string, term: bool, message: string): string {
    "[" + prog + "] " + Marker(term) + " " + message
  }

  /** The text written for one context layer. */
  function ContextBlock(layer: string): string {
    "\n... while " + layer + "\n"
  }

  /** One block per layer, innermost first. */
  function ContextLines(layers: seq<string>): string
    decreases |layers|
  {
    if layers == [] then "" else ContextBlock(layers[0]) + ContextLines(layers[1..])
  }

  /** Everything `pretty_print` writes to standard error, given the program
      name (`argv[0]`) and whether standard error is a terminal. */
  function Rendering(e: Error, prog: string, term: bool): string {
    match e.primary
    case Clap(c) => c.styled + "\n"
    case Other(m) => Headline(prog, term, m) + ContextLines(e.context)
  }

  lemma {:induction false} ContextLinesAppend(a: seq<string>, b: seq<string>)
    ensures ContextLines(a + b) == ContextLines(a) + ContextLines(b)
    decreases |a|
  {
    if a == [] {
      assert a + b == b;
    } else {
      assert (a + b)[0] == a[0];
      assert (a + b)[1..] == a[1..] + b;
      ContextLinesAppend(a[1..], b);
    }
  }

  lemma ContextLinesStep(layers: seq<string>, i: nat)
    requires i < |layers|
    ensures ContextLines(layers[..i + 1]) == ContextLines(layers[..i]) + ContextBlock(layers[i])
  {
    assert layers[..i + 1] == layers[..i] + [layers[i]];
    ContextLinesAppend(layers[..i], [layers[i]]);
    assert ContextLines([layers[i]]) == ContextBlock(layers[i]) + ContextLines([]);
  }

  /** `Error::pretty_print`, writing into the returned text. */
  method PrettyPrint(e: Error, prog: string, term: bool) returns (out: string)
    ensures out == Rendering(e, prog, term)
  {
    match e.primary {
      case Clap(c) =>
        out := c.styled + "\n";
      case Other(message) =>
        var marker := if term then RED_ERROR else PLAIN_ERROR;
        out := "[" + prog + "] " + marker + " " + message;
        assert out == Headline(prog, term, message) + ContextLines([]);
        for i := 0 to |e.context|
          invariant out == Headline(prog, term, message) + ContextLines(e.context[..i])
        {
          ghost var before := out;
          out := out + "\n... while " + e.context[i] + "\n";
          assert out == before + ContextBlock(e.context[i]);
          ContextLinesStep(e.context, i);
        }
        assert e.context[..|e.context|] == e.context;
    }
  }

  /** Adding a layer changes neither the exit code nor what `Display` shows;
      a plain error's rendering grows by exactly that layer's block, a clap
      error's rendering does not change at all. */
  lemma AddContextEffect(e: Error, layer: string, prog: string, term: bool)
    ensures ExitCode(AddContext(e, layer)) == ExitCode(e)
    ensures Display(AddContext(e, layer)) == Display(e)
    ensures e.primary.Other? ==>
      Rendering(AddContext(e, layer), prog, term) == Rendering(e, prog, term) + ContextBlock(layer)
    ensures e.primary.Clap? ==>
      Rendering(AddContext(e, layer), prog, term) == Rendering(e, prog, term)
  {
    ContextLinesAppend(e.context, [layer]);
    assert ContextLines([layer]) == ContextBlock(layer) + ContextLines([]);
  }

  //--- The `Context` extension on results

  /** `Context::context` on a result. */
  function ResultContext<T>(r: Result<T, Error>, layer: string): (out: Result<T, Error>)
    ensures r.Ok? ==> out == r
    ensures r.Err? ==> out.Err? && out.error == AddContext(r.error, layer)
  {
    match r
    case Ok(_) => r
    case Err(e) => Err(AddContext(e, layer))
  }

  /** `Context::with_context`: the layer's text is only computed for an
      error. */
  function ResultWithContext<T>(r: Result<T, Error>, layer: () -> string): (out: Result<T, Error>)
    ensures r.Ok? ==> out == r
    ensures r.Err? ==> out.Err? && out.error == AddContext(r.error, layer())
  {
    match r
    case Ok(_) => r
    case Err(e) => Err(AddContext(e, layer()))
  }

  /** Two propagating layers: the inner layer is rendered before the outer
      one, each on its own block, after what the error rendered before. */
  lemma NestedContextRendering<T>(r: Result<T, Error>, inner: string, outer: string, prog: string, term: bool)
    requires r.Err? && r.error.primary.Other?
    ensures ResultContext(ResultContext(r, inner), outer).error.context == r.error.context + [inner, outer]
    ensures Rendering(ResultContext(ResultContext(r, inner), outer).error, prog, term)
         == Rendering(r.error, prog, term) + ContextBlock(inner) + ContextBlock(outer)
  {
    var e := r.error;
    assert e.context + [inner] + [outer] == e.context + [inner, outer];
    ContextLinesAppend(e.context, [inner, outer]);
    assert [inner, outer][1..] == [outer];
    assert ContextLines([outer]) == ContextBlock(outer) + ContextLines([]);
    assert ContextLines([inner, outer]) == ContextBlock(inner) + ContextBlock(outer);
  }
}
