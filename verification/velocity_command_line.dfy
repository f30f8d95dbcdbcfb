/** The command-line tool itself: the constructor that builds the template
    context, `run`, which picks the output sink and merges the template, and
    `main`, which turns the outcome of argument parsing into an exit status
    or a render.

    Everything the tool delegates is an input here: the argument parser's
    findings (`Parsed`), the platform charset registry, and whether opening
    the output file, merging the template and closing the writer succeed
    (`Io`). `System.exit(code)` is the value `Exit(code, report)`, where the
    report says what was printed on which stream before exiting. */
module VelocityCommandLine {
  import opened Basics
  import Splitter
  import Charsets
  import Files

  /** A value in the template context: a string from the context argument,
      or the escaping helper (Velocity Tools' `EscapeTool`, opaque here). */
  datatype Value = Text(text: string) | EscapeTool

  /** The template context: names visible to the template. */
  type Context = map<string, Value>

  /** Why an `IllegalArgumentException` was raised. */
  datatype IllegalArgument =
    | MalformedContext(error: Splitter.SplitError)   // from the context splitter
    | IllegalCharsetName(name: string)               // from `Charset.isSupported`

  /** The exceptions that can reach `main`. */
  datatype Exception =
    | ParseError                                    // `CommandLineParseException`
    | IllegalArgumentException(cause: IllegalArgument)
    | NullPointer                                   // from `checkNotNull`
    | IOFailure                                     // `IOException`

  datatype Stream = StdOut | StdErr

  /** What is printed before the process exits. */
  datatype Report =
    | Silent
    | AboutText                                             // `About.about(System.out)`
    | UsageText(stream: Stream, error: Option<Exception>)   // `Usage.usage(...)`
    | StackTrace(thrown: Exception)                         // `e.printStackTrace()`

  /** Where rendered output goes. */
  datatype Sink = StandardOutput | OutputFile(path: string)

  /** One call of the engine's `mergeTemplate`: the template name, the
      template encoding, the context, and the sink its writer wraps. */
  datatype Merge = Merge(templateName: string, encoding: string, context: Context, sink: Sink)

  /** How an invocation ends: `System.exit(code)`, a completed merge after
      which `main` returns normally (exit status 0), or an exception that
      escapes `main`. Only a completed merge reaches the `finally` block that
      closes the writer, so only `Rendered` records whether that close failed
      (the failure itself is swallowed). */
  datatype Outcome =
    | Exit(code: int, report: Report)
    | Rendered(merge: Merge, closeFailed: bool)
    | Uncaught(error: Exception)

  /** The process exit status of an outcome; an exception escaping `main` is
      left to the Java runtime and has none here. */
  function ExitStatus(o: Outcome): Option<int>
  {
    match o
    case Exit(code, _) => Some(code)
    case Rendered(_, _) => Some(0)
    case Uncaught(_) => None
  }

  /** The fields of a constructed `VelocityCommandLine`. */
  datatype Config = Config(
    templateFile: string,
    outputFile: Option<string>,
    charset: Charsets.Charset,
    escapetool: Option<string>,
    context: Context)

  /** What the external I/O does: whether `new FileWriter(outputFile)`
      succeeds, whether `mergeTemplate` completes without an `IOException`,
      and whether `writer.close()` succeeds. */
  datatype Io = Io(openOk: bool, mergeOk: bool, closeOk: bool)

  /** What the argument parser found: whether `CommandLineParser.parse`
      returned normally, which switches it saw, and the argument values
      (`None` for an argument not given). */
  datatype Parsed = Parsed(
    parseOk: bool,
    aboutFound: bool,
    helpFound: bool,
    context: Option<string>,
    templateFile: Option<string>,
    outputFile: Option<string>,
    encoding: Option<string>,
    escapetool: Option<string>)

  /** The parser's guarantee: after a normal return the required arguments
      `-c` and `-t` are present. */
  predicate RequiredPresent(p: Parsed)
  {
    p.parseOk ==> p.context.Some? && p.templateFile.Some?
  }

  // ---------------------------------------------------------------------
  // Constructor
  // ---------------------------------------------------------------------

  /** The context string pairs, each as text, with the escaping helper put
      under the escapetool name when one is given; the helper replaces any
      pair of the same name and every other pair is unchanged. */
  function WithEscapeTool(pairs: map<string, string>, escapetool: Option<string>): (c: Context)
    ensures escapetool.None? ==> c.Keys == pairs.Keys
    ensures escapetool.Some? ==> c.Keys == pairs.Keys + {escapetool.value}
    ensures escapetool.Some? ==> c[escapetool.value] == EscapeTool
    ensures forall k :: k in pairs && escapetool != Some(k) ==> c[k] == Text(pairs[k])
  {
    var base := map k | k in pairs :: Text(pairs[k]);
    if escapetool.Some? then base[escapetool.value := EscapeTool] else base
  }

  /** The constructor: a missing context or template file is a null-pointer
      failure; a context argument that does not split into distinct
      `key=value` pairs is an illegal argument; otherwise the context holds
      the pairs, overlaid with the helper when an escapetool name is given. */
  function New(
    context: Option<string>,
    templateFile: Option<string>,
    outputFile: Option<string>,
    charset: Charsets.Charset,
    escapetool: Option<string>): (r: Result<Config, Exception>)
    ensures r == Failure(NullPointer) <==> context.None? || templateFile.None?
    ensures context.Some? && templateFile.Some? ==>
      (r.Success? <==> Splitter.WellFormed(context.value))
    ensures r.Failure? && r.error != NullPointer ==>
      r.error.IllegalArgumentException? && r.error.cause.MalformedContext?
    ensures r.Success? ==>
      && context.Some? && templateFile.Some?
      && r.value.templateFile == templateFile.value
      && r.value.outputFile == outputFile
      && r.value.charset == charset
      && r.value.escapetool == escapetool
    ensures r.Success? ==>
      var entries := Splitter.Entries(context.value);
      && (escapetool.None? ==> r.value.context.Keys == Splitter.KeySet(entries))
      && (escapetool.Some? ==> r.value.context.Keys == Splitter.KeySet(entries) + {escapetool.value})
      && (escapetool.Some? ==> r.value.context[escapetool.value] == EscapeTool)
      && (forall i :: 0 <= i < |entries| && escapetool != Some(Splitter.KeyOf(entries[i])) ==>
            r.value.context[Splitter.KeyOf(entries[i])] == Text(Splitter.ValueOf(entries[i])))
  {
    if context.None? || templateFile.None? then Failure(NullPointer)
    else
      match Splitter.SplitToMap(context.value)
      case Failure(e) => Failure(IllegalArgumentException(MalformedContext(e)))
      case Success(pairs) =>
        var c := WithEscapeTool(pairs, escapetool);
        var entries := Splitter.Entries(context.value);
        assert forall i :: 0 <= i < |entries| ==> Splitter.KeyOf(entries[i]) in pairs;
        Success(Config(templateFile.value, outputFile, charset, escapetool, c))
  }

  // ---------------------------------------------------------------------
  // run
  // ---------------------------------------------------------------------

  /** The sink `run` writes to: standard output when no output file is given. */
  function SinkOf(outputFile: Option<string>): (s: Sink)
    ensures s == StandardOutput <==> outputFile.None?
    ensures outputFile.Some? ==> s.OutputFile? && s.path == outputFile.value
  {
    match outputFile
    case None => StandardOutput
    case Some(path) => OutputFile(path)
  }

  /** `run`: open the sink, merge the template known by its file name, and
      close the writer. An `IOException` while opening the file or merging
      prints a stack trace and exits with status 1; `System.exit` does not
      return, so the writer is then never closed. A failure to close the
      writer after a successful merge is swallowed and only recorded. */
  function Run(config: Config, io: Io): (o: Outcome)
    ensures o.Rendered? <==> (config.outputFile.None? || io.openOk) && io.mergeOk
    ensures !o.Rendered? ==> o == Exit(1, StackTrace(IOFailure))
    ensures o.Rendered? ==>
      && o.merge.sink == SinkOf(config.outputFile)
      && o.merge.templateName == Files.Name(config.templateFile)
      && o.merge.encoding == config.charset.name
      && o.merge.context == config.context
      && o.closeFailed == !io.closeOk
  {
    var sink := SinkOf(config.outputFile);
    if sink.OutputFile? && !io.openOk then Exit(1, StackTrace(IOFailure))
    else if !io.mergeOk then Exit(1, StackTrace(IOFailure))
    else Rendered(Merge(Files.Name(config.templateFile), config.charset.name, config.context, sink), !io.closeOk)
  }

  // ---------------------------------------------------------------------
  // main
  // ---------------------------------------------------------------------

  /** How `main` settles the charset: `Chosen` it, exited because the name
      is not supported, or `Thrown` the exception `isSupported` raised. */
  datatype CharsetChoice = Chosen(charset: Charsets.Charset) | Unsupported | Thrown(error: Exception)

  /** UTF-8 without `-e`; otherwise the named charset if the platform
      supports it, an exit if it does not, or an illegal-argument exception
      if the name is not even legal. */
  function ChooseCharset(registry: Charsets.Registry, encoding: Option<string>): (c: CharsetChoice)
    ensures encoding.None? ==> c == Chosen(Charsets.UTF_8)
    ensures encoding.Some? && encoding.value in registry ==>
      c == Chosen(Charsets.Charset(registry[encoding.value]))
    ensures c == Unsupported <==>
      encoding.Some? && encoding.value !in registry && Charsets.IsLegalName(encoding.value)
    ensures c.Thrown? <==>
      encoding.Some? && encoding.value !in registry && !Charsets.IsLegalName(encoding.value)
    ensures c.Thrown? ==> c.error == IllegalArgumentException(IllegalCharsetName(encoding.value))
    ensures c.Chosen? ==> c.charset == Charsets.UTF_8 || c.charset.name in registry.Values
    ensures c.Chosen? && Charsets.Canonical(registry) ==> c.charset == Charsets.UTF_8 || c.charset.name in registry
  {
    match encoding
    case None => Chosen(Charsets.UTF_8)
    case Some(name) =>
      match Charsets.IsSupported(registry, name)
      case Supported => Chosen(Charsets.ForName(registry, name))
      case NotSupported => Unsupported
      case IllegalName => Thrown(IllegalArgumentException(IllegalCharsetName(name)))
  }

  /** Asking again by the canonical name of a chosen charset chooses the
      same charset: `-e utf8` and `-e UTF-8` render alike. */
  lemma ChooseByCanonicalName(registry: Charsets.Registry, name: string)
    requires Charsets.Canonical(registry)
    ensures ChooseCharset(registry, Some(name)).Chosen? ==>
      var cs := ChooseCharset(registry, Some(name)).charset;
      ChooseCharset(registry, Some(cs.name)) == Chosen(cs)
  {
    if name in registry {
      Charsets.ForNameCanonical(registry, name);
    }
  }

  /** `main`'s handler for an exception raised after a successful parse:
      an `IllegalArgumentException` prints usage with it on standard error
      and exits with -1; any other exception escapes `main`. */
  function AfterParse(e: Exception): (o: Outcome)
    ensures e.IllegalArgumentException? ==> o == Exit(-1, UsageText(StdErr, Some(e)))
    ensures !e.IllegalArgumentException? ==> o == Uncaught(e)
  {
    if e.IllegalArgumentException? then Exit(-1, UsageText(StdErr, Some(e))) else Uncaught(e)
  }

  /** `main`. After a successful parse: about exits 0, then help exits -2,
      then the charset is settled, then the tool is constructed and run.
      After a parse error: about exits 0, then help exits 0, and otherwise
      usage goes to standard error with exit -1. */
  function Main(p: Parsed, registry: Charsets.Registry, io: Io): (o: Outcome)
    ensures o.Exit? ==> o.code in {0, -1, -2, 1}
    ensures o.Uncaught? ==> o.error == NullPointer && !RequiredPresent(p)
    ensures o.Rendered? ==> p.parseOk && !p.aboutFound && !p.helpFound
  {
    if !p.parseOk then
      if p.aboutFound then Exit(0, AboutText)
      else if p.helpFound then Exit(0, UsageText(StdOut, None))
      else Exit(-1, UsageText(StdErr, Some(ParseError)))
    else if p.aboutFound then Exit(0, AboutText)
    else if p.helpFound then Exit(-2, UsageText(StdOut, None))
    else
      match ChooseCharset(registry, p.encoding)
      case Unsupported => Exit(-1, Silent)
      case Thrown(e) => AfterParse(e)
      case Chosen(cs) =>
        match New(p.context, p.templateFile, p.outputFile, cs, p.escapetool)
        case Failure(e) => AfterParse(e)
        case Success(config) => Run(config, io)
  }
}
