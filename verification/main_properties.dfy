/** What `main` promises, stated over all parser findings, charset
    registries and I/O behaviours: the precedence among about, help, the
    charset and the context; the exit statuses; what a render receives. */
module MainProperties {
  import opened Basics
  import Splitter
  import Charsets
  import Files
  import opened VelocityCommandLine

  /** The charset `-e` asks for is usable: absent, or supported. */
  predicate EncodingAccepted(registry: Charsets.Registry, encoding: Option<string>)
  {
    encoding.None? || encoding.value in registry
  }

  /** The parse succeeded and neither about nor help was asked for. */
  predicate PastSwitches(p: Parsed)
  {
    p.parseOk && !p.aboutFound && !p.helpFound
  }

  /** The I/O of `run` succeeds as far as the merge. */
  predicate IoSucceeds(p: Parsed, io: Io)
  {
    (p.outputFile.None? || io.openOk) && io.mergeOk
  }

  // ---------------------------------------------------------------------
  // Precedence
  // ---------------------------------------------------------------------

  /** About wins: whatever else was given and whether or not parsing
      succeeded, about exits with status 0 and renders nothing. */
  lemma AboutExitsZero(p: Parsed, registry: Charsets.Registry, io: Io)
    requires p.aboutFound
    ensures Main(p, registry, io) == Exit(0, AboutText)
  {
  }

  /** Help after a successful parse exits with -2 and prints usage on
      standard output, even when the encoding is unsupported or illegal or
      the context malformed. */
  lemma HelpAfterParseExitsMinusTwo(p: Parsed, registry: Charsets.Registry, io: Io)
    requires p.parseOk && !p.aboutFound && p.helpFound
    ensures Main(p, registry, io) == Exit(-2, UsageText(StdOut, None))
  {
  }

  /** A parse error never renders: about or help turn it into exit 0, and
      otherwise usage with the error goes to standard error and the status is -1. */
  lemma ParseErrorOutcome(p: Parsed, registry: Charsets.Registry, io: Io)
    requires !p.parseOk
    ensures Main(p, registry, io).Exit?
    ensures Main(p, registry, io).code == 0 <==> p.aboutFound || p.helpFound
    ensures Main(p, registry, io).code != 0 ==>
      Main(p, registry, io) == Exit(-1, UsageText(StdErr, Some(ParseError)))
    ensures p.helpFound && !p.aboutFound ==> Main(p, registry, io).report == UsageText(StdOut, None)
  {
  }

  /** The help switch yields a different status depending on whether the
      parse succeeded: -2 after success, 0 after a parse error. */
  lemma HelpStatusDependsOnParse(p: Parsed, registry: Charsets.Registry, io: Io)
    requires p.helpFound && !p.aboutFound
    ensures ExitStatus(Main(p, registry, io)) == Some(if p.parseOk then -2 else 0)
  {
  }

  // ---------------------------------------------------------------------
  // Charset
  // ---------------------------------------------------------------------

  /** Without `-e`, a render uses UTF-8; with a supported name, the
      canonical name of that charset. */
  lemma RenderEncoding(p: Parsed, registry: Charsets.Registry, io: Io)
    ensures Main(p, registry, io).Rendered? ==> EncodingAccepted(registry, p.encoding)
    ensures Main(p, registry, io).Rendered? && p.encoding.None? ==>
      Main(p, registry, io).merge.encoding == "UTF-8"
    ensures Main(p, registry, io).Rendered? && p.encoding.Some? ==>
      p.encoding.value in registry && Main(p, registry, io).merge.encoding == registry[p.encoding.value]
  {
  }

  /** An unsupported charset name is decided before any context is built or
      file opened: a legal name exits -1 silently and an illegal one exits
      -1 with usage on standard error, whatever the context, template,
      output, escapetool and I/O. */
  lemma UnsupportedEncodingExits(
    p: Parsed, registry: Charsets.Registry, io: Io,
    context: Option<string>, templateFile: Option<string>, outputFile: Option<string>,
    escapetool: Option<string>, io': Io)
    requires PastSwitches(p) && p.encoding.Some? && p.encoding.value !in registry
    ensures Charsets.IsLegalName(p.encoding.value) ==> Main(p, registry, io) == Exit(-1, Silent)
    ensures !Charsets.IsLegalName(p.encoding.value) ==>
      Main(p, registry, io) ==
        Exit(-1, UsageText(StdErr, Some(IllegalArgumentException(IllegalCharsetName(p.encoding.value)))))
    ensures Main(p, registry, io) ==
      Main(p.(context := context, templateFile := templateFile, outputFile := outputFile, escapetool := escapetool),
           registry, io')
  {
  }

  // ---------------------------------------------------------------------
  // Context
  // ---------------------------------------------------------------------

  /** A malformed context argument is an illegal argument: usage with the
      splitter's error on standard error and exit -1, before any output is
      opened, whatever the I/O would have done. */
  lemma MalformedContextExits(p: Parsed, registry: Charsets.Registry, io: Io)
    requires PastSwitches(p) && RequiredPresent(p) && EncodingAccepted(registry, p.encoding)
    requires !Splitter.WellFormed(p.context.value)
    ensures Main(p, registry, io) ==
      Exit(-1, UsageText(StdErr, Some(IllegalArgumentException(MalformedContext(Splitter.SplitToMap(p.context.value).error)))))
  {
  }

  /** A render sees exactly the pairs of the context argument, each as text,
      except that the escapetool name, when given, maps to the helper. */
  lemma RenderedContext(p: Parsed, registry: Charsets.Registry, io: Io)
    ensures Main(p, registry, io).Rendered? ==> p.context.Some? && Splitter.WellFormed(p.context.value)
    ensures Main(p, registry, io).Rendered? ==>
      var entries := Splitter.Entries(p.context.value);
      var c := Main(p, registry, io).merge.context;
      && (p.escapetool.None? ==> c.Keys == Splitter.KeySet(entries))
      && (p.escapetool.Some? ==> c.Keys == Splitter.KeySet(entries) + {p.escapetool.value})
      && (p.escapetool.Some? ==> c[p.escapetool.value] == EscapeTool)
      && (forall i :: 0 <= i < |entries| && p.escapetool != Some(Splitter.KeyOf(entries[i])) ==>
            c[Splitter.KeyOf(entries[i])] == Text(Splitter.ValueOf(entries[i])))
  {
  }


  /** A single pair with an escapetool, as in `-c name=World -x esc`: the
      template sees the key with its value and the escapetool name with the
      helper, and nothing else; the template is known by its name. */
  lemma SinglePairContext(p: Parsed, registry: Charsets.Registry, io: Io, key: string, value: string, tool: string)
    requires PastSwitches(p) && p.encoding.None? && IoSucceeds(p, io)
    requires Splitter.EntrySeparator !in key && Splitter.KeyValueSeparator !in key
    requires Splitter.EntrySeparator !in value && Splitter.KeyValueSeparator !in value
    requires p.context == Some(Splitter.FormatEntry(key, value)) && p.templateFile.Some?
    requires p.escapetool == Some(tool)
    ensures Main(p, registry, io).Rendered?
    ensures Main(p, registry, io).merge == Merge(
      Files.Name(p.templateFile.value), "UTF-8", map[key := Text(value)][tool := EscapeTool], SinkOf(p.outputFile))
  {
    Splitter.SinglePairAccepted(key, value);
    RenderWithPairs(p, registry, io, map[key := value]);
    OverlaySinglePair(key, value, tool);
  }

  /** The helper overlaid on one pair: the pair as text, the helper under its name. */
  lemma OverlaySinglePair(key: string, value: string, tool: string)
    ensures WithEscapeTool(map[key := value], Some(tool)) == map[key := Text(value)][tool := EscapeTool]
  {
    var c := WithEscapeTool(map[key := value], Some(tool));
    assert c.Keys == {key, tool};
  }

  /** With the default charset, a context argument whose pairs are known,
      and I/O that succeeds, the merge receives those pairs overlaid with the
      helper. */
  lemma RenderWithPairs(p: Parsed, registry: Charsets.Registry, io: Io, pairs: map<string, string>)
    requires PastSwitches(p) && p.encoding.None? && IoSucceeds(p, io)
    requires p.context.Some? && p.templateFile.Some?
    ensures Splitter.SplitToMap(p.context.value) == Success(pairs) ==>
      && Main(p, registry, io).Rendered?
      && Main(p, registry, io).merge == Merge(
           Files.Name(p.templateFile.value), "UTF-8", WithEscapeTool(pairs, p.escapetool), SinkOf(p.outputFile))
  {
  }

  // ---------------------------------------------------------------------
  // Sink, I/O and exit status
  // ---------------------------------------------------------------------

  /** A render writes to standard output exactly when no output file is
      given, and otherwise to that file. */
  lemma RenderSink(p: Parsed, registry: Charsets.Registry, io: Io)
    ensures Main(p, registry, io).Rendered? ==>
      (Main(p, registry, io).merge.sink == StandardOutput <==> p.outputFile.None?)
    ensures Main(p, registry, io).Rendered? && p.outputFile.Some? ==>
      Main(p, registry, io).merge.sink == OutputFile(p.outputFile.value)
  {
  }

  /** The template is handed to the engine by its file name, without the
      directories of the path given with `-t`. */
  lemma RenderTemplateName(p: Parsed, registry: Charsets.Registry, io: Io)
    ensures Main(p, registry, io).Rendered? ==>
      && p.templateFile.Some?
      && Main(p, registry, io).merge.templateName == Files.Name(p.templateFile.value)
      && Files.Separator !in Main(p, registry, io).merge.templateName
  {
  }

  /** Writing to a file instead of standard output changes nothing about
      the merge but its sink. */
  lemma SinkIsTheOnlyDifference(p: Parsed, registry: Charsets.Registry, io: Io, path: string)
    requires p.outputFile.None? && io.openOk
    ensures Main(p, registry, io).Rendered? ==>
      Main(p.(outputFile := Some(path)), registry, io) ==
        Main(p, registry, io).(merge := Main(p, registry, io).merge.(sink := OutputFile(path)))
  {
  }

  /** An I/O failure in opening the output file or merging exits with 1
      after printing the stack trace, once everything before it succeeded. */
  lemma IoFailureExitsOne(p: Parsed, registry: Charsets.Registry, io: Io)
    requires PastSwitches(p) && RequiredPresent(p) && EncodingAccepted(registry, p.encoding)
    requires !IoSucceeds(p, io)
    ensures Splitter.WellFormed(p.context.value) ==> Main(p, registry, io) == Exit(1, StackTrace(IOFailure))
  {
  }

  /** A failure to close the writer is swallowed: it changes neither the
      exit status nor the merge, only the record of the failed close, and
      an exit on an I/O error never reaches the close at all. */
  lemma CloseFailureIgnored(p: Parsed, registry: Charsets.Registry, io: Io, closeOk: bool)
    ensures ExitStatus(Main(p, registry, io.(closeOk := closeOk))) == ExitStatus(Main(p, registry, io))
    ensures Main(p, registry, io).Rendered? ==>
      Main(p, registry, io.(closeOk := closeOk)) == Main(p, registry, io).(closeFailed := !closeOk)
    ensures !Main(p, registry, io).Rendered? ==>
      Main(p, registry, io.(closeOk := closeOk)) == Main(p, registry, io)
  {
  }

  /** Given the parser's guarantee, a render happens exactly when the parse
      succeeded without about or help, the charset is usable, the context is
      well formed and the I/O succeeds. */
  lemma RenderExactly(p: Parsed, registry: Charsets.Registry, io: Io)
    requires RequiredPresent(p)
    ensures Main(p, registry, io).Rendered? <==>
      && PastSwitches(p)
      && EncodingAccepted(registry, p.encoding)
      && Splitter.WellFormed(p.context.value)
      && IoSucceeds(p, io)
  {
  }

  /** Given the parser's guarantee, no exception escapes `main` and the exit
      status is one of 0, -1, -2 and 1. */
  lemma ExitStatuses(p: Parsed, registry: Charsets.Registry, io: Io)
    requires RequiredPresent(p)
    ensures ExitStatus(Main(p, registry, io)).Some?
    ensures ExitStatus(Main(p, registry, io)).value in {0, -1, -2, 1}
  {
  }

  /** Without the parser's guarantee, a missing context or template after a
      successful parse escapes `main` as the constructor's null-pointer
      exception, provided the charset was settled first. */
  lemma MissingRequiredEscapes(p: Parsed, registry: Charsets.Registry, io: Io)
    requires PastSwitches(p) && !RequiredPresent(p) && EncodingAccepted(registry, p.encoding)
    ensures Main(p, registry, io) == Uncaught(NullPointer)
  {
  }
}
