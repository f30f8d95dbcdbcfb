# velocity-cli in Dafny

`velocity-cli` is a command-line front end to Apache Velocity. You call it as
`java VelocityCommandLine -c foo=bar -t template.vm [-o output.txt] [-e encoding] [-x escapetool]`.
It builds a template context from the `-c` argument and merges the template
into standard output or into a file.

The tool has three pieces of logic of its own, and this project models all
three as pure functions over immutable datatypes:

- **Context construction.** This is the `VelocityCommandLine` constructor.
  The `-c` string is split on `,` into entries and each entry on `=` into a
  key and a value, as Guava's `Splitter.on(",").withKeyValueSeparator("=")`
  does. The splitter fails with an `IllegalArgumentException` on an entry that
  is not exactly `key=value` and on a repeated key. If an escapetool name is
  given, Velocity Tools' `EscapeTool` is then put under that name, and it
  replaces any pair with the same key.
- **`run`.** This picks the sink: standard output when `-o` is absent, and
  that file otherwise. It merges the template, which the engine receives by
  its *file name* (`File.getName()`), not by its full path. An `IOException`
  exits with status 1. A failure to close the writer is ignored.
- **`main`.** This is the dispatch from the outcome of argument parsing to
  an exit status or a render:
  - About exits 0.
  - Help exits -2 after a successful parse, but 0 after a parse error.
  - An unsupported `-e` charset exits -1 before any context is built.
  - A malformed context exits -1 with the usage text on standard error.

Everything the tool delegates becomes an input:

- `Parsed`: what the dishevelled command-line parser found.
- `Charsets.Registry`: the platform's charset table, a map from every
  accepted name or alias to its canonical name.
- `Io`: whether opening the output file, the merge and the close succeed.

`System.exit(code)` becomes the value `Exit(code, report)`. The report records
what was printed before the exit and on which stream. An exception that
escapes `main` becomes `Uncaught(e)`.

Modules, one per file:

| file | module | models |
|---|---|---|
| basics.dfy | `Basics` | `Option` (Java `null`) and `Result` (thrown exceptions) |
| splitter.dfy | `Splitter` | Guava's `Splitter.on(c)` and `MapSplitter.split`, plus their inverses |
| files.dfy | `Files` | `java.io.File.getName` on Unix paths |
| charsets.dfy | `Charsets` | `Charset.isSupported`, `Charset.forName` and the legal-name rule |
| velocity_command_line.dfy | `VelocityCommandLine` | the constructor (`New`), `Run`, `Main` |
| main_properties.dfy | `MainProperties` | lemmas about `Main` over all inputs |

## Model

| member | source | states |
|---|---|---|
| Splitter.Split | src/main/java/com/github/heuermh/velocity/cli/VelocityCommandLine.java:92 | splitting on one separator always gives at least one piece, and no piece contains the separator; joining the pieces back with the separator gives the original string |
| Splitter.SplitJoin | src/main/java/com/github/heuermh/velocity/cli/VelocityCommandLine.java:92 | the converse round trip: splitting a join of one or more separator-free pieces gives back exactly those pieces |
| Splitter.SplitCount | src/main/java/com/github/heuermh/velocity/cli/VelocityCommandLine.java:92 | a string splits into one more piece than it has separators, so an entry splits into a key and a value exactly when it holds one `=` |
| Splitter.SplitHead | src/main/java/com/github/heuermh/velocity/cli/VelocityCommandLine.java:92 | the first field of an entry, which the splitter takes as its key, is the text before the first `=` |
| Splitter.SplitPair | src/main/java/com/github/heuermh/velocity/cli/VelocityCommandLine.java:92 | an entry with exactly one `=` splits into the text before it and the text after it |
| Splitter.FirstIndex | src/main/java/com/github/heuermh/velocity/cli/VelocityCommandLine.java:92 | the position found holds the separator, and no earlier position does |
| Splitter.CollectAccepts | src/main/java/com/github/heuermh/velocity/cli/VelocityCommandLine.java:92 | the key/value splitting loop succeeds exactly when every entry holds one `=` and no key repeats, either within the entries or against what was already collected |
| Splitter.CollectContents | src/main/java/com/github/heuermh/velocity/cli/VelocityCommandLine.java:92 | on success, the map keeps what was collected and adds each entry's key with its own value, and has no other keys |
| Splitter.CollectErrors | src/main/java/com/github/heuermh/velocity/cli/VelocityCommandLine.java:92 | an invalid-entry failure names an entry of the argument that does not hold one `=`, and a duplicate-key failure names a key that a later entry repeats |
| Splitter.SplitToMap | src/main/java/com/github/heuermh/velocity/cli/VelocityCommandLine.java:92 | the context argument is accepted exactly when it is well formed, meaning each entry holds one `=` and keys are distinct; the map then holds exactly the keys of the entries, each with its entry's value; a rejection names a bad entry or a repeated key |
| Splitter.FormatThenSplit | src/main/java/com/github/heuermh/velocity/cli/VelocityCommandLine.java:92 | writing one or more distinct-key pairs as `k1=v1,k2=v2,…` and splitting the result gives a map with exactly those keys and values, provided no key or value contains `,` or `=` |
| Splitter.FormatEntryFields | src/main/java/com/github/heuermh/velocity/cli/VelocityCommandLine.java:92 | an entry `key=value` written from separator-free parts is a pair whose key and value are those parts |
| Splitter.SinglePairAccepted | src/main/java/com/github/heuermh/velocity/cli/VelocityCommandLine.java:92 | a single `key=value` argument yields the one-entry map |
| Splitter.EmptyArgumentRejected | src/main/java/com/github/heuermh/velocity/cli/VelocityCommandLine.java:92 | an empty `-c` argument is rejected, because it is a single empty entry; so no argument yields an empty context |
| Splitter.MissingSeparatorRejected | src/main/java/com/github/heuermh/velocity/cli/VelocityCommandLine.java:92 | an entry without `=` is rejected |
| Splitter.ExtraSeparatorRejected | src/main/java/com/github/heuermh/velocity/cli/VelocityCommandLine.java:92 | an entry with two `=` is rejected, not cut at the first one |
| Splitter.TrailingCommaRejected | src/main/java/com/github/heuermh/velocity/cli/VelocityCommandLine.java:92 | a trailing comma leaves an empty entry, which is rejected |
| Splitter.RepeatedKeyRejected | src/main/java/com/github/heuermh/velocity/cli/VelocityCommandLine.java:92 | a key given twice is rejected, and the error names the key |
| Splitter.EmptyKeyAndValueAccepted | src/main/java/com/github/heuermh/velocity/cli/VelocityCommandLine.java:92 | empty keys and values are kept, because no trimming or omission is configured |
| Files.Name | src/main/java/com/github/heuermh/velocity/cli/VelocityCommandLine.java:107 | the template name passed to the engine contains no `/` and is one of the path's elements, or is empty |
| Files.LastNonEmpty | src/main/java/com/github/heuermh/velocity/cli/VelocityCommandLine.java:107 | the name is empty exactly when the path has no non-empty element; otherwise it is an element with only empty elements after it, that is the last non-empty one, which `getName` returns for a path normalised of repeated and trailing `/` |
| Files.NameOfChild | src/main/java/com/github/heuermh/velocity/cli/VelocityCommandLine.java:107 | for `dir/name`, the engine gets `name`, whatever the directory |
| Files.NameOfPlainName | src/main/java/com/github/heuermh/velocity/cli/VelocityCommandLine.java:107 | a path without `/` is passed unchanged |
| Files.NameIgnoresTrailingSeparator | src/main/java/com/github/heuermh/velocity/cli/VelocityCommandLine.java:107 | a trailing `/` does not change the name |
| Files.NameExample | src/main/java/com/github/heuermh/velocity/cli/VelocityCommandLine.java:107 | `templates/greet.vm` reaches the engine as `greet.vm` |
| Charsets.IllegalExactlyWhenNameIllegal | src/main/java/com/github/heuermh/velocity/cli/VelocityCommandLine.java:154 | when all registered names are legal, checking the registry before the syntax changes nothing: `isSupported` throws exactly for an illegal name, and a supported name is legal |
| Charsets.LeadingPunctuationIllegal | src/main/java/com/github/heuermh/velocity/cli/VelocityCommandLine.java:154 | a name starting with `-`, `+`, `:`, `_` or `.` is illegal, so an unregistered one makes `isSupported` throw |
| Charsets.LegalCompound | src/main/java/com/github/heuermh/velocity/cli/VelocityCommandLine.java:154 | two legal names joined by `-`, `+`, `:`, `_` or `.` form a legal name, as `UTF-8` and `ISO-8859-1` do, which `isSupported` never rejects as illegal |
| Charsets.ForNameCanonical | src/main/java/com/github/heuermh/velocity/cli/VelocityCommandLine.java:155 | in a registry whose canonical names are registered as themselves, resolving the canonical name of a resolved charset gives the same charset again |
| Charsets.ForNameAliases | src/main/java/com/github/heuermh/velocity/cli/VelocityCommandLine.java:155 | two accepted names resolve to the same charset exactly when they are aliases of one canonical name |
| Charsets.Examples | src/main/java/com/github/heuermh/velocity/cli/VelocityCommandLine.java:152-159 | a name with a space and the empty name are illegal, `not-a-real-charset` is merely unsupported, and an alias resolves to its canonical name |
| VelocityCommandLine.WithEscapeTool | src/main/java/com/github/heuermh/velocity/cli/VelocityCommandLine.java:92-95 | with no escapetool name, the context has exactly the pairs' keys; with a name, it has those keys plus the name, the name maps to the helper, and every other pair keeps its value |
| VelocityCommandLine.New | src/main/java/com/github/heuermh/velocity/cli/VelocityCommandLine.java:84-99 | a missing context or template file fails with a null-pointer exception, and only then; with both present, construction succeeds exactly on a well-formed context argument, and fails otherwise with an illegal-argument exception for a malformed context; a constructed context holds exactly the keys of the entries plus the escapetool name, the name maps to the helper, and every other key maps to its entry's value as text; the other fields are stored as given |
| VelocityCommandLine.ChooseCharset | src/main/java/com/github/heuermh/velocity/cli/VelocityCommandLine.java:151-162 | a chosen charset is UTF-8 or carries one of the registry's canonical names, and so was resolved from `-e` only if that name is registered; an unsupported name leads to an exit exactly when it is legal, and to an illegal-charset-name exception exactly when it is not |
| VelocityCommandLine.ChooseByCanonicalName | src/main/java/com/github/heuermh/velocity/cli/VelocityCommandLine.java:151-155 | asking with `-e` for the canonical name of a charset chosen through an alias chooses the same charset, so `-e utf8` and `-e UTF-8` render alike |
| VelocityCommandLine.Main | src/main/java/com/github/heuermh/velocity/cli/VelocityCommandLine.java:129-181 | every exit status is 0, -1, -2 or 1; an exception escapes only as the constructor's null-pointer exception when the parser left out a required argument; a render happens only after a successful parse without about or help |
| MainProperties.AboutExitsZero | src/main/java/com/github/heuermh/velocity/cli/VelocityCommandLine.java:142-169 | about always exits 0 and renders nothing, whether or not the parse succeeded, whatever else was given |
| MainProperties.HelpAfterParseExitsMinusTwo | src/main/java/com/github/heuermh/velocity/cli/VelocityCommandLine.java:147-150 | after a successful parse, help without about exits -2 with usage on standard output, even with an unsupported encoding or a malformed context |
| MainProperties.ParseErrorOutcome | src/main/java/com/github/heuermh/velocity/cli/VelocityCommandLine.java:165-176 | a parse error never renders; it exits 0 exactly when about or help was found, and otherwise exits -1 with usage and the error on standard error; help alone prints usage on standard output |
| MainProperties.HelpStatusDependsOnParse | src/main/java/com/github/heuermh/velocity/cli/VelocityCommandLine.java:147-150 | the help switch exits -2 after a successful parse and 0 after a parse error |
| MainProperties.RenderEncoding | src/main/java/com/github/heuermh/velocity/cli/VelocityCommandLine.java:151-163 | a render only happens with no encoding or a supported one; without `-e` it uses UTF-8, and with a supported name it uses that charset's canonical name |
| MainProperties.UnsupportedEncodingExits | src/main/java/com/github/heuermh/velocity/cli/VelocityCommandLine.java:151-162 | an unsupported encoding exits -1, silently when the name is legal and with usage on standard error when it is illegal; the outcome is the same whatever the context, template, output, escapetool and I/O, so it is decided before the context is built |
| MainProperties.MalformedContextExits | src/main/java/com/github/heuermh/velocity/cli/VelocityCommandLine.java:177-180 | a malformed context argument exits -1 with usage and the splitter's error on standard error, whatever the I/O would have done |
| MainProperties.RenderedContext | src/main/java/com/github/heuermh/velocity/cli/VelocityCommandLine.java:92-95 | a render receives exactly the keys named in the context argument, plus the escapetool name if given; the helper sits under that name, and every other key has its entry's value as text |
| MainProperties.SinglePairContext | src/main/java/com/github/heuermh/velocity/cli/VelocityCommandLine.java:92-107 | an invocation like `-c name=World -x esc` merges the template by its file name in UTF-8, with a context of exactly `name` mapped to the text `World` and `esc` mapped to the helper |
| MainProperties.RenderWithPairs | src/main/java/com/github/heuermh/velocity/cli/VelocityCommandLine.java:151-163 | with the default charset, a context argument that splits into known pairs, and successful I/O, the merge receives those pairs overlaid with the helper |
| MainProperties.OverlaySinglePair | src/main/java/com/github/heuermh/velocity/cli/VelocityCommandLine.java:93-95 | putting the helper on a one-pair context gives that pair as text plus the helper |
| MainProperties.RenderSink | src/main/java/com/github/heuermh/velocity/cli/VelocityCommandLine.java:106 | a render writes to standard output exactly when no output file was given, and otherwise to the named file |
| MainProperties.RenderTemplateName | src/main/java/com/github/heuermh/velocity/cli/VelocityCommandLine.java:107 | the engine receives the template by the file name of the `-t` path, which contains no `/` |
| MainProperties.SinkIsTheOnlyDifference | src/main/java/com/github/heuermh/velocity/cli/VelocityCommandLine.java:103-121 | adding `-o file` to a rendering invocation, with an output file that opens, changes only the sink of the merge |
| MainProperties.IoFailureExitsOne | src/main/java/com/github/heuermh/velocity/cli/VelocityCommandLine.java:103-112 | once all checks pass, a failure to open the output file or an I/O error in the merge exits 1 after printing the stack trace |
| MainProperties.CloseFailureIgnored | src/main/java/com/github/heuermh/velocity/cli/VelocityCommandLine.java:109-119 | a failure to close the writer never changes the exit status or the merge, only the record that the close failed; an exit on an I/O error is the same whether or not closing would have failed, because it never reaches the `finally` block |
| MainProperties.RenderExactly | src/main/java/com/github/heuermh/velocity/cli/VelocityCommandLine.java:129-181 | when the parser supplies the required arguments, a render happens exactly when the parse succeeded without about or help, the encoding is absent or supported, the context is well formed and the I/O succeeds |
| MainProperties.ExitStatuses | src/main/java/com/github/heuermh/velocity/cli/VelocityCommandLine.java:129-181 | when the parser supplies the required arguments, no exception escapes and the exit status is 0, -1, -2 or 1 |
| MainProperties.MissingRequiredEscapes | src/main/java/com/github/heuermh/velocity/cli/VelocityCommandLine.java:85-86 | if a successful parse ever lacked `-c` or `-t`, the constructor's null check would throw an exception that escapes `main`, because no handler catches it |

## Left out

- Velocity's `mergeTemplate` and the template language are external. The
  model keeps only the arguments passed to the merge and whether it raises an
  `IOException`.
- The runtime exceptions Velocity can raise are left out. A missing template
  (`ResourceNotFoundException`), a template syntax error and a method
  invocation error would all escape `main`. So would a failure of
  `VelocityEngine.init()`.
- `EscapeTool` internals are external. The helper is the opaque value
  `EscapeTool`.
- The dishevelled `CommandLineParser` is external. Its result is the input
  `Parsed`, and that the required arguments are present after a successful
  parse is the predicate `RequiredPresent`.
- The platform's charset table is the `Registry` parameter. Its
  case-insensitive lookup is folded into the map's aliases.
- The text of the about and usage messages, the stack-trace text, writer
  buffering and the bytes written are plumbing. Only which stream gets a
  message is modelled.
- The writers encode output in the platform default encoding. `FileWriter`
  and `OutputStreamWriter` are created without a charset, so the charset
  from `-e` only reaches `mergeTemplate` as the template encoding. The model
  records that string in `Merge.encoding` and does not model output bytes.
- The constructor does not null-check `charset`, so a null charset would
  fail inside `run`. The model's `charset` is never absent.
- `throw new AssertionError()` after `System.exit(-1)` (line 158) can never
  run and is not modelled.
- Exit statuses are Java `int` values as passed to `System.exit`. The
  operating system sees -1 and -2 as 255 and 254, which is not modelled.
- `Files.Name` models Unix paths with `/` only. It leaves out Windows
  separators and drive prefixes.
- Splitter.SplitToMap: its contract says a rejection names some entry that
  is not a pair or some repeated key. It does not say that this is the first
  such problem in reading order, although the function body does pick the
  first one.
- Stream state after the merge is not tracked. Closing the writer also
  closes the process's standard output, because the `BufferedWriter` wraps
  `System.out`, but nothing in the model reads standard output afterwards.

## Notes on behaviour

The model follows the code in these places, where the behaviour is easy to
misread.

- Help exits -2 after a successful parse (line 149) but 0 after a parse
  error (line 172). See `MainProperties.HelpStatusDependsOnParse`.
- When no output file is given, `close()` on the writer also closes
  `System.out`, which the writer wraps (lines 106 and 115).
- On an I/O error, `System.exit(1)` runs inside the `catch` block (line 111)
  and never returns, so the `finally` block that closes the writer does not
  run. `Rendered.closeFailed` exists only for completed merges for this
  reason.
- The charset from `-e` is passed to `mergeTemplate` (line 107), which uses
  it to read the template. Both writers at line 106 are built without a
  charset and encode output in the platform default.
- An unsupported encoding exits directly only when the name is legal. For an
  illegal name such as `a b`, `Charset.isSupported` (line 154) throws
  `IllegalCharsetNameException`, a subclass of `IllegalArgumentException`,
  so the handler at line 177 prints usage to standard error before it
  exits with -1.
- The engine loads the template by `templateFile.getName()` (line 107). The
  directory part of the `-t` path is dropped.
