/** The platform's charset registry as `java.nio.charset.Charset` exposes it
    to the tool: `isSupported`, `forName` and the canonical name a charset
    reports. Which charsets exist is the platform's business, so the registry
    is a parameter: a map from every accepted name or alias to the canonical
    name of the charset it denotes. */
module Charsets {

  /** A resolved charset, identified by its canonical name. */
  datatype Charset = Charset(name: string)

  /** Accepted names and aliases, each mapped to its canonical name. */
  type Registry = map<string, string>

  /** `StandardCharsets.UTF_8`, the default when no encoding is given. */
  const UTF_8: Charset := Charset("UTF-8")

  /** The answer of `Charset.isSupported`; `IllegalName` stands for the
      `IllegalCharsetNameException` it throws instead of answering. */
  datatype Support = Supported | NotSupported | IllegalName

  /** A character allowed in a charset name: a letter or a digit anywhere,
      and `-`, `+`, `:`, `_` or `.` after the first position. */
  predicate IsLegalChar(c: char, first: bool)
  {
    || ('A' <= c <= 'Z')
    || ('a' <= c <= 'z')
    || ('0' <= c <= '9')
    || (!first && IsInnerPunctuation(c))
  }

  /** The syntax `Charset` demands of a name: non-empty, legal characters only. */
  predicate IsLegalName(name: string)
  {
    |name| >= 1 && forall i :: 0 <= i < |name| ==> IsLegalChar(name[i], i == 0)
  }

  /** `Charset.isSupported`: a registered name is supported; an unregistered
      name is checked for legal syntax and reported unsupported, or rejected
      when illegal. The syntax is checked only when the lookup fails. */
  function IsSupported(registry: Registry, name: string): (s: Support)
    ensures s == Supported <==> name in registry
    ensures s == IllegalName <==> name !in registry && !IsLegalName(name)
    ensures s == NotSupported <==> name !in registry && IsLegalName(name)
  {
    if name in registry then Supported
    else if IsLegalName(name) then NotSupported
    else IllegalName
  }

  /** `Charset.forName(name)` for a supported name; its `name()` is the
      canonical name the registry gives. */
  function ForName(registry: Registry, name: string): (cs: Charset)
    requires name in registry
    ensures cs.name == registry[name]
  {
    Charset(registry[name])
  }

  /** A registry whose canonical names are themselves registered, each as
      its own canonical name, as the platform's charset table is. */
  predicate Canonical(registry: Registry)
  {
    forall n :: n in registry ==> registry[n] in registry && registry[registry[n]] == registry[n]
  }

  /** The characters allowed after the first position but not at it. */
  predicate IsInnerPunctuation(c: char)
  {
    c == '-' || c == '+' || c == ':' || c == '_' || c == '.'
  }

  /** When every registered name is legal, `isSupported` throws exactly for
      an illegal name, whether the name is registered or not; so the lookup
      before the syntax check changes no answer. */
  lemma IllegalExactlyWhenNameIllegal(registry: Registry, name: string)
    requires forall n :: n in registry ==> IsLegalName(n)
    ensures IsSupported(registry, name) == IllegalName <==> !IsLegalName(name)
    ensures IsSupported(registry, name) == Supported ==> IsLegalName(name)
  {
  }

  /** A name may not start with punctuation: such a name is illegal, and an
      unregistered one makes `isSupported` throw. */
  lemma LeadingPunctuationIllegal(registry: Registry, name: string)
    requires |name| >= 1 && IsInnerPunctuation(name[0])
    ensures !IsLegalName(name)
    ensures name !in registry ==> IsSupported(registry, name) == IllegalName
  {
  }

  /** Two legal names joined by inner punctuation form a legal name, as in
      `UTF-8` or `ISO-8859-1`; such a name is never rejected as illegal. */
  lemma {:induction false} LegalCompound(registry: Registry, a: string, sep: char, b: string)
    requires IsLegalName(a) && IsLegalName(b) && IsInnerPunctuation(sep)
    ensures IsLegalName(a + [sep] + b)
    ensures IsSupported(registry, a + [sep] + b) != IllegalName
  {
    var n := a + [sep] + b;
    forall i | 0 <= i < |n|
      ensures IsLegalChar(n[i], i == 0)
    {
      if i < |a| {
        assert n[i] == a[i];
      } else if i == |a| {
        assert n[i] == sep;
      } else {
        assert n[i] == b[i - |a| - 1];
        assert IsLegalChar(b[i - |a| - 1], i - |a| - 1 == 0);
      }
    }
  }

  /** Resolving the canonical name of a resolved charset gives the same
      charset again: `forName(forName(n).name())` is `forName(n)`. */
  lemma ForNameCanonical(registry: Registry, name: string)
    requires Canonical(registry) && name in registry
    ensures ForName(registry, name).name in registry
    ensures ForName(registry, ForName(registry, name).name) == ForName(registry, name)
  {
  }

  /** Two names resolve to the same charset exactly when they are aliases of
      one canonical name. */
  lemma ForNameAliases(registry: Registry, a: string, b: string)
    requires a in registry && b in registry
    ensures ForName(registry, a) == ForName(registry, b) <==> registry[a] == registry[b]
  {
  }

  /** Concrete cases: a name with a space is illegal, a well-formed unknown
      name is merely unsupported, and an alias resolves to its canonical name. */
  lemma Examples()
    ensures IsSupported(map["utf8" := "UTF-8"], "not a charset") == IllegalName
    ensures IsSupported(map["utf8" := "UTF-8"], "not-a-real-charset") == NotSupported
    ensures IsSupported(map["utf8" := "UTF-8"], "") == IllegalName
    ensures ForName(map["utf8" := "UTF-8"], "utf8") == UTF_8
  {
    assert !IsLegalChar("not a charset"[3], false);
    var n := "not-a-real-charset";
    assert forall i :: 0 <= i < |n| ==> IsLegalChar(n[i], i == 0);
  }
}
