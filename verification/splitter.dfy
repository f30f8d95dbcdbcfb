/** The string splitting the tool relies on to read its context argument:
    Guava's `Splitter.on(",")` for the entries and
    `withKeyValueSeparator("=")` for the key and value of each entry.
    Neither `omitEmptyStrings` nor `trimResults` is configured, so empty
    pieces are kept and no whitespace is removed. */
module Splitter {
  import opened Basics

  /** Separates the entries of a context argument. */
  const EntrySeparator: char := ','

  /** Separates the key from the value inside one entry. */
  const KeyValueSeparator: char := '='

  /** Why a context argument is rejected; Guava raises each as an
      `IllegalArgumentException`. */
  datatype SplitError =
    | InvalidEntry(entry: string)   // the entry does not split into exactly a key and a value
    | DuplicateKey(key: string)     // an earlier entry already used this key

  // ---------------------------------------------------------------------
  // Splitting on one separator character
  // ---------------------------------------------------------------------

  /** The pieces written back together, one separator between neighbours. */
  function Join(parts: seq<string>, sep: char): string
    requires |parts| >= 1
  {
    if |parts| == 1 then parts[0] else parts[0] + [sep] + Join(parts[1..], sep)
  }

  /** The pieces of `s` between occurrences of `sep`, in order, empty pieces
      included: there is always at least one piece, and the empty string
      splits into a single empty piece. */
  function Split(s: string, sep: char): (parts: seq<string>)
    ensures |parts| >= 1
    ensures forall i :: 0 <= i < |parts| ==> sep !in parts[i]
    ensures Join(parts, sep) == s
    decreases |s|
  {
    if |s| == 0 then [""]
    else
      var rest := Split(s[1..], sep);
      if s[0] == sep then
        assert s == [sep] + s[1..];
        [""] + rest
      else
        var parts := [[s[0]] + rest[0]] + rest[1..];
        assert s == [s[0]] + s[1..];
        assert parts[1..] == rest[1..];
        parts
  }

  /** A string splits into one more piece than it has separators. */
  lemma {:induction false} SplitCount(s: string, sep: char)
    ensures |Split(s, sep)| == multiset(s)[sep] + 1
    decreases |s|
  {
    if |s| > 0 {
      SplitCount(s[1..], sep);
      assert s == [s[0]] + s[1..];
      assert multiset(s) == multiset([s[0]]) + multiset(s[1..]);
    }
  }

  /** A string without the separator is its own single piece. */
  lemma SplitWithoutSeparator(s: string, sep: char)
    requires sep !in s
    ensures Split(s, sep) == [s]
  {
    SplitCount(s, sep);
    assert multiset(s)[sep] == 0;
  }

  /** A separator-free piece in front of a separator comes off as the first piece. */
  lemma {:induction false} SplitAfterPiece(p: string, sep: char, t: string)
    requires sep !in p
    ensures Split(p + [sep] + t, sep) == [p] + Split(t, sep)
    decreases |p|
  {
    var s := p + [sep] + t;
    if |p| == 0 {
      assert s == [sep] + t;
      assert s[1..] == t;
    } else {
      SplitAfterPiece(p[1..], sep, t);
      assert s[0] == p[0];
      assert s[1..] == p[1..] + [sep] + t;
      assert [p[0]] + p[1..] == p;
    }
  }

  /** A separator-free piece behind a separator comes off as the last piece. */
  lemma {:induction false} SplitBeforePiece(t: string, sep: char, p: string)
    requires sep !in p
    ensures Split(t + [sep] + p, sep) == Split(t, sep) + [p]
    decreases |t|
  {
    var s := t + [sep] + p;
    if |t| == 0 {
      assert s == [sep] + p;
      assert s[1..] == p;
      SplitWithoutSeparator(p, sep);
    } else {
      SplitBeforePiece(t[1..], sep, p);
      assert s[0] == t[0];
      assert s[1..] == t[1..] + [sep] + p;
      var front := Split(t[1..], sep);
      if t[0] != sep {
        assert (front + [p])[0] == front[0];
        assert (front + [p])[1..] == front[1..] + [p];
      }
    }
  }

  /** Splitting undoes joining, provided no piece contains the separator. */
  lemma {:induction false} SplitJoin(parts: seq<string>, sep: char)
    requires |parts| >= 1
    requires forall i :: 0 <= i < |parts| ==> sep !in parts[i]
    ensures Split(Join(parts, sep), sep) == parts
    decreases |parts|
  {
    if |parts| == 1 {
      SplitWithoutSeparator(parts[0], sep);
    } else {
      SplitJoin(parts[1..], sep);
      SplitAfterPiece(parts[0], sep, Join(parts[1..], sep));
      assert [parts[0]] + parts[1..] == parts;
    }
  }

  // ---------------------------------------------------------------------
  // The text on either side of the first separator
  // ---------------------------------------------------------------------

  /** Position of the first occurrence of `c` in `s`. */
  function FirstIndex(s: string, c: char): (i: nat)
    requires c in s
    ensures i < |s| && s[i] == c && c !in s[..i]
  {
    if s[0] == c then 0
    else
      assert s == [s[0]] + s[1..];
      var j := FirstIndex(s[1..], c);
      assert s[..j + 1] == [s[0]] + s[1..][..j];
      j + 1
  }

  /** The text before the first `sep`, or all of `s` when it has none. */
  function Before(s: string, sep: char): string
  {
    if sep in s then s[..FirstIndex(s, sep)] else s
  }

  /** The text after the first `sep`, or nothing when `s` has none. */
  function After(s: string, sep: char): string
  {
    if sep in s then s[FirstIndex(s, sep) + 1..] else ""
  }

  /** The first piece is the text before the first separator. */
  lemma {:induction false} SplitHead(s: string, sep: char)
    ensures Split(s, sep)[0] == Before(s, sep)
    decreases |s|
  {
    if |s| > 0 && s[0] != sep {
      SplitHead(s[1..], sep);
      assert s == [s[0]] + s[1..];
      if sep in s {
        assert sep in s[1..];
        assert FirstIndex(s, sep) == FirstIndex(s[1..], sep) + 1;
        assert s[..FirstIndex(s, sep)] == [s[0]] + s[1..][..FirstIndex(s[1..], sep)];
      }
    }
  }

  /** A string with exactly one separator splits into the text before and after it. */
  lemma SplitPair(e: string, sep: char)
    requires multiset(e)[sep] == 1
    ensures Split(e, sep) == [Before(e, sep), After(e, sep)]
  {
    assert sep in multiset(e);
    var i := FirstIndex(e, sep);
    var key, value := e[..i], e[i + 1..];
    assert e == key + [sep] + value;
    assert multiset(e) == multiset(key) + multiset([sep]) + multiset(value);
    assert multiset(key)[sep] == 0;
    assert sep !in value;
    SplitAfterPiece(key, sep, value);
    SplitWithoutSeparator(value, sep);
  }

  // ---------------------------------------------------------------------
  // Key/value splitting of the context argument
  // ---------------------------------------------------------------------

  /** The entries of a context argument. */
  function Entries(spec: string): seq<string>
  {
    Split(spec, EntrySeparator)
  }

  /** An entry is a pair when it holds exactly one key/value separator. */
  predicate IsPair(entry: string)
  {
    multiset(entry)[KeyValueSeparator] == 1
  }

  /** The key an entry names: the text before its first `=`. */
  function KeyOf(entry: string): string
  {
    Before(entry, KeyValueSeparator)
  }

  /** The value an entry gives: the text after its first `=`. */
  function ValueOf(entry: string): string
  {
    After(entry, KeyValueSeparator)
  }

  /** The keys the entries name. */
  function KeySet(entries: seq<string>): set<string>
  {
    set i | 0 <= i < |entries| :: KeyOf(entries[i])
  }

  /** Every entry is a pair and no two entries name the same key. */
  predicate WellFormedEntries(entries: seq<string>)
  {
    && (forall i :: 0 <= i < |entries| ==> IsPair(entries[i]))
    && (forall i, j :: 0 <= i < j < |entries| ==> KeyOf(entries[i]) != KeyOf(entries[j]))
  }

  /** The context arguments the tool accepts. */
  predicate WellFormed(spec: string)
  {
    WellFormedEntries(Entries(spec))
  }

  /** Some entry names `key`, and either `acc` or an earlier entry already has it. */
  predicate KeyRepeated(entries: seq<string>, acc: map<string, string>, key: string)
  {
    exists j :: 0 <= j < |entries| && KeyOf(entries[j]) == key &&
      (key in acc || exists i :: 0 <= i < j && KeyOf(entries[i]) == key)
  }

  /** Guava's `MapSplitter.split` loop: for each entry, take its first field
      as key and reject it if already present, then demand exactly one
      further field as value. */
  function Collect(entries: seq<string>, acc: map<string, string>): Result<map<string, string>, SplitError>
    decreases |entries|
  {
    if |entries| == 0 then Success(acc)
    else
      var fields := Split(entries[0], KeyValueSeparator);
      var key := fields[0];
      if key in acc then Failure(DuplicateKey(key))
      else if |fields| != 2 then Failure(InvalidEntry(entries[0]))
      else Collect(entries[1..], acc[key := fields[1]])
  }

  /** How key sets and well-formedness decompose over the first entry. */
  lemma EntriesCons(entries: seq<string>)
    requires |entries| >= 1
    ensures KeySet(entries) == {KeyOf(entries[0])} + KeySet(entries[1..])
    ensures WellFormedEntries(entries) <==>
      IsPair(entries[0]) && KeyOf(entries[0]) !in KeySet(entries[1..]) && WellFormedEntries(entries[1..])
  {
    var rest := entries[1..];
    forall k | k in KeySet(entries) ensures k in {KeyOf(entries[0])} + KeySet(rest) {
      var i :| 0 <= i < |entries| && KeyOf(entries[i]) == k;
      if i > 0 {
        assert entries[i] == rest[i - 1];
      }
    }
    forall k | k in KeySet(rest) ensures k in KeySet(entries) {
      var i :| 0 <= i < |rest| && KeyOf(rest[i]) == k;
      assert entries[i + 1] == rest[i];
    }
    if WellFormedEntries(entries) {
      forall j | 0 <= j < |rest| ensures KeyOf(rest[j]) != KeyOf(entries[0]) {
        assert rest[j] == entries[j + 1];
      }
    }
    if IsPair(entries[0]) && KeyOf(entries[0]) !in KeySet(rest) && WellFormedEntries(rest) {
      forall i, j | 0 <= i < j < |entries| ensures KeyOf(entries[i]) != KeyOf(entries[j]) {
        assert entries[j] == rest[j - 1];
        if i == 0 {
          assert KeyOf(rest[j - 1]) in KeySet(rest);
        } else {
          assert entries[i] == rest[i - 1];
        }
      }
    }
  }

  /** The splitting loop succeeds exactly on well-formed entries whose keys
      are all new to `acc`. */
  lemma {:induction false} CollectAccepts(entries: seq<string>, acc: map<string, string>)
    ensures Collect(entries, acc).Success? <==> WellFormedEntries(entries) && KeySet(entries) !! acc.Keys
    decreases |entries|
  {
    if |entries| == 0 {
      assert KeySet(entries) == {};
    } else {
      var e := entries[0];
      SplitHead(e, KeyValueSeparator);
      SplitCount(e, KeyValueSeparator);
      EntriesCons(entries);
      if KeyOf(e) in acc {
        assert KeyOf(e) in KeySet(entries);
      } else if IsPair(e) {
        SplitPair(e, KeyValueSeparator);
        CollectAccepts(entries[1..], acc[KeyOf(e) := ValueOf(e)]);
      }
    }
  }

  /** One successful step of the loop: the first entry is a pair whose key
      is new, and the loop continues with that pair added. */
  lemma CollectStep(entries: seq<string>, acc: map<string, string>)
    requires |entries| >= 1
    requires Collect(entries, acc).Success?
    ensures IsPair(entries[0]) && KeyOf(entries[0]) !in acc
    ensures Collect(entries, acc) == Collect(entries[1..], acc[KeyOf(entries[0]) := ValueOf(entries[0])])
  {
    var e := entries[0];
    SplitHead(e, KeyValueSeparator);
    SplitCount(e, KeyValueSeparator);
    SplitPair(e, KeyValueSeparator);
  }

  /** On success the loop keeps `acc` and adds each entry's key with its value. */
  lemma {:induction false} CollectContents(entries: seq<string>, acc: map<string, string>)
    requires Collect(entries, acc).Success?
    ensures Collect(entries, acc).value.Keys == acc.Keys + KeySet(entries)
    ensures forall k :: k in acc ==> Collect(entries, acc).value[k] == acc[k]
    ensures forall i :: 0 <= i < |entries| ==>
      KeyOf(entries[i]) in Collect(entries, acc).value &&
      Collect(entries, acc).value[KeyOf(entries[i])] == ValueOf(entries[i])
    decreases |entries|
  {
    if |entries| == 0 {
      assert KeySet(entries) == {};
    } else {
      var e, rest := entries[0], entries[1..];
      CollectStep(entries, acc);
      EntriesCons(entries);
      var acc' := acc[KeyOf(e) := ValueOf(e)];
      CollectContents(rest, acc');
      var m := Collect(entries, acc).value;
      assert m == Collect(rest, acc').value;
      forall k | k in acc ensures m[k] == acc[k] {
        assert k != KeyOf(e);
        assert acc'[k] == acc[k];
      }
      forall i | 0 <= i < |entries|
        ensures KeyOf(entries[i]) in m && m[KeyOf(entries[i])] == ValueOf(entries[i])
      {
        if i > 0 {
          assert entries[i] == rest[i - 1];
        } else {
          assert KeyOf(e) in acc';
        }
      }
    }
  }

  /** A failure names an entry that is not a pair, or a key that an entry
      repeats. */
  lemma {:induction false} CollectErrors(entries: seq<string>, acc: map<string, string>)
    requires Collect(entries, acc).Failure?
    ensures Collect(entries, acc).error.InvalidEntry? ==>
      Collect(entries, acc).error.entry in entries && !IsPair(Collect(entries, acc).error.entry)
    ensures Collect(entries, acc).error.DuplicateKey? ==>
      KeyRepeated(entries, acc, Collect(entries, acc).error.key)
    decreases |entries|
  {
    var e, rest := entries[0], entries[1..];
    var fields := Split(e, KeyValueSeparator);
    SplitHead(e, KeyValueSeparator);
    SplitCount(e, KeyValueSeparator);
    if KeyOf(e) in acc {
      assert KeyOf(entries[0]) in acc;
    } else if |fields| == 2 {
      SplitPair(e, KeyValueSeparator);
      var acc' := acc[KeyOf(e) := ValueOf(e)];
      var r := Collect(entries, acc);
      assert r == Collect(rest, acc');
      CollectErrors(rest, acc');
      if r.error.DuplicateKey? {
        var k := r.error.key;
        var j :| 0 <= j < |rest| && KeyOf(rest[j]) == k &&
          (k in acc' || exists i :: 0 <= i < j && KeyOf(rest[i]) == k);
        assert entries[j + 1] == rest[j];
        if k !in acc {
          if k == KeyOf(e) {
            assert KeyOf(entries[0]) == k;
          } else {
            var i :| 0 <= i < j && KeyOf(rest[i]) == k;
            assert entries[i + 1] == rest[i];
          }
        }
      }
    }
  }

  /** Guava's `Splitter.on(",").withKeyValueSeparator("=").split`: the map of
      a well-formed context argument holds exactly the keys its entries name,
      each with that entry's value; anything else is rejected with the first
      bad entry or repeated key. */
  function SplitToMap(spec: string): (r: Result<map<string, string>, SplitError>)
    ensures r.Success? <==> WellFormed(spec)
    ensures r.Success? ==> r.value.Keys == KeySet(Entries(spec))
    ensures r.Success? ==> forall i :: 0 <= i < |Entries(spec)| ==>
      KeyOf(Entries(spec)[i]) in r.value && r.value[KeyOf(Entries(spec)[i])] == ValueOf(Entries(spec)[i])
    ensures r.Failure? && r.error.InvalidEntry? ==>
      r.error.entry in Entries(spec) && !IsPair(r.error.entry)
    ensures r.Failure? && r.error.DuplicateKey? ==>
      exists i, j :: 0 <= i < j < |Entries(spec)| &&
        KeyOf(Entries(spec)[i]) == r.error.key && KeyOf(Entries(spec)[j]) == r.error.key
  {
    var r := Collect(Entries(spec), map[]);
    CollectAccepts(Entries(spec), map[]);
    if r.Success? then
      CollectContents(Entries(spec), map[]);
      r
    else
      CollectErrors(Entries(spec), map[]);
      r
  }

  // ---------------------------------------------------------------------
  // Writing a context argument
  // ---------------------------------------------------------------------

  /** One `key=value` entry. */
  function FormatEntry(key: string, value: string): string
  {
    key + [KeyValueSeparator] + value
  }

  /** The context argument `k1=v1,k2=v2,...` for the given pairs. */
  function Format(pairs: seq<(string, string)>): string
    requires |pairs| >= 1
  {
    Join(seq(|pairs|, i requires 0 <= i < |pairs| => FormatEntry(pairs[i].0, pairs[i].1)), EntrySeparator)
  }

  /** Pairs the context format can carry: at least one, no separator inside
      a key or value, and distinct keys. */
  predicate Representable(pairs: seq<(string, string)>)
  {
    && |pairs| >= 1
    && (forall i :: 0 <= i < |pairs| ==>
          && EntrySeparator !in pairs[i].0 && KeyValueSeparator !in pairs[i].0
          && EntrySeparator !in pairs[i].1 && KeyValueSeparator !in pairs[i].1)
    && (forall i, j :: 0 <= i < j < |pairs| ==> pairs[i].0 != pairs[j].0)
  }

  /** A key and value free of both separators make an entry that is a pair
      naming exactly that key and value. */
  lemma FormatEntryFields(key: string, value: string)
    requires EntrySeparator !in key && KeyValueSeparator !in key
    requires EntrySeparator !in value && KeyValueSeparator !in value
    ensures EntrySeparator !in FormatEntry(key, value)
    ensures IsPair(FormatEntry(key, value))
    ensures KeyOf(FormatEntry(key, value)) == key && ValueOf(FormatEntry(key, value)) == value
  {
    var e := FormatEntry(key, value);
    assert multiset(e) == multiset(key) + multiset([KeyValueSeparator]) + multiset(value);
    assert multiset(key)[KeyValueSeparator] == 0 && multiset(value)[KeyValueSeparator] == 0;
    SplitPair(e, KeyValueSeparator);
    SplitAfterPiece(key, KeyValueSeparator, value);
    SplitWithoutSeparator(value, KeyValueSeparator);
  }

  /** Writing representable pairs as a context argument and splitting it back
      yields a map holding exactly those keys, each with its value. */
  lemma FormatThenSplit(pairs: seq<(string, string)>)
    requires Representable(pairs)
    ensures SplitToMap(Format(pairs)).Success?
    ensures SplitToMap(Format(pairs)).value.Keys == set i | 0 <= i < |pairs| :: pairs[i].0
    ensures forall i :: 0 <= i < |pairs| ==>
      pairs[i].0 in SplitToMap(Format(pairs)).value && SplitToMap(Format(pairs)).value[pairs[i].0] == pairs[i].1
  {
    var entries := seq(|pairs|, i requires 0 <= i < |pairs| => FormatEntry(pairs[i].0, pairs[i].1));
    forall i | 0 <= i < |entries|
      ensures EntrySeparator !in entries[i] && IsPair(entries[i])
      ensures KeyOf(entries[i]) == pairs[i].0 && ValueOf(entries[i]) == pairs[i].1
    {
      FormatEntryFields(pairs[i].0, pairs[i].1);
    }
    SplitJoin(entries, EntrySeparator);
    assert Entries(Format(pairs)) == entries;
    assert WellFormedEntries(entries);
    var m := SplitToMap(Format(pairs)).value;
    forall i | 0 <= i < |pairs| ensures pairs[i].0 in m && m[pairs[i].0] == pairs[i].1 {
      assert KeyOf(entries[i]) == pairs[i].0;
    }
    forall k | k in m ensures k in set i | 0 <= i < |pairs| :: pairs[i].0 {
      var i :| 0 <= i < |entries| && KeyOf(entries[i]) == k;
      assert pairs[i].0 == k;
    }
  }

  /** An empty context argument is one empty entry, which is not a pair. */
  lemma EmptyArgumentRejected()
    ensures SplitToMap("") == Failure(InvalidEntry(""))
  {
    assert Entries("") == [""];
    assert Split("", KeyValueSeparator) == [""];
  }

  /** An entry without `=` is rejected. */
  lemma MissingSeparatorRejected()
    ensures SplitToMap("name") == Failure(InvalidEntry("name"))
  {
    SplitWithoutSeparator("name", EntrySeparator);
    SplitWithoutSeparator("name", KeyValueSeparator);
  }

  /** An entry with two `=` is rejected rather than cut at the first one. */
  lemma ExtraSeparatorRejected()
    ensures SplitToMap("a=1=2") == Failure(InvalidEntry("a=1=2"))
  {
    SplitWithoutSeparator("a=1=2", EntrySeparator);
    assert "a=1=2" == "a" + [KeyValueSeparator] + "1=2";
    assert "1=2" == "1" + [KeyValueSeparator] + "2";
    SplitAfterPiece("a", KeyValueSeparator, "1=2");
    SplitAfterPiece("1", KeyValueSeparator, "2");
    SplitWithoutSeparator("2", KeyValueSeparator);
  }

  /** A trailing comma leaves an empty last entry, which is rejected. */
  lemma TrailingCommaRejected()
    ensures SplitToMap("a=1,") == Failure(InvalidEntry(""))
  {
    assert "a=1," == "a=1" + [EntrySeparator] + "";
    SplitBeforePiece("a=1", EntrySeparator, "");
    SplitWithoutSeparator("a=1", EntrySeparator);
    assert "a=1" == "a" + [KeyValueSeparator] + "1";
    SplitAfterPiece("a", KeyValueSeparator, "1");
    SplitWithoutSeparator("1", KeyValueSeparator);
    assert Split("", KeyValueSeparator) == [""];
    assert Collect(["a=1", ""], map[]) == Collect([""], map["a" := "1"]);
  }

  /** A key given twice is rejected, naming the key. */
  lemma RepeatedKeyRejected()
    ensures SplitToMap("a=1,a=2") == Failure(DuplicateKey("a"))
  {
    assert "a=1,a=2" == "a=1" + [EntrySeparator] + "a=2";
    SplitAfterPiece("a=1", EntrySeparator, "a=2");
    SplitWithoutSeparator("a=2", EntrySeparator);
    assert "a=1" == "a" + [KeyValueSeparator] + "1";
    assert "a=2" == "a" + [KeyValueSeparator] + "2";
    SplitAfterPiece("a", KeyValueSeparator, "1");
    SplitAfterPiece("a", KeyValueSeparator, "2");
    SplitWithoutSeparator("1", KeyValueSeparator);
    SplitWithoutSeparator("2", KeyValueSeparator);
    assert Collect(["a=1", "a=2"], map[]) == Collect(["a=2"], map["a" := "1"]);
  }

  /** A single entry `key=value` is accepted as that one key and value. */
  lemma SinglePairAccepted(key: string, value: string)
    requires EntrySeparator !in key && KeyValueSeparator !in key
    requires EntrySeparator !in value && KeyValueSeparator !in value
    ensures SplitToMap(FormatEntry(key, value)) == Success(map[key := value])
  {
    var e := FormatEntry(key, value);
    FormatEntryFields(key, value);
    SplitWithoutSeparator(e, EntrySeparator);
    SplitAfterPiece(key, KeyValueSeparator, value);
    SplitWithoutSeparator(value, KeyValueSeparator);
    assert Split(e, KeyValueSeparator) == [key, value];
    assert Collect([e], map[]) == Collect([], map[key := value]);
  }

  /** Empty keys and empty values are accepted as they are. */
  lemma EmptyKeyAndValueAccepted()
    ensures SplitToMap("=") == Success(map["" := ""])
  {
    SplitWithoutSeparator("=", EntrySeparator);
    assert "=" == "" + [KeyValueSeparator] + "";
    SplitAfterPiece("", KeyValueSeparator, "");
    assert Split("", KeyValueSeparator) == [""];
    assert Collect(["="], map[]) == Collect([], map["" := ""]);
  }
}
