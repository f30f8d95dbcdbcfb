/** The part of `java.io.File` the tool uses: the file name, that is the last
    element of a Unix path. `File` drops repeated and trailing separators
    when it stores a path, and `getName` returns what follows the last
    separator of the stored path, so the name is the last non-empty element
    (or empty for the root and for the empty path). */
module Files {
  import Splitter

  /** The Unix name separator. */
  const Separator: char := '/'

  /** The last non-empty string of `elements`, or "" if there is none. */
  function LastNonEmpty(elements: seq<string>): (last: string)
    ensures last == "" || last in elements
    ensures last == "" <==> forall i :: 0 <= i < |elements| ==> elements[i] == ""
    ensures last != "" ==> exists i :: 0 <= i < |elements| && elements[i] == last && AllEmptyAfter(elements, i)
    decreases |elements|
  {
    if |elements| == 0 then ""
    else if elements[|elements| - 1] != "" then
      assert AllEmptyAfter(elements, |elements| - 1);
      elements[|elements| - 1]
    else
      var front := elements[..|elements| - 1];
      var last := LastNonEmpty(front);
      assert forall i :: 0 <= i < |front| ==> front[i] == elements[i];
      assert last != "" ==> forall i :: 0 <= i < |front| && AllEmptyAfter(front, i) ==> AllEmptyAfter(elements, i);
      last
  }

  /** Every element after position `i` is empty. */
  predicate AllEmptyAfter(elements: seq<string>, i: nat)
  {
    forall j :: i < j < |elements| ==> elements[j] == ""
  }

  /** `File.getName`: the last non-empty element of the path. */
  function Name(path: string): (name: string)
    ensures Separator !in name
    ensures name == "" || name in Splitter.Split(path, Separator)
  {
    LastNonEmpty(Splitter.Split(path, Separator))
  }

  /** A path without separators is its own name. */
  lemma NameOfPlainName(path: string)
    requires Separator !in path
    ensures Name(path) == path
  {
    Splitter.SplitWithoutSeparator(path, Separator);
  }

  /** The name of `dir/name` is `name`, whatever directory comes before it. */
  lemma NameOfChild(dir: string, name: string)
    requires name != "" && Separator !in name
    ensures Name(dir + [Separator] + name) == name
  {
    Splitter.SplitBeforePiece(dir, Separator, name);
  }

  /** A trailing separator does not change the name. */
  lemma NameIgnoresTrailingSeparator(path: string)
    ensures Name(path + [Separator]) == Name(path)
  {
    assert path + [Separator] == path + [Separator] + "";
    Splitter.SplitBeforePiece(path, Separator, "");
    var elements := Splitter.Split(path, Separator);
    assert (elements + [""])[..|elements|] == elements;
  }

  /** The template `templates/greet.vm` is known to the engine as `greet.vm`. */
  lemma NameExample()
    ensures Name("templates/greet.vm") == "greet.vm"
  {
    assert "templates/greet.vm" == "templates" + [Separator] + "greet.vm";
    NameOfChild("templates", "greet.vm");
  }
}
