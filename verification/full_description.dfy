/**
 * lib/full-description.js: the first line (the `name: description` line) is dropped,
 * empty lines are removed and the rest are joined with single spaces.
 */
module FullDescription {
  import opened Strings

  /** `lines.slice(1).filter(Boolean).join(' ')`. */
  function FullDescription(lines: seq<string>): (r: string)
    ensures |lines| <= 1 ==> r == ""
  {
    Join(NonEmpty(if |lines| == 0 then [] else lines[1..]), " ")
  }

  /** The first line never shows: replacing it changes nothing. */
  lemma FirstLineIgnored(a: string, b: string, rest: seq<string>)
    ensures FullDescription([a] + rest) == FullDescription([b] + rest)
  {
    assert ([a] + rest)[1..] == rest == ([b] + rest)[1..];
  }

  /** Inserting an empty line anywhere after the first changes nothing. */
  lemma EmptyLineIgnored(xs: seq<string>, ys: seq<string>)
    requires |xs| >= 1
    ensures FullDescription(xs + [""] + ys) == FullDescription(xs + ys)
  {
    assert (xs + [""] + ys)[1..] == xs[1..] + ([""] + ys);
    assert (xs + ys)[1..] == xs[1..] + ys;
    NonEmptyAppend(xs[1..], [""] + ys);
    NonEmptyAppend([""], ys);
    NonEmptyAppend(xs[1..], ys);
  }

  /** A filter that finds nothing to remove keeps the list as it is. */
  lemma {:induction false} NonEmptyKeeps(xs: seq<string>)
    requires forall i :: 0 <= i < |xs| ==> xs[i] != ""
    ensures NonEmpty(xs) == xs
    decreases |xs|
  {
    if |xs| > 0 {
      NonEmptyKeeps(xs[1..]);
      assert [xs[0]] + xs[1..] == xs;
    }
  }

  /** Without empty lines, the lines after the first are joined in order with one space. */
  lemma JoinedWithSpaces(first: string, rest: seq<string>)
    requires forall i :: 0 <= i < |rest| ==> rest[i] != ""
    ensures FullDescription([first] + rest) == Join(rest, " ")
  {
    assert ([first] + rest)[1..] == rest;
    NonEmptyKeeps(rest);
  }

  /** `Name: x`, ``, `one`, `two` gives `one two`. */
  lemma ExampleLines()
    ensures FullDescription(["Name: x", "", "one", "two"]) == "one two"
  {
    var lines := ["Name: x", "", "one", "two"];
    assert lines[1..] == [""] + ["one", "two"];
    NonEmptyAppend([""], ["one", "two"]);
    NonEmptyKeeps(["one", "two"]);
  }
}
