/**
 * lib/description.js: the comment's lines are joined with `,` and matched against
 * `^(?:([\w]+):[\W]+)?([\w\W]+)` (no `$`): an optional `name:` prefix, then the description.
 */
module Description {
  import opened Base
  import opened Scan
  import opened Strings

  /** What `parseDescription` returns: `{}` when nothing matched, else `{ name, description }` (`name` possibly `undefined`). */
  datatype DescriptionDoc = NoMatch | Named(name: Option<string>, description: string)

  /**
   * `(\w+):[\W]+` matches `s[..d]` with the name ending at `w`, and `([\w\W]+)` still has
   * text to take from `d`.
   */
  predicate NameSplit(s: string, w: nat, d: nat) {
    0 < w && w + 1 < d < |s| && s[w] == ':' && AllIn(s, 0, w, Word) && AllIn(s, w + 1, d, NonWord)
  }

  /** A name can only end where the leading run of word characters does. */
  lemma SplitAtLeadingWord(s: string)
    ensures forall w, d :: NameSplit(s, w, d) ==> w == RunEnd(s, 0, Word)
  {
    forall w, d | NameSplit(s, w, d)
      ensures w == RunEnd(s, 0, Word)
    {
      RunEndUnique(s, 0, Word, w);
    }
  }

  /**
   * Where the description starts after a `name:` prefix, if the optional group matches:
   * the greedy `\w+` takes the whole leading word (a shorter one would leave a word
   * character where `:` is needed), then `[\W]+` takes as much as it can while leaving
   * at least one character. No prefix is found exactly when no split exists.
   */
  function PrefixEnd(s: string): (r: Option<nat>)
    ensures r.Some? ==> NameSplit(s, RunEnd(s, 0, Word), r.value)
    ensures r.Some? ==> forall d :: r.value < d < |s| ==> !NameSplit(s, RunEnd(s, 0, Word), d)
    ensures r.None? ==> forall w, d :: !NameSplit(s, w, d)
  {
    var w := RunEnd(s, 0, Word);
    SplitAtLeadingWord(s);
    RunEndAll(s, 0, Word);
    if 0 < w < |s| && s[w] == ':' then RunThenRestSpec(s, w + 1, NonWord); RunThenRest(s, w + 1, NonWord) else None
  }

  /** `description.match(NAME_IN_DESCRIPTION)`, shaped as the function's result. */
  function MatchName(s: string): (r: DescriptionDoc)
    ensures r.NoMatch? <==> |s| == 0
    ensures r.Named? ==> 0 < |r.description| <= |s| && r.description == s[|s| - |r.description|..]
    ensures r.Named? && r.name.None? ==> r.description == s
    ensures r.Named? && r.name.Some? ==> 0 < |r.name.value| < |s| && s[..|r.name.value|] == r.name.value && s[|r.name.value|] == ':'
    ensures r.Named? && r.name.Some? ==> AllIn(s, 0, |r.name.value|, Word)
  {
    match PrefixEnd(s)
    case Some(d) => Named(Some(s[..RunEnd(s, 0, Word)]), s[d..])
    case None => if |s| > 0 then Named(None, s) else NoMatch
  }

  /**
   * The name group takes part exactly when `s` splits as a word, `:`, a run of non-word
   * characters and a non-empty rest; the name is then that word and the description the
   * rest after the longest such run. Otherwise the whole text is the description.
   */
  lemma MatchNameIff(s: string)
    requires |s| > 0
    ensures MatchName(s).name.Some? <==> exists w, d :: NameSplit(s, w, d)
    ensures MatchName(s).name.None? ==> MatchName(s).description == s
    ensures MatchName(s).name.Some? ==>
              var w := |MatchName(s).name.value|;
              var d := |s| - |MatchName(s).description|;
              NameSplit(s, w, d) && MatchName(s).name.value == s[..w] && MatchName(s).description == s[d..]
              && forall w': nat, d': nat :: NameSplit(s, w', d') ==> w' == w && d' <= d
  {
    SplitAtLeadingWord(s);
    match PrefixEnd(s)
    case None =>
    case Some(d) =>
      assert NameSplit(s, RunEnd(s, 0, Word), d);
  }

  /** `parseDescription(lines)`: `lines.join()` joins with `,`. */
  function ParseDescription(lines: seq<string>): (r: DescriptionDoc)
    ensures r.NoMatch? <==> Join(lines, ",") == ""
  {
    MatchName(Join(lines, ","))
  }

  /** `name: text` gives the name and the text after the run of non-word characters. */
  lemma NamePrefix(name: string, sep: string, rest: string)
    requires |name| > 0 && forall i :: 0 <= i < |name| ==> IsWord(name[i])
    requires |sep| > 0 && forall i :: 0 <= i < |sep| ==> !IsWord(sep[i])
    requires |rest| > 0 && IsWord(rest[0])
    ensures MatchName(name + ":" + sep + rest) == Named(Some(name), rest)
  {
    NamePrefixAt(name + ":" + sep + rest, name, sep, rest);
  }

  lemma NamePrefixAt(s: string, name: string, sep: string, rest: string)
    requires s == name + ":" + sep + rest
    requires |name| > 0 && forall i :: 0 <= i < |name| ==> IsWord(name[i])
    requires |sep| > 0 && forall i :: 0 <= i < |sep| ==> !IsWord(sep[i])
    requires |rest| > 0 && IsWord(rest[0])
    ensures MatchName(s) == Named(Some(name), rest)
  {
    var w := |name|;
    var d := w + 1 + |sep|;
    forall m | 0 <= m < w
      ensures In(s[m], Word)
    {
      assert s[m] == name[m];
    }
    assert s[w] == ':';
    RunEndUnique(s, 0, Word, w);
    forall m | w + 1 <= m < d
      ensures In(s[m], NonWord)
    {
      assert s[m] == sep[m - w - 1];
    }
    assert s[d] == rest[0];
    RunThenRestExact(s, w + 1, d, NonWord);
    assert s[..w] == name && s[d..] == rest;
  }

  /** `hello: Description of hello` names `hello`. */
  lemma HelloExample()
    ensures ParseDescription(["hello: Description of hello"]) == Named(Some("hello"), "Description of hello")
  {
    var line := "hello: Description of hello";
    assert Join([line], ",") == line;
    NamePrefixAt(line, "hello", " ", "Description of hello");
  }

  /** A colon directly followed by a word character, as in `a:b`, is no prefix: the whole text is the description. */
  lemma ColonThenWord(name: string, rest: string)
    requires |name| > 0 && forall i :: 0 <= i < |name| ==> IsWord(name[i])
    requires |rest| > 0 && IsWord(rest[0])
    ensures MatchName(name + ":" + rest) == Named(None, name + ":" + rest)
  {
    var s := name + ":" + rest;
    var w := |name|;
    forall m | 0 <= m < w
      ensures In(s[m], Word)
    {
      assert s[m] == name[m];
    }
    assert s[w] == ':';
    RunEndUnique(s, 0, Word, w);
    assert s[w + 1] == rest[0];
    RunEndUnique(s, w + 1, NonWord, w + 1);
  }

  /** Text without a colon has no name: the whole text is the description. */
  lemma NoColon(s: string)
    requires |s| > 0 && ':' !in s
    ensures MatchName(s) == Named(None, s)
  {
  }

  /** The name comes from the first line; every later line is kept in the description, after a `,`. */
  lemma NameFromFirstLine(name: string, sep: string, rest: string, more: seq<string>)
    requires |name| > 0 && forall i :: 0 <= i < |name| ==> IsWord(name[i])
    requires |sep| > 0 && forall i :: 0 <= i < |sep| ==> !IsWord(sep[i])
    requires |rest| > 0 && IsWord(rest[0])
    requires |more| > 0
    ensures ParseDescription([name + ":" + sep + rest] + more) == Named(Some(name), rest + "," + Join(more, ","))
  {
    var first := name + ":" + sep + rest;
    var lines := [first] + more;
    var tail := Join(more, ",");
    assert lines[1..] == more;
    var s := Join(lines, ",");
    assert s == first + "," + tail;
    Regroup(name + ":" + sep, rest, ",", tail);
    NamePrefixAt(s, name, sep, rest + "," + tail);
  }

  lemma Regroup(a: string, b: string, c: string, d: string)
    ensures a + b + c + d == a + (b + c + d)
  {
  }
}
