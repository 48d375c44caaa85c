/**
 * The pieces the tag grammars' fixed regular expressions are made of, written as
 * scanners over positions of a string. JavaScript's character classes are spelled
 * out; a greedy quantifier is a scan for the longest run, and the backtracking over
 * a `(.*)` or `(.*?)` capture is a search for the last (greedy) or first (lazy)
 * position that lets the rest of the expression match.
 */
module Scan {
  import opened Base

  /** JavaScript's `\s`: the Unicode white space characters and line terminators. */
  predicate IsSpace(c: char) {
    c == ' ' || c == '\t' || c == '\n' || c == '\r' || c == '\U{000B}' || c == '\U{000C}'
    || c == '\U{00A0}' || c == '\U{1680}' || ('\U{2000}' <= c <= '\U{200A}')
    || c == '\U{2028}' || c == '\U{2029}' || c == '\U{202F}' || c == '\U{205F}'
    || c == '\U{3000}' || c == '\U{FEFF}'
  }

  /** JavaScript's `\w` (no `u` flag): ASCII letters, digits and `_`. */
  predicate IsWord(c: char) {
    ('a' <= c <= 'z') || ('A' <= c <= 'Z') || ('0' <= c <= '9') || c == '_'
  }

  /** The characters `.` does not match. */
  predicate IsLineTerminator(c: char) {
    c == '\n' || c == '\r' || c == '\U{2028}' || c == '\U{2029}'
  }

  /** The character classes the grammars repeat. */
  datatype Class = Space | NonSpace | Word | NonWord | SpaceOrHyphen | NotLineTerminator

  predicate In(c: char, k: Class) {
    match k
    case Space => IsSpace(c)
    case NonSpace => !IsSpace(c)
    case Word => IsWord(c)
    case NonWord => !IsWord(c)
    case SpaceOrHyphen => IsSpace(c) || c == '-'
    case NotLineTerminator => !IsLineTerminator(c)
  }

  /** Every character of `s[i..j]` is in class `k`. */
  predicate AllIn(s: string, i: nat, j: nat, k: Class)
    requires i <= j <= |s|
  {
    forall m :: i <= m < j ==> In(s[m], k)
  }

  /** Where a greedy `k*` started at `i` stops: the end of the longest run of class `k`. */
  function RunEnd(s: string, i: nat, k: Class): (j: nat)
    requires i <= |s|
    ensures i <= j <= |s|
    ensures j < |s| ==> !In(s[j], k)
    decreases |s| - i
  {
    if i < |s| && In(s[i], k) then RunEnd(s, i + 1, k) else i
  }

  /** Everything the run scan passes over is in the class. */
  lemma {:induction false} RunEndAll(s: string, i: nat, k: Class)
    requires i <= |s|
    ensures AllIn(s, i, RunEnd(s, i, k), k)
    decreases |s| - i
  {
    if i < |s| && In(s[i], k) {
      RunEndAll(s, i + 1, k);
    }
  }

  /** A run of class `k` that cannot be extended is the one `RunEnd` finds. */
  lemma RunEndUnique(s: string, i: nat, k: Class, e: nat)
    requires i <= e <= |s| && AllIn(s, i, e, k) && (e == |s| || !In(s[e], k))
    ensures RunEnd(s, i, k) == e
  {
    RunEndAll(s, i, k);
  }

  /** A run of class `k` from `i` covers every stretch of class `k` that starts at `i`. */
  lemma {:induction false} RunEndCovers(s: string, i: nat, e: nat, k: Class)
    requires i <= e <= |s| && AllIn(s, i, e, k)
    ensures RunEnd(s, i, k) >= e
    decreases |s| - i
  {
    if i < e {
      assert In(s[i], k);
      RunEndCovers(s, i + 1, e, k);
    }
  }

  /**
   * `k+([\s\S]+)$` matched from `i`: a run of class `k` followed by a non-empty rest
   * reaching the end. The result is where the rest starts. The greedy `k+` gives up
   * characters only when the rest would otherwise be empty, so the start chosen is
   * the LARGEST one possible, and there is none exactly when no split exists.
   */
  function RunThenRest(s: string, i: nat, k: Class): (r: Option<nat>)
    requires i <= |s|
    ensures r.Some? ==> i < r.value < |s|
  {
    var j := RunEnd(s, i, k);
    if j == i then None
    else if j < |s| then Some(j)
    else if j - i >= 2 then Some(|s| - 1)
    else None
  }

  /** The split is a run of class `k` before a non-empty rest, the largest one, and missing only when there is none. */
  lemma RunThenRestSpec(s: string, i: nat, k: Class)
    requires i <= |s|
    ensures RunThenRest(s, i, k).Some? ==> AllIn(s, i, RunThenRest(s, i, k).value, k)
    ensures RunThenRest(s, i, k).Some? ==> forall m :: RunThenRest(s, i, k).value < m < |s| ==> !AllIn(s, i, m, k)
    ensures RunThenRest(s, i, k).None? ==> forall m :: i < m < |s| ==> !AllIn(s, i, m, k)
  {
    RunEndAll(s, i, k);
  }

  /** A run of class `k` from `i` to `e`, followed by a character outside it, is the split `RunThenRest` finds. */
  lemma RunThenRestExact(s: string, i: nat, e: nat, k: Class)
    requires i < e < |s| && AllIn(s, i, e, k) && !In(s[e], k)
    ensures RunThenRest(s, i, k) == Some(e)
  {
    RunEndUnique(s, i, k, e);
  }

  /** A run of class `k` from `i` to `e`, with text after it, makes `RunThenRest` split at `e` or later. */
  lemma RunThenRestAtLeast(s: string, i: nat, e: nat, k: Class)
    requires i < e < |s| && AllIn(s, i, e, k)
    ensures RunThenRest(s, i, k).Some? && RunThenRest(s, i, k).value >= e
  {
  }

  /** A run of class `k` written at `i`, followed by text that does not continue it, is the run the scan finds. */
  lemma RunOver(s: string, i: nat, run: string, rest: string, k: Class)
    requires i <= |s| && s[i..] == run + rest
    requires forall m :: 0 <= m < |run| ==> In(run[m], k)
    requires |rest| == 0 || !In(rest[0], k)
    ensures RunEnd(s, i, k) == i + |run| && s[i + |run|..] == rest
  {
    forall m | i <= m < i + |run|
      ensures In(s[m], k)
    {
      assert s[m] == s[i..][m - i] == run[m - i];
    }
    if |rest| > 0 {
      assert s[i + |run|] == s[i..][|run|] == rest[0];
    }
    RunEndUnique(s, i, k, i + |run|);
    assert s[i + |run|..] == s[i..][|run|..];
  }

  /** The last position at or before `hi` whose flag is set: the first one a greedy quantifier tries that works. */
  function LastTrue(bs: seq<bool>, hi: int): (r: Option<nat>)
    requires hi < |bs|
    ensures r.Some? ==> r.value <= hi && bs[r.value]
    ensures r.Some? ==> forall k :: r.value < k <= hi ==> !bs[k]
    ensures r.None? ==> forall k :: 0 <= k <= hi ==> !bs[k]
    decreases hi + 1
  {
    if hi < 0 then None
    else if bs[hi] then Some(hi)
    else LastTrue(bs, hi - 1)
  }

  /** A set flag with none set after it, up to `hi`, is the one `LastTrue` finds. */
  lemma LastTrueAt(bs: seq<bool>, hi: int, k: nat)
    requires k <= hi < |bs| && bs[k] && forall m :: k < m <= hi ==> !bs[m]
    ensures LastTrue(bs, hi) == Some(k)
  {
  }

  /** The first position at or after `lo` whose flag is set: the first one a lazy quantifier tries that works. */
  function FirstTrue(bs: seq<bool>, lo: nat): (r: Option<nat>)
    ensures r.Some? ==> lo <= r.value < |bs| && bs[r.value]
    ensures r.Some? ==> forall k :: lo <= k < r.value ==> !bs[k]
    ensures r.None? ==> forall k :: lo <= k < |bs| ==> !bs[k]
    decreases |bs| - lo
  {
    if lo >= |bs| then None
    else if bs[lo] then Some(lo)
    else FirstTrue(bs, lo + 1)
  }

  /** `^{(.*)}` can end at `k`: `s` opens with `{`, `s[k]` is `}` and `s[1..k]` holds no line terminator. */
  predicate ClosesType(s: string, k: nat) {
    1 <= k < |s| && s[0] == '{' && s[k] == '}' && AllIn(s, 1, k, NotLineTerminator)
  }

  /** A run of class `k` written at `i`, followed by a rest that does not continue it, is split off exactly. */
  lemma RunThenText(s: string, i: nat, run: string, rest: string, k: Class)
    requires i <= |s| && s[i..] == run + rest
    requires |run| > 0 && forall m :: 0 <= m < |run| ==> In(run[m], k)
    requires |rest| > 0 && !In(rest[0], k)
    ensures RunThenRest(s, i, k) == Some(i + |run|) && s[i + |run|..] == rest
  {
    RunOver(s, i, run, rest, k);
    RunThenRestExact(s, i, i + |run|, k);
  }

  /** `{type}` written at the start: the type closes right after it, and a rest without `}` holds no later close. */
  lemma TypeThenRest(s: string, typeRaw: string, rest: string)
    requires s == "{" + typeRaw + "}" + rest
    requires forall i :: 0 <= i < |typeRaw| ==> !IsLineTerminator(typeRaw[i])
    ensures ClosesType(s, |typeRaw| + 1) && s[1..|typeRaw| + 1] == typeRaw && s[|typeRaw| + 2..] == rest
    ensures '}' !in rest ==> forall m :: |typeRaw| + 1 < m < |s| ==> s[m] != '}'
  {
    var k := |typeRaw| + 1;
    forall i | 1 <= i < k
      ensures In(s[i], NotLineTerminator)
    {
      assert s[i] == typeRaw[i - 1];
    }
    assert s[1..k] == typeRaw;
    assert s[k + 1..] == rest;
    if '}' !in rest {
      forall m | k < m < |s|
        ensures s[m] != '}'
      {
        assert s[m] == rest[m - k - 1];
      }
    }
  }

  // The path grammar `\w+(?:(?:\[\])*\.\w+)*` shared by the two PARAM expressions.

  /** Greedy `(?:\[\])*` from `i`. */
  function BracketsEnd(s: string, i: nat): (j: nat)
    requires i <= |s|
    ensures i <= j <= |s|
    decreases |s| - i
  {
    if i + 1 < |s| && s[i] == '[' && s[i + 1] == ']' then BracketsEnd(s, i + 2) else i
  }

  /** Greedy `(?:(?:\[\])*\.\w+)*` from `i`. */
  function SegmentsEnd(s: string, i: nat): (j: nat)
    requires i <= |s|
    ensures i <= j <= |s|
    decreases |s| - i
  {
    var b := BracketsEnd(s, i);
    if b + 1 < |s| && s[b] == '.' && IsWord(s[b + 1]) then SegmentsEnd(s, RunEnd(s, b + 1, Word)) else i
  }

  /**
   * Greedy `\w+(?:(?:\[\])*\.\w+)*` from `i`; `i` itself when no word character is there.
   * In both PARAM expressions the path is followed by a character that is neither a word
   * character nor `[` nor `.`, so backtracking into the path never helps: this greedy end
   * is the only one a match can use (see `PathUnique`).
   */
  function PathEnd(s: string, i: nat): (j: nat)
    requires i <= |s|
    ensures i <= j <= |s|
  {
    var w := RunEnd(s, i, Word);
    if w == i then i else SegmentsEnd(s, w)
  }

  /** `t` is a whole path: `address`, `address.street`, `favouriteFoods[].cuisine`. */
  predicate IsPath(t: string) {
    0 < |t| && PathEnd(t, 0) == |t|
  }

  /** The character at `p`, if any, cannot continue a path. */
  predicate EndsPath(s: string, p: nat) {
    p <= |s| && (p == |s| || (!IsWord(s[p]) && s[p] != '[' && s[p] != '.'))
  }

  /** A character a path may hold. */
  predicate IsPathChar(c: char) {
    IsWord(c) || c == '[' || c == ']' || c == '.'
  }

  /** `t` is written in `s` starting at `j`. */
  predicate Occurs(s: string, t: string, j: nat) {
    j + |t| <= |s| && forall m :: 0 <= m < |t| ==> s[j + m] == t[m]
  }

  lemma RunEndEmbed(s: string, t: string, j: nat, i: nat, k: Class)
    requires Occurs(s, t, j) && i <= |t|
    requires RunEnd(t, i, k) < |t| || j + |t| == |s| || !In(s[j + |t|], k)
    ensures RunEnd(s, j + i, k) == j + RunEnd(t, i, k)
  {
    var e := RunEnd(t, i, k);
    RunEndAll(t, i, k);
    forall m | j + i <= m < j + e
      ensures In(s[m], k)
    {
      assert s[m] == t[m - j];
    }
    if e < |t| {
      assert s[j + e] == t[e];
    }
    RunEndUnique(s, j + i, k, j + e);
  }

  lemma RunEndRestrict(s: string, j: nat, i: nat, p: nat, k: Class)
    requires j <= i <= p <= |s| && RunEnd(s, i, k) <= p
    ensures RunEnd(s[j..p], i - j, k) == RunEnd(s, i, k) - j
  {
    var t := s[j..p];
    var e := RunEnd(s, i, k);
    RunEndAll(s, i, k);
    forall m | i - j <= m < e - j
      ensures In(t[m], k)
    {
      assert t[m] == s[m + j];
    }
    if e - j < |t| {
      assert t[e - j] == s[e];
    }
    RunEndUnique(t, i - j, k, e - j);
  }

  lemma {:induction false} BracketsEndEmbed(s: string, t: string, j: nat, i: nat)
    requires Occurs(s, t, j) && i <= |t|
    requires BracketsEnd(t, i) + 1 < |t|
    ensures BracketsEnd(s, j + i) == j + BracketsEnd(t, i)
    decreases |t| - i
  {
    assert s[j + i] == t[i] && s[j + i + 1] == t[i + 1];
    if t[i] == '[' && t[i + 1] == ']' {
      BracketsEndEmbed(s, t, j, i + 2);
    }
  }

  lemma {:induction false} BracketsEndRestrict(s: string, j: nat, i: nat, p: nat)
    requires j <= i <= p <= |s| && BracketsEnd(s, i) < p
    ensures BracketsEnd(s[j..p], i - j) == BracketsEnd(s, i) - j
    decreases |s| - i
  {
    var t := s[j..p];
    if i + 1 < p {
      assert t[i - j] == s[i] && t[i - j + 1] == s[i + 1];
    }
    if i + 1 < |s| && s[i] == '[' && s[i + 1] == ']' {
      BracketsEndRestrict(s, j, i + 2, p);
    }
  }

  /**
   * One taken `(?:\[\])*\.\w+` iteration of the path scan over `t` (from `i`, over the
   * brackets to `b`, the dot, and the word run to `e`) is taken alike where `t` sits in `s`.
   */
  lemma StepEmbed(s: string, t: string, j: nat, i: nat, b: nat, e: nat)
    requires Occurs(s, t, j) && i <= |t|
    requires b == BracketsEnd(t, i) && b + 1 < |t| && t[b] == '.' && IsWord(t[b + 1])
    requires e == RunEnd(t, b + 1, Word)
    requires EndsPath(s, j + |t|)
    ensures SegmentsEnd(s, j + i) == SegmentsEnd(s, j + e)
  {
    StepScans(s, t, j, i, b, e);
    Taken(s, j + i, j + b, j + e);
  }

  /** The brackets, the dot and the word run of one iteration over `t`, found at the same places in `s`. */
  lemma StepScans(s: string, t: string, j: nat, i: nat, b: nat, e: nat)
    requires Occurs(s, t, j) && i <= |t|
    requires b == BracketsEnd(t, i) && b + 1 < |t| && t[b] == '.' && IsWord(t[b + 1])
    requires e == RunEnd(t, b + 1, Word)
    requires EndsPath(s, j + |t|)
    ensures j + i <= |s|
    ensures j + b == BracketsEnd(s, j + i) && j + b + 1 < |s| && s[j + b] == '.' && IsWord(s[j + b + 1])
    ensures j + e == RunEnd(s, j + b + 1, Word)
  {
    BracketsEndEmbed(s, t, j, i);
    assert s[j + b] == t[b] && s[j + b + 1] == t[b + 1];
    assert e < |t| || j + |t| == |s| || !In(s[j + |t|], Word);
    RunEndEmbed(s, t, j, b + 1, Word);
  }

  /** The path scan's iteration step, when it is taken. */
  lemma Taken(s: string, i: nat, b: nat, e: nat)
    requires i <= |s|
    requires b == BracketsEnd(s, i) && b + 1 < |s| && s[b] == '.' && IsWord(s[b + 1])
    requires e == RunEnd(s, b + 1, Word)
    ensures SegmentsEnd(s, i) == SegmentsEnd(s, e)
  {
  }

  lemma {:induction false} SegmentsEndEmbed(s: string, t: string, j: nat, i: nat)
    requires Occurs(s, t, j) && i <= |t|
    requires SegmentsEnd(t, i) == |t| && EndsPath(s, j + |t|)
    ensures SegmentsEnd(s, j + i) == j + |t|
    decreases |t| - i
  {
    var b := BracketsEnd(t, i);
    if b + 1 < |t| && t[b] == '.' && IsWord(t[b + 1]) {
      StepEmbed(s, t, j, i, b, RunEnd(t, b + 1, Word));
      SegmentsEndEmbed(s, t, j, RunEnd(t, b + 1, Word));
    } else {
      assert i == |t|;
      StopAtEnd(s, j + i);
    }
  }

  /** Where nothing can continue a path, the iterations stop at once. */
  lemma StopAtEnd(s: string, i: nat)
    requires EndsPath(s, i)
    ensures SegmentsEnd(s, i) == i
  {
    assert BracketsEnd(s, i) == i;
  }

  /** One taken iteration of the path scan over `s` (from `i` to `e`) is taken alike in the window `s[j..p]`. */
  lemma StepRestrict(s: string, j: nat, i: nat, p: nat, b: nat, e: nat)
    requires j <= i <= p <= |s|
    requires b == BracketsEnd(s, i) && b + 1 < |s| && s[b] == '.' && IsWord(s[b + 1])
    requires e == RunEnd(s, b + 1, Word) && e <= p
    ensures SegmentsEnd(s[j..p], i - j) == SegmentsEnd(s[j..p], e - j)
  {
    WindowScans(s, j, i, p, b, e);
    Taken(s[j..p], i - j, b - j, e - j);
  }

  /** The brackets, the dot and the word run of one iteration over `s`, found at the same places in `s[j..p]`. */
  lemma WindowScans(s: string, j: nat, i: nat, p: nat, b: nat, e: nat)
    requires j <= i <= p <= |s|
    requires b == BracketsEnd(s, i) && b + 1 < |s| && s[b] == '.' && IsWord(s[b + 1])
    requires e == RunEnd(s, b + 1, Word) && e <= p
    ensures i - j <= |s[j..p]|
    ensures b - j == BracketsEnd(s[j..p], i - j) && b - j + 1 < |s[j..p]|
    ensures s[j..p][b - j] == '.' && IsWord(s[j..p][b - j + 1])
    ensures e - j == RunEnd(s[j..p], b - j + 1, Word)
  {
    var t := s[j..p];
    assert In(s[b + 1], Word);
    BracketsEndRestrict(s, j, i, p);
    assert t[b - j] == s[b] && t[b - j + 1] == s[b + 1];
    RunEndRestrict(s, j, b + 1, p, Word);
  }

  lemma {:induction false} SegmentsEndRestrict(s: string, j: nat, i: nat, p: nat)
    requires j <= i <= p <= |s| && SegmentsEnd(s, i) == p
    ensures SegmentsEnd(s[j..p], i - j) == p - j
    decreases |s| - i
  {
    var b := BracketsEnd(s, i);
    if b + 1 < |s| && s[b] == '.' && IsWord(s[b + 1]) {
      var e := RunEnd(s, b + 1, Word);
      assert SegmentsEnd(s, e) == p;
      StepRestrict(s, j, i, p, b, e);
      SegmentsEndRestrict(s, j, e, p);
    } else {
      assert i == p;
    }
  }

  /** A path written at `j` and followed by a character that cannot continue it is scanned exactly. */
  lemma PathEndEmbed(s: string, t: string, j: nat)
    requires IsPath(t) && Occurs(s, t, j) && EndsPath(s, j + |t|)
    ensures PathEnd(s, j) == j + |t|
  {
    RunEndEmbed(s, t, j, 0, Word);
    SegmentsEndEmbed(s, t, j, RunEnd(t, 0, Word));
  }

  /** What the path scan consumes is a whole path. */
  lemma PathEndRestrict(s: string, j: nat)
    requires j <= |s| && PathEnd(s, j) > j
    ensures IsPath(s[j..PathEnd(s, j)])
  {
    var p := PathEnd(s, j);
    var w := RunEnd(s, j, Word);
    RunEndRestrict(s, j, j, p, Word);
    SegmentsEndRestrict(s, j, w, p);
  }

  /** The only path a match can use at `j` is the greedy one. */
  lemma PathUnique(s: string, j: nat, p: nat)
    requires j <= p <= |s| && IsPath(s[j..p]) && EndsPath(s, p)
    ensures PathEnd(s, j) == p
  {
    assert Occurs(s, s[j..p], j);
    PathEndEmbed(s, s[j..p], j);
  }

  lemma {:induction false} SegmentsChars(s: string, i: nat)
    requires i <= |s|
    ensures forall m :: i <= m < SegmentsEnd(s, i) ==> IsPathChar(s[m])
    decreases |s| - i
  {
    var b := BracketsEnd(s, i);
    if b + 1 < |s| && s[b] == '.' && IsWord(s[b + 1]) {
      BracketsChars(s, i);
      RunEndAll(s, b + 1, Word);
      var e := RunEnd(s, b + 1, Word);
      SegmentsChars(s, e);
    }
  }

  lemma {:induction false} BracketsChars(s: string, i: nat)
    requires i <= |s|
    ensures forall m :: i <= m < BracketsEnd(s, i) ==> s[m] == '[' || s[m] == ']'
    decreases |s| - i
  {
    if i + 1 < |s| && s[i] == '[' && s[i + 1] == ']' {
      BracketsChars(s, i + 2);
    }
  }

  /** A path holds only word characters, brackets and dots, and starts with a word character. */
  lemma PathChars(t: string)
    requires IsPath(t)
    ensures IsWord(t[0])
    ensures forall m :: 0 <= m < |t| ==> IsPathChar(t[m])
  {
    RunEndAll(t, 0, Word);
    SegmentsChars(t, RunEnd(t, 0, Word));
  }
}
