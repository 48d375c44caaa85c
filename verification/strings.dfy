/** The JavaScript string and array operations the parsers are built from. */
module Strings {

  /** `Array.prototype.join(sep)` over strings: the elements with `sep` between neighbours. */
  function Join(xs: seq<string>, sep: string): (r: string)
    ensures |xs| == 0 ==> r == ""
    ensures |xs| == 1 ==> r == xs[0]
    decreases |xs|
  {
    if |xs| == 0 then "" else if |xs| == 1 then xs[0] else xs[0] + sep + Join(xs[1..], sep)
  }

  /**
   * `String.prototype.split(c)`: the pieces of `s` between occurrences of `c`. It is the
   * reference `Join` is checked against (see `SplitJoin`).
   */
  function Split(s: string, c: char): (r: seq<string>)
    ensures |r| >= 1
    decreases |s|
  {
    if |s| == 0 then [""]
    else
      var rest := Split(s[1..], c);
      if s[0] == c then [""] + rest else [[s[0]] + rest[0]] + rest[1..]
  }

  /** A string without the separator splits into itself. */
  lemma {:induction false} SplitNone(x: string, c: char)
    requires c !in x
    ensures Split(x, c) == [x]
    decreases |x|
  {
    if |x| > 0 {
      SplitNone(x[1..], c);
      assert [x[0]] + x[1..] == x;
    }
  }

  /** Splitting at the first separator peels off the piece before it. */
  lemma {:induction false} SplitFirst(x: string, c: char, rest: string)
    requires c !in x
    ensures Split(x + [c] + rest, c) == [x] + Split(rest, c)
    decreases |x|
  {
    var s := x + [c] + rest;
    if |x| == 0 {
      assert s[1..] == rest;
    } else {
      assert s[1..] == x[1..] + [c] + rest;
      SplitFirst(x[1..], c, rest);
      assert [x[0]] + x[1..] == x;
    }
  }

  /** Joining with a one-character separator no element holds is undone by splitting at it. */
  lemma {:induction false} SplitJoin(xs: seq<string>, c: char)
    requires |xs| >= 1
    requires forall i :: 0 <= i < |xs| ==> c !in xs[i]
    ensures Split(Join(xs, [c]), c) == xs
    decreases |xs|
  {
    if |xs| == 1 {
      SplitNone(xs[0], c);
    } else {
      SplitFirst(xs[0], c, Join(xs[1..], [c]));
      SplitJoin(xs[1..], c);
      assert [xs[0]] + xs[1..] == xs;
    }
  }

  /** Joining a concatenation puts one separator between the two joins. */
  lemma {:induction false} JoinAppend(xs: seq<string>, ys: seq<string>, sep: string)
    requires |xs| >= 1 && |ys| >= 1
    ensures Join(xs + ys, sep) == Join(xs, sep) + sep + Join(ys, sep)
    decreases |xs|
  {
    if |xs| == 1 {
      assert (xs + ys)[1..] == ys;
    } else {
      assert (xs + ys)[1..] == xs[1..] + ys;
      JoinAppend(xs[1..], ys, sep);
    }
  }

  /** `filter(Boolean)` over strings: the non-empty ones, in order. */
  function NonEmpty(xs: seq<string>): (r: seq<string>)
    ensures forall i :: 0 <= i < |r| ==> r[i] != ""
    ensures |r| <= |xs|
    decreases |xs|
  {
    if |xs| == 0 then []
    else if xs[0] == "" then NonEmpty(xs[1..])
    else [xs[0]] + NonEmpty(xs[1..])
  }

  /** Filtering distributes over concatenation. */
  lemma {:induction false} NonEmptyAppend(xs: seq<string>, ys: seq<string>)
    ensures NonEmpty(xs + ys) == NonEmpty(xs) + NonEmpty(ys)
    decreases |xs|
  {
    if |xs| == 0 {
      assert xs + ys == ys;
    } else {
      assert (xs + ys)[1..] == xs[1..] + ys;
      NonEmptyAppend(xs[1..], ys);
    }
  }

  /** A string is kept by the filter exactly when it is non-empty. */
  lemma {:induction false} NonEmptyMember(xs: seq<string>, x: string)
    ensures x in NonEmpty(xs) <==> x in xs && x != ""
    decreases |xs|
  {
    if |xs| > 0 {
      NonEmptyMember(xs[1..], x);
      assert xs == [xs[0]] + xs[1..];
    }
  }

  /** `reduce((a, b) => a.concat(b), [])`: the lists one after another. */
  function Flatten<T>(xss: seq<seq<T>>): (r: seq<T>)
    decreases |xss|
  {
    if |xss| == 0 then [] else xss[0] + Flatten(xss[1..])
  }

  /** Every element of every list is in the flattening. */
  lemma {:induction false} FlattenHas<T>(xss: seq<seq<T>>, b: nat, j: nat)
    requires b < |xss| && j < |xss[b]|
    ensures xss[b][j] in Flatten(xss)
    decreases |xss|
  {
    assert Flatten(xss) == xss[0] + Flatten(xss[1..]);
    if b == 0 {
      assert Flatten(xss)[j] == xss[0][j];
    } else {
      FlattenHas(xss[1..], b - 1, j);
      assert xss[1..][b - 1] == xss[b];
    }
  }

  /** Flattening distributes over concatenation. */
  lemma {:induction false} FlattenAppend<T>(xss: seq<seq<T>>, yss: seq<seq<T>>)
    ensures Flatten(xss + yss) == Flatten(xss) + Flatten(yss)
    decreases |xss|
  {
    if |xss| > 0 {
      assert (xss + yss)[1..] == xss[1..] + yss;
      FlattenAppend(xss[1..], yss);
    } else {
      assert xss + yss == yss;
    }
  }

  /** `toLowerCase` on one character, ASCII letters only. */
  function LowerChar(c: char): (r: char)
    ensures 'A' <= c <= 'Z' ==> 'a' <= r <= 'z'
    ensures !('A' <= c <= 'Z') ==> r == c
  {
    if 'A' <= c <= 'Z' then (c as int - 'A' as int + 'a' as int) as char else c
  }

  /** `String.prototype.toLowerCase`, ASCII letters only. */
  function ToLower(s: string): (r: string)
    ensures |r| == |s|
    ensures forall i :: 0 <= i < |s| ==> r[i] == LowerChar(s[i])
  {
    seq(|s|, i requires 0 <= i < |s| => LowerChar(s[i]))
  }

  /** Lower-casing twice is lower-casing once. */
  lemma ToLowerIdempotent(s: string)
    ensures ToLower(ToLower(s)) == ToLower(s)
  {
  }

  /** Lower-casing works character by character, so it distributes over concatenation. */
  lemma ToLowerAppend(a: string, b: string)
    ensures ToLower(a + b) == ToLower(a) + ToLower(b)
  {
  }

  /** `/\[\]$/.test(s)`: the string ends in `[]`. */
  predicate EndsWithBrackets(s: string) {
    |s| >= 2 && s[|s| - 2] == '[' && s[|s| - 1] == ']'
  }

  /** `s.replace(/\[\]$/, '')`: the string without its final `[]`, unchanged when it has none. */
  function StripBrackets(s: string): (r: string)
    ensures EndsWithBrackets(s) ==> r + "[]" == s
    ensures !EndsWithBrackets(s) ==> r == s
  {
    if EndsWithBrackets(s) then s[..|s| - 2] else s
  }

  /** The array test holds exactly of the strings that are something followed by `[]`. */
  lemma EndsWithBracketsIff(s: string)
    ensures EndsWithBrackets(s) <==> exists u :: s == u + "[]"
  {
    if EndsWithBrackets(s) {
      assert s == s[..|s| - 2] + "[]";
    }
  }

  /** `s.slice(1, -1)`: everything but the first and the last character; empty for one character. */
  function SliceInner(s: string): (r: string)
    requires |s| >= 1
    ensures |s| >= 2 ==> [s[0]] + r + [s[|s| - 1]] == s
    ensures |r| == |s| - 2 || (|s| == 1 && r == "")
  {
    if |s| == 1 then "" else s[1..|s| - 1]
  }
}
