/**
 * lib/throws.js: each `@throws` value is matched against `^(?:{(.*?)}){0,1}\s*([\s\S]+)?$`
 * and shaped into `{type}`, `{description}` or `{type, description}` by JavaScript
 * truthiness of the two groups. Everything after the optional type always matches, so
 * the match never fails; the lazy `(.*?)` closes the type at the FIRST `}` it can.
 * index.js uses the same expression with a greedy `(.*)`; the shaping is shared.
 */
module Throws {
  import opened Base
  import opened Scan

  /** For every position, whether `{(.*)}` can close there; the rest of the expression matches after any of them. */
  function CloseFlags(s: string): (r: seq<bool>)
    ensures |r| == |s| && forall k :: 0 <= k < |s| ==> r[k] == ClosesType(s, k)
  {
    seq(|s|, k requires 0 <= k < |s| => ClosesType(s, k))
  }

  /** The two capture groups; `None` is a group that took no part in the match (`undefined`). */
  datatype ThrowsMatch = ThrowsMatch(typeRaw: Option<string>, description: Option<string>)

  /** `\s*([\s\S]+)?$` from `i`: the greedy `\s*` takes all the white space, and the group takes the rest if any is left. */
  function RestFrom(s: string, i: nat): (r: Option<string>)
    requires i <= |s|
    ensures r.None? <==> AllIn(s, i, |s|, Space)
    ensures r.Some? ==> |r.value| > 0 && !IsSpace(r.value[0])
    ensures r.Some? ==> exists e :: i <= e < |s| && AllIn(s, i, e, Space) && r.value == s[e..]
    ensures r.Some? ==> |r.value| <= |s| - i && AllIn(s, i, |s| - |r.value|, Space) && r.value == s[|s| - |r.value|..]
  {
    var e := RunEnd(s, i, Space);
    RunEndAll(s, i, Space);
    if e < |s| then
      assert !In(s[e], Space);
      Some(s[e..])
    else None
  }

  /** The groups, once the position the type closes at (if any) is chosen. */
  function MatchAt(s: string, close: Option<nat>): (r: ThrowsMatch)
    requires close.Some? ==> ClosesType(s, close.value)
    ensures r.typeRaw.Some? <==> close.Some?
    ensures close.Some? ==> |r.typeRaw.value| + 1 == close.value && r.typeRaw.value == s[1..close.value]
    ensures close.Some? ==> r.description == RestFrom(s, close.value + 1)
    ensures close.None? ==> r.description == RestFrom(s, 0)
    ensures r.description.Some? ==> |r.description.value| > 0 && !IsSpace(r.description.value[0])
  {
    match close
    case None => ThrowsMatch(None, RestFrom(s, 0))
    case Some(k) => ThrowsMatch(Some(s[1..k]), RestFrom(s, k + 1))
  }

  /** `error.match(THROWS)` in lib/throws.js: the lazy type closes at the first `}` it can. */
  function MatchThrows(s: string): (r: ThrowsMatch)
    ensures r.typeRaw.Some? ==> '}' !in r.typeRaw.value
    ensures r.typeRaw.None? ==> forall k :: 0 <= k < |s| ==> !ClosesType(s, k)
    ensures r.typeRaw.Some? ==> ClosesType(s, |r.typeRaw.value| + 1) && r.typeRaw.value == s[1..|r.typeRaw.value| + 1]
    ensures r.typeRaw.Some? ==> forall k :: 0 <= k <= |r.typeRaw.value| ==> !ClosesType(s, k)
    ensures r.description == RestFrom(s, if r.typeRaw.Some? then |r.typeRaw.value| + 2 else 0)
  {
    var close := FirstTrue(CloseFlags(s), 0);
    LazyClose(s);
    MatchAt(s, close)
  }

  /** What the first close tells: it can close the type, nothing before it can, and the type before it holds no `}`. */
  lemma LazyClose(s: string)
    ensures FirstTrue(CloseFlags(s), 0).None? ==> forall k :: 0 <= k < |s| ==> !ClosesType(s, k)
    ensures FirstTrue(CloseFlags(s), 0).Some? ==>
              var c := FirstTrue(CloseFlags(s), 0).value;
              ClosesType(s, c) && '}' !in s[1..c] && forall k :: 0 <= k < c ==> !ClosesType(s, k)
  {
    var close := FirstTrue(CloseFlags(s), 0);
    if close.Some? {
      forall m | 1 <= m < close.value
        ensures s[m] != '}'
      {
        assert AllIn(s, 1, m, NotLineTerminator);
        assert !CloseFlags(s)[m];
      }
      assert forall m :: 0 <= m < |s[1..close.value]| ==> s[1..close.value][m] == s[m + 1];
    }
  }

  /** The record the callback returns. `None` inside `TypeAndDescription` is a key holding `undefined`. */
  datatype ThrowsDoc =
      /** `{ type }`: a non-empty type and no description. */
    | TypeOnly(typeName: string)
      /** `{ description }`: a description, and no type or an empty one. */
    | DescriptionOnly(description: string)
      /** `{ type, description }`: every other case, with whatever the groups hold. */
    | TypeAndDescription(typeValue: Option<string>, descriptionValue: Option<string>)

  /** JavaScript truthiness of a group: present and non-empty. */
  predicate Truthy(g: Option<string>) {
    g.Some? && g.value != ""
  }

  /** The callback's three early-return branches. */
  function Shape(m: ThrowsMatch): (r: ThrowsDoc)
    ensures r.TypeOnly? <==> Truthy(m.typeRaw) && !Truthy(m.description)
    ensures r.DescriptionOnly? <==> Truthy(m.description) && !Truthy(m.typeRaw)
    ensures r.TypeOnly? ==> Some(r.typeName) == m.typeRaw
    ensures r.DescriptionOnly? ==> Some(r.description) == m.description
    ensures r.TypeAndDescription? ==> r.typeValue == m.typeRaw && r.descriptionValue == m.description
  {
    if Truthy(m.typeRaw) && !Truthy(m.description) then TypeOnly(m.typeRaw.value)
    else if Truthy(m.description) && !Truthy(m.typeRaw) then DescriptionOnly(m.description.value)
    else TypeAndDescription(m.typeRaw, m.description)
  }

  /** `{type}` at the start of `s`, closing at the `}` after `t`, with only white space after it. */
  predicate ReadsTypeAlone(s: string, t: string) {
    0 < |t| && ClosesType(s, |t| + 1) && t == s[1..|t| + 1] && AllIn(s, |t| + 2, |s|, Space)
  }

  /** `d` is what is left of `s` after leading white space, or after an empty `{}` and white space. */
  predicate ReadsTextAlone(s: string, d: string) {
    0 < |d| <= |s| && !IsSpace(d[0]) && d == s[|s| - |d|..]
    && (AllIn(s, 0, |s| - |d|, Space) || (2 <= |s| - |d| && s[..2] == "{}" && AllIn(s, 2, |s| - |d|, Space)))
  }

  /** What each early return of the callback says about the value, for groups read at a chosen close. */
  lemma ShapeReads(s: string, m: ThrowsMatch)
    requires m.typeRaw.Some? ==> ClosesType(s, |m.typeRaw.value| + 1) && m.typeRaw.value == s[1..|m.typeRaw.value| + 1]
    requires m.description == RestFrom(s, if m.typeRaw.Some? then |m.typeRaw.value| + 2 else 0)
    ensures Shape(m).TypeOnly? ==> ReadsTypeAlone(s, Shape(m).typeName)
    ensures Shape(m).DescriptionOnly? ==> ReadsTextAlone(s, Shape(m).description)
  {
    if m.typeRaw.Some? && m.typeRaw.value == "" {
      assert s[..2] == "{}";
    }
  }

  /**
   * One `@throws` value. `{type}` alone is a non-empty type closing at the first `}`, followed
   * by white space only; a description alone is the text after leading white space, or after
   * an empty `{}` and white space.
   */
  function ParseThrow(value: string): (r: ThrowsDoc)
    ensures r.TypeOnly? ==> ReadsTypeAlone(value, r.typeName) && '}' !in r.typeName
    ensures r.DescriptionOnly? ==> ReadsTextAlone(value, r.description)
  {
    ShapeReads(value, MatchThrows(value));
    Shape(MatchThrows(value))
  }

  /** `parseThrows(throws)`: one record per value, in order; nothing throws. */
  function ParseThrows(values: seq<string>): (r: seq<ThrowsDoc>)
    ensures |r| == |values| && forall i :: 0 <= i < |values| ==> r[i] == ParseThrow(values[i])
  {
    seq(|values|, i requires 0 <= i < |values| => ParseThrow(values[i]))
  }

  // Where a rendered value's type closes.

  /** `{type}` at the start of `s`, with no `}` and no line terminator inside: the first place the type can close. */
  lemma FirstClose(s: string, t: string)
    requires |s| >= |t| + 2 && s[..|t| + 2] == "{" + t + "}"
    requires '}' !in t && forall i :: 0 <= i < |t| ==> !IsLineTerminator(t[i])
    ensures FirstTrue(CloseFlags(s), 0) == Some(|t| + 1)
    ensures s[1..|t| + 1] == t
  {
    var k := |t| + 1;
    assert s[0] == '{' && s[k] == '}';
    forall m | 1 <= m < k
      ensures In(s[m], NotLineTerminator) && s[m] != '}'
    {
      assert s[m] == s[..k + 1][m] == t[m - 1];
    }
    assert CloseFlags(s)[k];
    assert s[1..k] == s[..k + 1][1..k];
    FirstTrueAt(CloseFlags(s), k);
  }

  /** A set flag with none set before it is the one `FirstTrue` finds. */
  lemma FirstTrueAt(bs: seq<bool>, k: nat)
    requires k < |bs| && bs[k] && forall m :: 0 <= m < k ==> !bs[m]
    ensures FirstTrue(bs, 0) == Some(k)
  {
    FirstTrueFrom(bs, 0, k);
  }

  lemma {:induction false} FirstTrueFrom(bs: seq<bool>, lo: nat, k: nat)
    requires lo <= k < |bs| && bs[k] && forall m :: lo <= m < k ==> !bs[m]
    ensures FirstTrue(bs, lo) == Some(k)
    decreases k - lo
  {
    if lo < k {
      FirstTrueFrom(bs, lo + 1, k);
    }
  }

  /** White space then a description that does not start with white space: the description is captured whole. */
  lemma RestOfLayout(s: string, i: nat, sep: string, desc: string)
    requires i <= |s| && s[i..] == sep + desc
    requires forall m :: 0 <= m < |sep| ==> IsSpace(sep[m])
    requires |desc| == 0 || !IsSpace(desc[0])
    ensures RestFrom(s, i) == if |desc| == 0 then None else Some(desc)
  {
    forall m | i <= m < i + |sep|
      ensures In(s[m], Space)
    {
      assert s[m] == s[i..][m - i] == sep[m - i];
    }
    if |desc| > 0 {
      assert s[i + |sep|] == s[i..][|sep|] == desc[0];
      RunEndUnique(s, i, Space, i + |sep|);
      assert s[i + |sep|..] == s[i..][|sep|..];
    } else {
      RunEndUnique(s, i, Space, |s|);
    }
  }

  // The three shapes.

  /** `{T} text` gives `{type: T, description: text}`: the white space between them belongs to neither, and a `}` in the text stays in the text. */
  lemma TypeAndText(t: string, sep: string, desc: string)
    requires |t| > 0 && '}' !in t && forall i :: 0 <= i < |t| ==> !IsLineTerminator(t[i])
    requires forall m :: 0 <= m < |sep| ==> IsSpace(sep[m])
    requires |desc| > 0 && !IsSpace(desc[0])
    ensures ParseThrow("{" + t + "}" + sep + desc) == TypeAndDescription(Some(t), Some(desc))
  {
    var s := "{" + t + "}" + sep + desc;
    assert s[..|t| + 2] == "{" + t + "}";
    FirstClose(s, t);
    assert s[|t| + 2..] == sep + desc;
    RestOfLayout(s, |t| + 2, sep, desc);
  }

  /** `{T}` alone (trailing white space allowed) gives `{type: T}` with no description key. */
  lemma TypeAlone(t: string, sep: string)
    requires |t| > 0 && '}' !in t && forall i :: 0 <= i < |t| ==> !IsLineTerminator(t[i])
    requires forall m :: 0 <= m < |sep| ==> IsSpace(sep[m])
    ensures ParseThrow("{" + t + "}" + sep) == TypeOnly(t)
  {
    var s := "{" + t + "}" + sep;
    assert s[..|t| + 2] == "{" + t + "}";
    FirstClose(s, t);
    assert s[|t| + 2..] == sep + "";
    RestOfLayout(s, |t| + 2, sep, "");
  }

  /** Text that does not open with `{` gives `{description}` with no type key, leading white space dropped. */
  lemma TextAlone(sep: string, desc: string)
    requires forall m :: 0 <= m < |sep| ==> IsSpace(sep[m])
    requires |desc| > 0 && !IsSpace(desc[0]) && (|sep| > 0 || desc[0] != '{')
    ensures ParseThrow(sep + desc) == DescriptionOnly(desc)
  {
    var s := sep + desc;
    if |sep| > 0 {
      assert s[0] == sep[0];
    } else {
      assert s[0] == desc[0];
    }
    assert FirstTrue(CloseFlags(s), 0).None?;
    assert s[0..] == sep + desc;
    RestOfLayout(s, 0, sep, desc);
  }

  /** The lazy type stops at the first `}`: `{A} x {B}` gives type `A` and description `x {B}`. */
  lemma LazyExample()
    ensures ParseThrow("{A} x {B}") == TypeAndDescription(Some("A"), Some("x {B}"))
  {
    var s := "{" + "A" + "}" + " " + "x {B}";
    assert s == "{A} x {B}";
    TypeAndText("A", " ", "x {B}");
  }

  /** An empty type is falsy: `{}` alone keeps both keys, the type empty and the description `undefined`. */
  lemma EmptyBraces()
    ensures ParseThrow("{}") == TypeAndDescription(Some(""), None)
  {
    FirstClose("{}", "");
    RestOfLayout("{}", 2, "", "");
  }

  /** An empty value keeps both keys, both `undefined`. */
  lemma EmptyValue()
    ensures ParseThrow("") == TypeAndDescription(None, None)
  {
  }
}
