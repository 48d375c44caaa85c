/**
 * lib/returns.js: each `@returns` value is matched against `^{(.*)}\s+([\s\S]+)$`, typed
 * with `getType` of lib/get-type.js, and only the first record is kept (`null` when there
 * is none). Every value is still matched, so a malformed later value still throws.
 */
module Returns {
  import opened Base
  import opened Scan
  import opened Strings
  import opened GetType

  /**
   * One way of reading a value as the expression: the type closes at `k`, the `\s+`
   * run is `s[k + 1..d]` and the description is `s[d..]`.
   */
  datatype ReturnSplit = ReturnSplit(k: nat, d: nat)

  /** `sp` is a decomposition the expression admits. */
  predicate IsReturnSplit(s: string, sp: ReturnSplit) {
    ClosesType(s, sp.k) && sp.k + 1 < sp.d < |s| && AllIn(s, sp.k + 1, sp.d, Space)
  }

  /** The type can close at `k`: white space and a non-empty description follow it. */
  predicate ReturnCloses(s: string, k: nat) {
    ClosesType(s, k) && RunThenRest(s, k + 1, Space).Some?
  }

  /** For every position, whether the type can close there. */
  function ReturnFlags(s: string): (r: seq<bool>)
    ensures |r| == |s| && forall k :: 0 <= k < |s| ==> r[k] == ReturnCloses(s, k)
  {
    seq(|s|, k requires 0 <= k < |s| => ReturnCloses(s, k))
  }

  /**
   * `value.match(RETURN)` as a split: the greedy `(.*)` closes the type at the last `}`
   * that leaves a match, and the greedy `\s+` then takes as much white space as it can.
   */
  function LocateReturn(s: string): (r: Option<ReturnSplit>)
    ensures r.Some? ==> IsReturnSplit(s, r.value)
  {
    if |s| == 0 || s[0] != '{' then None
    else
      match LastTrue(ReturnFlags(s), |s| - 1)
      case None => None
      case Some(k) => RunThenRestSpec(s, k + 1, Space); Some(ReturnSplit(k, RunThenRest(s, k + 1, Space).value))
  }

  /** The two capture groups. */
  datatype ReturnMatch = ReturnMatch(typeRaw: string, description: string)

  /** `value.match(RETURN)`. */
  function MatchReturn(s: string): (r: Option<ReturnMatch>)
    ensures r.Some? <==> LocateReturn(s).Some?
    ensures r.Some? ==> |r.value.description| > 0
    ensures |s| == 0 || s[0] != '{' ==> r.None?
  {
    match LocateReturn(s)
    case None => None
    case Some(sp) => Some(ReturnMatch(s[1..sp.k], s[sp.d..]))
  }

  /**
   * Whenever the expression can match, the matcher finds a match; its type runs to the last
   * `}` any match can use, and for that type the white space is the longest run possible.
   */
  lemma LocateReturnComplete(s: string, sp: ReturnSplit)
    requires IsReturnSplit(s, sp)
    ensures LocateReturn(s).Some? && LocateReturn(s).value.k >= sp.k
    ensures LocateReturn(s).value.k == sp.k ==> LocateReturn(s).value.d >= sp.d
  {
    assert ReturnFlags(s)[sp.k];
  }

  /** `{type}` followed by a run of white space and a description. */
  function RenderReturn(typeRaw: string, sep: string, desc: string): string {
    "{" + typeRaw + "}" + sep + desc
  }

  /** The conditions under which a rendered `@returns` value reads back unchanged. */
  predicate ReturnRenderable(typeRaw: string, sep: string, desc: string) {
    (forall i :: 0 <= i < |typeRaw| ==> !IsLineTerminator(typeRaw[i]))
    && |sep| > 0 && (forall i :: 0 <= i < |sep| ==> IsSpace(sep[i]))
    && |desc| > 0 && !IsSpace(desc[0]) && '}' !in desc
  }

  /** The pieces of a rendered value sit where they were written. */
  lemma ReturnLayout(s: string, typeRaw: string, sep: string, desc: string)
    requires s == RenderReturn(typeRaw, sep, desc) && ReturnRenderable(typeRaw, sep, desc)
    ensures ClosesType(s, |typeRaw| + 1)
    ensures RunThenRest(s, |typeRaw| + 2, Space) == Some(|typeRaw| + 2 + |sep|)
    ensures s[1..|typeRaw| + 1] == typeRaw && s[|typeRaw| + 2 + |sep|..] == desc
    ensures forall m :: |typeRaw| + 1 < m < |s| ==> s[m] != '}'
  {
    var R := sep + desc;
    assert s == "{" + typeRaw + "}" + R;
    assert '}' !in R by {
      assert forall i :: 0 <= i < |sep| ==> sep[i] != '}';
    }
    TypeThenRest(s, typeRaw, R);
    RunThenText(s, |typeRaw| + 2, sep, desc, Space);
  }

  /** A rendered `@returns` value reads back as its type and its description, whatever white space separates them. */
  lemma ReturnRoundTrip(typeRaw: string, sep: string, desc: string)
    requires ReturnRenderable(typeRaw, sep, desc)
    ensures MatchReturn(RenderReturn(typeRaw, sep, desc)) == Some(ReturnMatch(typeRaw, desc))
  {
    var s := RenderReturn(typeRaw, sep, desc);
    var k := |typeRaw| + 1;
    ReturnLayout(s, typeRaw, sep, desc);
    ReturnLast(s, k);
  }

  /** A type that can close at `k`, with no `}` after it, is the one the greedy matcher settles on. */
  lemma ReturnLast(s: string, k: nat)
    requires ReturnCloses(s, k)
    requires forall m :: k < m < |s| ==> s[m] != '}'
    ensures LocateReturn(s) == Some(ReturnSplit(k, RunThenRest(s, k + 1, Space).value))
  {
    NoLaterReturn(s, k);
    assert ReturnFlags(s)[k];
    LastTrueAt(ReturnFlags(s), |s| - 1, k);
  }

  /** Without a `}` after `k`, no later position can close the type. */
  lemma NoLaterReturn(s: string, k: nat)
    requires forall m :: k < m < |s| ==> s[m] != '}'
    ensures forall m :: k < m <= |s| - 1 ==> !ReturnFlags(s)[m]
  {
  }

  // The records.

  /** `{ description, type }`, with `items` when the type is an array. */
  datatype ReturnDoc = ReturnDoc(description: string, typed: Typed)

  /** One `@returns` value: its record, or the error indexing into a failed match raises. */
  function ParseReturn(value: string): (r: Result<ReturnDoc>)
    ensures r.Failure? <==> MatchReturn(value).None?
    ensures r.Failure? ==> r.error == Malformed("returns", value)
    ensures r.Success? ==> r.value.description == MatchReturn(value).value.description
    ensures r.Success? ==> r.value.typed == TypeOf(MatchReturn(value).value.typeRaw)
  {
    match MatchReturn(value)
    case None => Failure(Malformed("returns", value))
    case Some(m) => Success(ReturnDoc(m.description, TypeOf(m.typeRaw)))
  }

  /** `parseReturns(returns)`: every value is mapped, then `[0] || null`. */
  function ParseReturns(values: seq<string>): (r: Result<Option<ReturnDoc>>)
    ensures |values| == 0 ==> r == Success(None)
    ensures r.Success? ==> (r.value.Some? <==> |values| > 0)
  {
    var rs := seq(|values|, i requires 0 <= i < |values| => ParseReturn(values[i]));
    match Collect(rs)
    case Failure(e) => Failure(e)
    case Success(docs) => if |docs| == 0 then Success(None) else Success(Some(docs[0]))
  }

  /** When every value matches, the result is the first value's record. */
  lemma ReturnsFirst(values: seq<string>)
    requires |values| > 0 && forall i :: 0 <= i < |values| ==> ParseReturn(values[i]).Success?
    ensures ParseReturns(values) == Success(Some(ParseReturn(values[0]).value))
  {
    var rs := seq(|values|, i requires 0 <= i < |values| => ParseReturn(values[i]));
    CollectSuccess(rs);
  }

  /** A malformed value anywhere in the list, even after the first, makes the whole call throw. */
  lemma ReturnsLaterMalformed(values: seq<string>, n: nat)
    requires n < |values| && ParseReturn(values[n]).Failure?
    requires forall i :: 0 <= i < n ==> ParseReturn(values[i]).Success?
    ensures ParseReturns(values) == Failure(Malformed("returns", values[n]))
  {
    var rs := seq(|values|, i requires 0 <= i < |values| => ParseReturn(values[i]));
    CollectFirstError(rs, n);
  }

  /** `{T[]} text` is an array of `getType(T)`, anything else is `getType` of the token; nothing is lower-cased or validated. */
  lemma ReturnTyping(typeRaw: string, sep: string, desc: string)
    requires ReturnRenderable(typeRaw, sep, desc)
    ensures ParseReturn(RenderReturn(typeRaw, sep, desc)) == Success(ReturnDoc(desc, TypeOf(typeRaw)))
    ensures EndsWithBrackets(typeRaw) ==>
              ParseReturn(RenderReturn(typeRaw, sep, desc)).value.typed == Typed("array", Some(GetType.GetType(StripBrackets(typeRaw))))
    ensures !EndsWithBrackets(typeRaw) ==>
              ParseReturn(RenderReturn(typeRaw, sep, desc)).value.typed == Typed(GetType.GetType(typeRaw), None)
  {
    ReturnRoundTrip(typeRaw, sep, desc);
  }
}
