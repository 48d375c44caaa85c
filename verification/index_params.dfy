/**
 * The first stage of `params` in index.js: each `@param` value is matched against
 *   `^{(.*)}\s+(PATH)\s+([\s\S]+)$`
 * (no default, no hyphen separator) and becomes `{ title, description, type[, items] }`,
 * typed by `getType` alone: `{Object}` is accepted and nothing is validated.
 */
module IndexParams {
  import opened Base
  import opened Scan
  import opened Strings
  import opened GetType

  /**
   * One way of reading a value as the expression: the type closes at `k`, the path is
   * `s[j..p]`, and the description is `s[d..]`.
   */
  datatype IndexSplit = IndexSplit(k: nat, j: nat, p: nat, d: nat)

  /** `sp` is a decomposition the expression admits. */
  predicate IsIndexSplit(s: string, sp: IndexSplit) {
    ClosesType(s, sp.k)
    && sp.k + 1 < sp.j < sp.p < sp.d < |s|
    && AllIn(s, sp.k + 1, sp.j, Space) && IsPath(s[sp.j..sp.p]) && AllIn(s, sp.p, sp.d, Space)
  }

  /** Everything after `{type}` for a type closing at `k`: spaces, the greedy path, spaces and the description. */
  function IndexTail(s: string, k: nat): Option<IndexSplit>
    requires ClosesType(s, k)
  {
    var j := RunEnd(s, k + 1, Space);
    if j == k + 1 then None
    else
      var p := PathEnd(s, j);
      if p == j then None
      else
        match RunThenRest(s, p, Space)
        case None => None
        case Some(d) => Some(IndexSplit(k, j, p, d))
  }

  /** The tail found is a decomposition the expression admits, for the type closing at `k`. */
  lemma IndexTailSound(s: string, k: nat)
    requires ClosesType(s, k)
    ensures IndexTail(s, k).Some? ==> IsIndexSplit(s, IndexTail(s, k).value) && IndexTail(s, k).value.k == k
  {
    var j := RunEnd(s, k + 1, Space);
    if j > k + 1 && PathEnd(s, j) > j && RunThenRest(s, PathEnd(s, j), Space).Some? {
      ScannedSplit(s, k, j, PathEnd(s, j), RunThenRest(s, PathEnd(s, j), Space).value);
    }
  }

  /** What the three scans stop at is a decomposition the expression admits. */
  lemma ScannedSplit(s: string, k: nat, j: nat, p: nat, d: nat)
    requires ClosesType(s, k) && j == RunEnd(s, k + 1, Space) && j > k + 1
    requires p == PathEnd(s, j) && p > j && RunThenRest(s, p, Space) == Some(d)
    ensures IsIndexSplit(s, IndexSplit(k, j, p, d))
  {
    RunEndAll(s, k + 1, Space);
    PathEndRestrict(s, j);
    RunThenRestSpec(s, p, Space);
  }

  /** The type can close at `k`: `}` is there and the rest of the expression matches after it. */
  predicate IndexCloses(s: string, k: nat) {
    ClosesType(s, k) && IndexTail(s, k).Some?
  }

  /** For every position, whether the type can close there. */
  function IndexFlags(s: string): (r: seq<bool>)
    ensures |r| == |s| && forall k :: 0 <= k < |s| ==> r[k] == IndexCloses(s, k)
  {
    seq(|s|, k requires 0 <= k < |s| => IndexCloses(s, k))
  }

  /** `param.match(PARAM)` as a split: the greedy `(.*)` closes the type at the last `}` that leaves a match. */
  function LocateIndex(s: string): Option<IndexSplit> {
    if |s| == 0 || s[0] != '{' then None
    else
      match LastTrue(IndexFlags(s), |s| - 1)
      case None => None
      case Some(k) => IndexTail(s, k)
  }

  /** The split the matcher locates is one the expression admits. */
  lemma LocateIndexSound(s: string)
    ensures LocateIndex(s).Some? ==> IsIndexSplit(s, LocateIndex(s).value)
  {
    if |s| > 0 && s[0] == '{' && LastTrue(IndexFlags(s), |s| - 1).Some? {
      IndexTailSound(s, LastTrue(IndexFlags(s), |s| - 1).value);
    }
  }

  /** The three capture groups. */
  datatype IndexMatch = IndexMatch(typeRaw: string, title: string, description: string)

  /** `param.match(PARAM)`. */
  function MatchIndexParam(s: string): (r: Option<IndexMatch>)
    ensures r.Some? <==> LocateIndex(s).Some?
    ensures r.Some? ==> IsPath(r.value.title) && |r.value.description| > 0
    ensures |s| == 0 || s[0] != '{' ==> r.None?
  {
    LocateIndexSound(s);
    match LocateIndex(s)
    case None => None
    case Some(sp) => Some(IndexMatch(s[1..sp.k], s[sp.j..sp.p], s[sp.d..]))
  }

  // What the matcher's choice satisfies.

  /** For the type closing at a split's `k`, the matcher reads the same path, and at least as much white space after it. */
  lemma IndexTailComplete(s: string, sp: IndexSplit)
    requires IsIndexSplit(s, sp)
    ensures IndexTail(s, sp.k).Some?
    ensures IndexTail(s, sp.k).value.j == sp.j && IndexTail(s, sp.k).value.p == sp.p
    ensures IndexTail(s, sp.k).value.d >= sp.d
  {
    SplitScans(s, sp);
    RunThenRestAtLeast(s, sp.p, sp.d, Space);
    IndexTailAt(s, sp.k, sp.j, sp.p, RunThenRest(s, sp.p, Space).value);
  }

  /** The spaces and the path of a split are scanned exactly. */
  lemma SplitScans(s: string, sp: IndexSplit)
    requires IsIndexSplit(s, sp)
    ensures RunEnd(s, sp.k + 1, Space) == sp.j && PathEnd(s, sp.j) == sp.p
  {
    assert !In(s[sp.j], Space) by {
      PathChars(s[sp.j..sp.p]);
      assert s[sp.j..sp.p][0] == s[sp.j];
    }
    RunEndUnique(s, sp.k + 1, Space, sp.j);
    assert IsSpace(s[sp.p]);
    PathUnique(s, sp.j, sp.p);
  }

  /** Whenever the expression can match, the matcher finds a match, and its type runs to the last `}` any match can use. */
  lemma LocateIndexComplete(s: string, sp: IndexSplit)
    requires IsIndexSplit(s, sp)
    ensures LocateIndex(s).Some? && LocateIndex(s).value.k >= sp.k
  {
    IndexTailComplete(s, sp);
    assert IndexFlags(s)[sp.k];
  }

  // Round trip.

  /** `{type}<spaces>path<spaces>description`. */
  function RenderIndex(typeRaw: string, sep1: string, title: string, sep2: string, desc: string): string {
    "{" + typeRaw + "}" + (sep1 + (title + (sep2 + desc)))
  }

  /** A non-empty run of white space. */
  predicate Spaces(sep: string) {
    |sep| > 0 && forall i :: 0 <= i < |sep| ==> IsSpace(sep[i])
  }

  /** The conditions under which a rendered index.js param reads back unchanged. */
  predicate IndexRenderable(typeRaw: string, sep1: string, title: string, sep2: string, desc: string) {
    (forall i :: 0 <= i < |typeRaw| ==> !IsLineTerminator(typeRaw[i]))
    && Spaces(sep1) && IsPath(title) && Spaces(sep2)
    && |desc| > 0 && !IsSpace(desc[0]) && '}' !in desc
  }

  /** The type of a rendered param closes where it was written, and no `}` comes after it. */
  lemma IndexLayoutType(s: string, k: nat, typeRaw: string, sep1: string, title: string, sep2: string, desc: string)
    requires s == RenderIndex(typeRaw, sep1, title, sep2, desc) && k == |typeRaw| + 1
    requires IndexRenderable(typeRaw, sep1, title, sep2, desc)
    ensures ClosesType(s, k) && s[1..k] == typeRaw
    ensures s[k + 1..] == sep1 + (title + (sep2 + desc))
    ensures forall m :: k < m < |s| ==> s[m] != '}'
  {
    NoCloseAfterType(sep1, title, sep2, desc);
    assert '}' !in sep1 + (title + (sep2 + desc));
    TypeThenRest(s, typeRaw, sep1 + (title + (sep2 + desc)));
  }

  /** A path written at `j` and followed by white space is scanned exactly. */
  lemma PathAt(s: string, j: nat, title: string, rest: string)
    requires j <= |s| && s[j..] == title + rest
    requires IsPath(title) && |rest| > 0 && IsSpace(rest[0])
    ensures PathEnd(s, j) == j + |title|
    ensures s[j..j + |title|] == title && s[j + |title|..] == rest
  {
    var p := j + |title|;
    assert Occurs(s, title, j) by {
      forall m | 0 <= m < |title|
        ensures s[j + m] == title[m]
      {
        assert s[j + m] == s[j..][m];
      }
    }
    assert s[p] == s[j..][|title|] == rest[0];
    PathEndEmbed(s, title, j);
    assert s[j..p] == s[j..][..|title|];
    assert s[p..] == s[j..][|title|..];
  }

  /** After the type: the spaces and the path are each scanned exactly. */
  lemma IndexLayoutPath(s: string, i: nat, j: nat, sep1: string, title: string, rest: string)
    requires i <= |s| && s[i..] == sep1 + (title + rest) && j == i + |sep1|
    requires Spaces(sep1) && IsPath(title) && |rest| > 0 && IsSpace(rest[0])
    ensures RunEnd(s, i, Space) == j && PathEnd(s, j) == j + |title|
    ensures s[j..j + |title|] == title && s[j + |title|..] == rest
  {
    PathChars(title);
    RunOver(s, i, sep1, title + rest, Space);
    PathAt(s, j, title, rest);
  }

  /** The tail a head, a path and a separator scanned at known positions lead to. */
  lemma IndexTailAt(s: string, k: nat, j: nat, p: nat, d: nat)
    requires ClosesType(s, k) && j > k + 1 && RunEnd(s, k + 1, Space) == j
    requires p > j && PathEnd(s, j) == p && RunThenRest(s, p, Space) == Some(d)
    ensures IndexTail(s, k) == Some(IndexSplit(k, j, p, d))
  {
  }

  /** No `}` in the text after a rendered type. */
  lemma NoCloseAfterType(sep1: string, title: string, sep2: string, desc: string)
    requires Spaces(sep1) && IsPath(title) && Spaces(sep2) && '}' !in desc
    ensures '}' !in sep1 + title + sep2 + desc
  {
    PathChars(title);
    var rest := sep1 + title + sep2 + desc;
    forall m | 0 <= m < |rest|
      ensures rest[m] != '}'
    {
      if m < |sep1| {
        assert rest[m] == sep1[m];
      } else if m < |sep1| + |title| {
        assert rest[m] == title[m - |sep1|];
      } else if m < |sep1| + |title| + |sep2| {
        assert rest[m] == sep2[m - |sep1| - |title|];
      } else {
        assert rest[m] == desc[m - |sep1| - |title| - |sep2|];
      }
    }
  }

  /** `MatchIndexParam` reports the captures of the split the matcher locates. */
  lemma MatchOfIndex(s: string, sp: IndexSplit, m: IndexMatch)
    requires LocateIndex(s) == Some(sp)
    requires m == IndexMatch(s[1..sp.k], s[sp.j..sp.p], s[sp.d..])
    ensures MatchIndexParam(s) == Some(m)
  {
  }

  /** A type that can close at `k`, with no `}` after it, is the one the greedy matcher settles on. */
  lemma IndexLast(s: string, k: nat)
    requires IndexCloses(s, k)
    requires forall m :: k < m < |s| ==> s[m] != '}'
    ensures LocateIndex(s) == IndexTail(s, k)
  {
    NoLaterIndex(s, k);
    LocateAt(s, k);
  }

  /** The matcher reads the tail of the last position the type can close at. */
  lemma LocateAt(s: string, k: nat)
    requires ClosesType(s, k) && k <= |s| - 1 < |IndexFlags(s)| && IndexFlags(s)[k]
    requires forall m :: k < m <= |s| - 1 ==> !IndexFlags(s)[m]
    ensures LocateIndex(s) == IndexTail(s, k)
  {
    LastTrueAt(IndexFlags(s), |s| - 1, k);
  }

  /** The type can close at `k`, and without a `}` after `k` no later position can. */
  lemma NoLaterIndex(s: string, k: nat)
    requires IndexCloses(s, k)
    requires forall m :: k < m < |s| ==> s[m] != '}'
    ensures ClosesType(s, k) && k <= |s| - 1 < |IndexFlags(s)| && IndexFlags(s)[k]
    ensures forall m :: k < m <= |s| - 1 ==> !IndexFlags(s)[m]
  {
  }

  /** A rendered param reads back as its type, path and description, whatever white space separates them. */
  lemma IndexRoundTrip(typeRaw: string, sep1: string, title: string, sep2: string, desc: string)
    requires IndexRenderable(typeRaw, sep1, title, sep2, desc)
    ensures MatchIndexParam(RenderIndex(typeRaw, sep1, title, sep2, desc)) == Some(IndexMatch(typeRaw, title, desc))
  {
    var s := RenderIndex(typeRaw, sep1, title, sep2, desc);
    var k := |typeRaw| + 1;
    var j := k + 1 + |sep1|;
    var p := j + |title|;
    var d := p + |sep2|;
    IndexLayoutType(s, k, typeRaw, sep1, title, sep2, desc);
    TailScan(s, k, j, p, d, sep1, title, sep2, desc);
    MatchOfScan(s, k, j, p, d, IndexMatch(typeRaw, title, desc));
  }

  /** What the scans of index.js stop at, for a type closing at `k` with no `}` after it. */
  predicate ScannedAt(s: string, k: nat, j: nat, p: nat, d: nat) {
    ClosesType(s, k) && j > k + 1 && RunEnd(s, k + 1, Space) == j
    && p > j && PathEnd(s, j) == p && RunThenRest(s, p, Space) == Some(d)
    && forall m :: k < m < |s| ==> s[m] != '}'
  }

  /** After a rendered type, the spaces, the path and the spaces are each scanned where they were written. */
  lemma TailScan(s: string, k: nat, j: nat, p: nat, d: nat, sep1: string, title: string, sep2: string, desc: string)
    requires k + 1 <= |s| && s[k + 1..] == sep1 + (title + (sep2 + desc))
    requires Spaces(sep1) && IsPath(title) && Spaces(sep2) && |desc| > 0 && !IsSpace(desc[0])
    requires j == k + 1 + |sep1| && p == j + |title| && d == p + |sep2|
    ensures RunEnd(s, k + 1, Space) == j && PathEnd(s, j) == p && RunThenRest(s, p, Space) == Some(d)
    ensures s[j..p] == title && s[d..] == desc
  {
    IndexLayoutPath(s, k + 1, j, sep1, title, sep2 + desc);
    RunThenText(s, p, sep2, desc, Space);
  }

  /** Where the scans stop fixes the captures, when no `}` comes after the type. */
  lemma MatchOfScan(s: string, k: nat, j: nat, p: nat, d: nat, m: IndexMatch)
    requires ScannedAt(s, k, j, p, d)
    requires m.typeRaw == s[1..k] && m.title == s[j..p] && m.description == s[d..]
    ensures MatchIndexParam(s) == Some(m)
  {
    IndexTailAt(s, k, j, p, d);
    IndexLast(s, k);
    MatchOfIndex(s, IndexSplit(k, j, p, d), m);
  }

  // The records.

  /** `{ title, description, type[, items] }` as the first map builds it. */
  datatype IndexParam = IndexParam(title: string, description: string, typed: Typed)

  /** One `@param` value: its record, or the error indexing into a failed match raises. */
  function ParseIndexParam(value: string): (r: Result<IndexParam>)
    ensures r.Failure? <==> MatchIndexParam(value).None?
    ensures r.Failure? ==> r.error == Malformed("param", value)
    ensures r.Success? ==> IsPath(r.value.title) && |r.value.description| > 0
    ensures r.Success? ==> r.value.title == MatchIndexParam(value).value.title
                           && r.value.description == MatchIndexParam(value).value.description
                           && r.value.typed == TypeOf(MatchIndexParam(value).value.typeRaw)
  {
    match MatchIndexParam(value)
    case None => Failure(Malformed("param", value))
    case Some(m) => Success(IndexParam(m.title, m.description, TypeOf(m.typeRaw)))
  }

  /**
   * `{T[]} path text` is an array of `getType(T)`, any other `{T}` is `getType(T)`: only the exact
   * token `Object` is rewritten, and `{Object}` or an unknown type is accepted as it is.
   */
  lemma IndexTyping(typeRaw: string, sep1: string, title: string, sep2: string, desc: string)
    requires IndexRenderable(typeRaw, sep1, title, sep2, desc)
    ensures ParseIndexParam(RenderIndex(typeRaw, sep1, title, sep2, desc)) == Success(IndexParam(title, desc, TypeOf(typeRaw)))
    ensures EndsWithBrackets(typeRaw) ==>
              TypeOf(typeRaw) == Typed("array", Some(GetType.GetType(StripBrackets(typeRaw))))
    ensures !EndsWithBrackets(typeRaw) ==> TypeOf(typeRaw) == Typed(GetType.GetType(typeRaw), None)
  {
    IndexRoundTrip(typeRaw, sep1, title, sep2, desc);
  }
}
