/**
 * index.js, `extract(comment)`: the comment blocks' tags are gathered by name, the lines are
 * joined into a description, every `@param` value is parsed and the nested ones folded into
 * their roots, and every `@throws` value is shaped with the greedy form of the throws expression.
 * The comment tokenizer itself is not modelled: its blocks are the input.
 */
module Extract {
  import opened Base
  import opened Scan
  import opened Strings
  import opened Throws
  import opened IndexParams
  import opened Nested

  /** One tag of a comment block: `@name value`. */
  datatype Tag = Tag(name: string, value: string)

  /** One comment block as the tokenizer yields it: its description lines and its tags. */
  datatype Block = Block(lines: seq<string>, tags: seq<Tag>)

  function TagLists(blocks: seq<Block>): seq<seq<Tag>> {
    seq(|blocks|, i requires 0 <= i < |blocks| => blocks[i].tags)
  }

  function LineLists(blocks: seq<Block>): seq<seq<string>> {
    seq(|blocks|, i requires 0 <= i < |blocks| => blocks[i].lines)
  }

  /** `.filter(tag => tag.name === t).map(p => p.value)`. */
  function Named(tags: seq<Tag>, t: string): (r: seq<string>)
    ensures |r| <= |tags|
    decreases |tags|
  {
    if |tags| == 0 then []
    else (if tags[0].name == t then [tags[0].value] else []) + Named(tags[1..], t)
  }

  /** `getTags(parsed, t)`: the values of every tag named `t`, block after block. */
  function GetTags(blocks: seq<Block>, t: string): seq<string> {
    Named(Flatten(TagLists(blocks)), t)
  }

  /** Filtering distributes over concatenation, so the order of the tags is kept. */
  lemma {:induction false} NamedAppend(a: seq<Tag>, b: seq<Tag>, t: string)
    ensures Named(a + b, t) == Named(a, t) + Named(b, t)
    decreases |a|
  {
    if |a| > 0 {
      assert (a + b)[1..] == a[1..] + b;
      NamedAppend(a[1..], b, t);
    } else {
      assert a + b == b;
    }
  }

  /** A value is gathered exactly when some tag carries it under exactly the name `t`. */
  lemma {:induction false} NamedMember(tags: seq<Tag>, t: string, v: string)
    ensures v in Named(tags, t) <==> exists i :: 0 <= i < |tags| && tags[i] == Tag(t, v)
    decreases |tags|
  {
    if |tags| > 0 {
      NamedMember(tags[1..], t, v);
      if v in Named(tags[1..], t) {
        var i :| 0 <= i < |tags[1..]| && tags[1..][i] == Tag(t, v);
        assert tags[i + 1] == Tag(t, v);
      }
      if exists i :: 0 <= i < |tags| && tags[i] == Tag(t, v) {
        var i :| 0 <= i < |tags| && tags[i] == Tag(t, v);
        if i > 0 {
          assert tags[1..][i - 1] == Tag(t, v);
        }
      }
    }
  }

  /** A value is gathered exactly when some block carries it in a tag named `t`. */
  lemma GetTagsMember(blocks: seq<Block>, t: string, v: string)
    ensures v in GetTags(blocks, t) <==>
              exists b, j :: 0 <= b < |blocks| && 0 <= j < |blocks[b].tags| && blocks[b].tags[j] == Tag(t, v)
  {
    var tags := Flatten(TagLists(blocks));
    NamedMember(tags, t, v);
    if v in GetTags(blocks, t) {
      var i :| 0 <= i < |tags| && tags[i] == Tag(t, v);
      FlattenMember(TagLists(blocks), i);
      var b, j :| 0 <= b < |TagLists(blocks)| && 0 <= j < |TagLists(blocks)[b]| && tags[i] == TagLists(blocks)[b][j];
      assert blocks[b].tags[j] == Tag(t, v);
    }
    if exists b, j :: 0 <= b < |blocks| && 0 <= j < |blocks[b].tags| && blocks[b].tags[j] == Tag(t, v) {
      var b, j :| 0 <= b < |blocks| && 0 <= j < |blocks[b].tags| && blocks[b].tags[j] == Tag(t, v);
      FlattenHas(TagLists(blocks), b, j);
      var i :| 0 <= i < |tags| && tags[i] == Tag(t, v);
    }
  }

  /** The tags of two runs of blocks are gathered one run after the other. */
  lemma GetTagsAppend(xs: seq<Block>, ys: seq<Block>, t: string)
    ensures GetTags(xs + ys, t) == GetTags(xs, t) + GetTags(ys, t)
  {
    assert TagLists(xs + ys) == TagLists(xs) + TagLists(ys);
    FlattenAppend(TagLists(xs), TagLists(ys));
    NamedAppend(Flatten(TagLists(xs)), Flatten(TagLists(ys)), t);
  }

  /** A block's tags, gathered one at a time. */
  lemma {:induction false} GetTagsOne(tags: seq<Tag>, t: string)
    ensures GetTags([Block([], tags)], t) == Named(tags, t)
  {
    assert Flatten(TagLists([Block([], tags)])) == tags + Flatten(TagLists([Block([], tags)])[1..]);
    assert TagLists([Block([], tags)])[1..] == [];
    assert tags + [] == tags;
  }

  /** The description: every block's lines, one after another, joined with `,`. */
  function DescriptionOf(blocks: seq<Block>): string {
    Join(Flatten(LineLists(blocks)), ",")
  }

  /** Two runs of blocks that both have lines are described by their descriptions joined with `,`. */
  lemma DescriptionAppend(xs: seq<Block>, ys: seq<Block>)
    requires |Flatten(LineLists(xs))| > 0 && |Flatten(LineLists(ys))| > 0
    ensures DescriptionOf(xs + ys) == DescriptionOf(xs) + "," + DescriptionOf(ys)
  {
    assert LineLists(xs + ys) == LineLists(xs) + LineLists(ys);
    FlattenAppend(LineLists(xs), LineLists(ys));
    JoinAppend(Flatten(LineLists(xs)), Flatten(LineLists(ys)), ",");
  }

  // `@throws` with the greedy `(.*)` of index.js.

  /** `error.match(THROWS)` in index.js: the type closes at the last `}` it can reach on the first line. */
  function MatchThrowsGreedy(s: string): (r: ThrowsMatch)
    ensures r.typeRaw.None? ==> forall k :: 0 <= k < |s| ==> !ClosesType(s, k)
    ensures r.typeRaw.Some? ==> ClosesType(s, |r.typeRaw.value| + 1)
    ensures r.typeRaw.Some? ==> forall k :: |r.typeRaw.value| + 1 < k < |s| ==> !ClosesType(s, k)
    ensures r.typeRaw.Some? ==> r.typeRaw.value == s[1..|r.typeRaw.value| + 1]
    ensures r.description == RestFrom(s, if r.typeRaw.Some? then |r.typeRaw.value| + 2 else 0)
  {
    MatchAt(s, LastTrue(CloseFlags(s), |s| - 1))
  }

  /**
   * One `@throws` value in index.js: as in lib/throws.js, except that a type closes at the
   * last `}` that can close it, so the type may hold `}`.
   */
  function ParseThrowGreedy(value: string): (r: ThrowsDoc)
    ensures r.TypeOnly? ==> ReadsTypeAlone(value, r.typeName)
    ensures r.TypeOnly? ==> forall k :: |r.typeName| + 1 < k < |value| ==> !ClosesType(value, k)
    ensures r.DescriptionOnly? ==> ReadsTextAlone(value, r.description)
  {
    ShapeReads(value, MatchThrowsGreedy(value));
    Shape(MatchThrowsGreedy(value))
  }

  /** The greedy type runs past the first `}`: `{A} x {B}` is all type, `A} x {B`, and has no description. */
  lemma GreedyExample()
    ensures ParseThrowGreedy("{A} x {B}") == TypeOnly("A} x {B")
  {
    var s := "{A} x {B}";
    assert ClosesType(s, 8);
    assert CloseFlags(s)[8];
    LastTrueAt(CloseFlags(s), 8, 8);
    assert s[1..8] == "A} x {B";
  }

  /** With at most one `}` in the value, index.js and lib/throws.js shape it alike. */
  lemma GreedyAgreesWithLazy(s: string)
    requires forall m, n :: 0 <= m < n < |s| ==> s[m] != '}' || s[n] != '}'
    ensures ParseThrowGreedy(s) == ParseThrow(s)
  {
    SameClose(s);
  }

  /** With at most one `}` in the value, the greedy and the lazy type close at the same place. */
  lemma SameClose(s: string)
    requires forall m, n :: 0 <= m < n < |s| ==> s[m] != '}' || s[n] != '}'
    ensures MatchThrowsGreedy(s) == MatchThrows(s)
  {
    var flags := CloseFlags(s);
    match FirstTrue(flags, 0)
    case None =>
      assert LastTrue(flags, |s| - 1).None?;
    case Some(k) =>
      assert forall m :: k < m <= |s| - 1 ==> !flags[m];
      LastTrueAt(flags, |s| - 1, k);
  }

  // The whole document.

  /** What `extract` returns. */
  datatype Doc = Doc(description: string, params: seq<Folded>, throws: seq<ThrowsDoc>)

  /** Both `params` stages: every value parsed in order (the first malformed one throws), then the folding. */
  function ParamsSpec(values: seq<string>): Result<seq<Folded>> {
    match Collect(seq(|values|, i requires 0 <= i < |values| => ParseIndexParam(values[i])))
    case Failure(e) => Failure(e)
    case Success(ps) => NestSpec(ps)
  }

  /** Both stages return only when every value matches the param expression. */
  lemma ParamsNeedMatches(values: seq<string>)
    ensures ParamsSpec(values).Success? ==> forall i :: 0 <= i < |values| ==> MatchIndexParam(values[i]).Some?
  {
    var rs := seq(|values|, i requires 0 <= i < |values| => ParseIndexParam(values[i]));
    CollectSuccess(rs);
    assert forall i :: 0 <= i < |values| ==> rs[i] == ParseIndexParam(values[i]);
  }

  /** `extract(comment)` on the tokenizer's blocks; only the params can throw. */
  function ExtractSpec(blocks: seq<Block>): Result<Doc> {
    var throws := GetTags(blocks, "throws");
    match ParamsSpec(GetTags(blocks, "param"))
    case Failure(e) => Failure(e)
    case Success(params) =>
      Success(Doc(DescriptionOf(blocks), params, seq(|throws|, i requires 0 <= i < |throws| => ParseThrowGreedy(throws[i]))))
  }

  /** `extract(comment)`: the params are folded in place by `FoldNested`. */
  method Extract(blocks: seq<Block>) returns (r: Result<Doc>)
    ensures r == ExtractSpec(blocks)
  {
    var values := GetTags(blocks, "param");
    var parsed := Collect(seq(|values|, i requires 0 <= i < |values| => ParseIndexParam(values[i])));
    if parsed.Failure? {
      return Failure(parsed.error);
    }
    var folded := FoldNested(parsed.value);
    if folded.Failure? {
      return Failure(folded.error);
    }
    var throws := GetTags(blocks, "throws");
    r := Success(Doc(DescriptionOf(blocks), folded.value, seq(|throws|, i requires 0 <= i < |throws| => ParseThrowGreedy(throws[i]))));
  }

  /** The first `@param` value that does not match makes `extract` throw, whatever the rest holds. */
  lemma ExtractMalformedParam(blocks: seq<Block>, n: nat)
    requires n < |GetTags(blocks, "param")|
    requires MatchIndexParam(GetTags(blocks, "param")[n]).None?
    requires forall i :: 0 <= i < n ==> MatchIndexParam(GetTags(blocks, "param")[i]).Some?
    ensures ExtractSpec(blocks) == Failure(Malformed("param", GetTags(blocks, "param")[n]))
  {
    var values := GetTags(blocks, "param");
    CollectFirstError(seq(|values|, i requires 0 <= i < |values| => ParseIndexParam(values[i])), n);
  }

  /** Every `@throws` value gives one record, in order, whenever `extract` returns. */
  lemma ExtractThrows(blocks: seq<Block>)
    requires ExtractSpec(blocks).Success?
    ensures |ExtractSpec(blocks).value.throws| == |GetTags(blocks, "throws")|
    ensures forall i :: 0 <= i < |GetTags(blocks, "throws")| ==>
              ExtractSpec(blocks).value.throws[i] == ParseThrowGreedy(GetTags(blocks, "throws")[i])
  {
  }

  /** A comment without `@param` tags always returns, with no params. */
  lemma NoParams(blocks: seq<Block>)
    requires forall b, j :: 0 <= b < |blocks| && 0 <= j < |blocks[b].tags| ==> blocks[b].tags[j].name != "param"
    ensures ExtractSpec(blocks).Success? && ExtractSpec(blocks).value.params == []
  {
    var tags := Flatten(TagLists(blocks));
    if |GetTags(blocks, "param")| > 0 {
      var v := GetTags(blocks, "param")[0];
      NamedMember(tags, "param", v);
      var i :| 0 <= i < |tags| && tags[i] == Tag("param", v);
      FlattenMember(TagLists(blocks), i);
      assert false;
    }
    assert Collect(seq(0, i requires 0 <= i < 0 => ParseIndexParam(""))) == Success([]);
  }

  /** Every element of a flattening comes from one of the lists. */
  lemma {:induction false} FlattenMember<T>(xss: seq<seq<T>>, i: nat)
    requires i < |Flatten(xss)|
    ensures exists b, j :: 0 <= b < |xss| && 0 <= j < |xss[b]| && Flatten(xss)[i] == xss[b][j]
    decreases |xss|
  {
    if i < |xss[0]| {
      assert Flatten(xss)[i] == xss[0][i];
    } else {
      FlattenMember(xss[1..], i - |xss[0]|);
      var b, j :| 0 <= b < |xss[1..]| && 0 <= j < |xss[1..][b]| && Flatten(xss[1..])[i - |xss[0]|] == xss[1..][b][j];
      assert Flatten(xss)[i] == xss[b + 1][j];
    }
  }
}
