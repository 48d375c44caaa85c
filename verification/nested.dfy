/**
 * The second stage of `params` in index.js: a param whose title reads `root.sub` or
 * `root[].sub` is attached to the first param titled `root` (as `properties[sub]`, or as
 * `items.properties[sub]` for `root[]`), and removed from the list. The records are shared
 * objects, so a root keeps receiving properties after it has been passed over.
 */
module Nested {
  import opened Base
  import opened Scan
  import opened GetType
  import opened IndexParams

  // `title.match(IS_NESTED_OBJECT_OR_ARRAY)` for `(\w+)(\[\])*\.(\w+)+`, unanchored.

  /** The three groups: the root word, whether `(\[\])*` took part, and the first word after the dot. */
  datatype NestedPath = NestedPath(root: string, isArray: bool, sub: string)

  /**
   * The expression matches from `i`. Backtracking never helps: a shorter `\w+` or fewer `[]`
   * leave a word character or `[` where `[` or `.` is needed, and `(\w+)+` needs one word character.
   */
  predicate NestedAt(t: string, i: nat) {
    i < |t| && RunEnd(t, i, Word) > i
    && var b := BracketsEnd(t, RunEnd(t, i, Word));
       b + 1 < |t| && t[b] == '.' && IsWord(t[b + 1])
  }

  /** For every position, whether a match starts there. */
  function NestedFlags(t: string): (r: seq<bool>)
    ensures |r| == |t| && forall i :: 0 <= i < |t| ==> r[i] == NestedAt(t, i)
  {
    seq(|t|, i requires 0 <= i < |t| => NestedAt(t, i))
  }

  /** The leftmost match and its groups; the greedy `(\w+)+` keeps the whole first word after the dot. */
  function Nested(t: string): Option<NestedPath> {
    match FirstTrue(NestedFlags(t), 0)
    case None => None
    case Some(i) =>
      var w := RunEnd(t, i, Word);
      var b := BracketsEnd(t, w);
      Some(NestedPath(t[i..w], b > w, t[b + 1..RunEnd(t, b + 1, Word)]))
  }

  /** A title is nested exactly when the expression matches somewhere; the root and the property are non-empty words. */
  lemma NestedShape(t: string)
    ensures Nested(t).None? <==> forall i :: 0 <= i < |t| ==> !NestedAt(t, i)
    ensures Nested(t).Some? ==> |Nested(t).value.root| > 0 && AllIn(Nested(t).value.root, 0, |Nested(t).value.root|, Word)
    ensures Nested(t).Some? ==> |Nested(t).value.sub| > 0 && AllIn(Nested(t).value.sub, 0, |Nested(t).value.sub|, Word)
  {
    match FirstTrue(NestedFlags(t), 0)
    case None =>
    case Some(i) =>
      GroupsAreWords(t, i);
  }

  /** Where the expression matches, both groups it captures are non-empty runs of word characters. */
  lemma GroupsAreWords(t: string, i: nat)
    requires NestedAt(t, i)
    ensures var w := RunEnd(t, i, Word);
            var e := RunEnd(t, BracketsEnd(t, w) + 1, Word);
            |t[i..w]| > 0 && AllIn(t[i..w], 0, |t[i..w]|, Word) &&
            |t[BracketsEnd(t, w) + 1..e]| > 0 && AllIn(t[BracketsEnd(t, w) + 1..e], 0, |t[BracketsEnd(t, w) + 1..e]|, Word)
  {
    var w := RunEnd(t, i, Word);
    var b := BracketsEnd(t, w);
    RunEndAll(t, i, Word);
    RunEndAll(t, b + 1, Word);
    assert In(t[b + 1], Word);
  }

  /**
   * On a path title the match, if any, starts at the first character: a title is nested
   * exactly when it is not a single word, and its root is that leading word. A deeper title
   * such as `a.b.c` is read as root `a` and property `b`.
   */
  lemma NestedPathTitle(t: string)
    requires IsPath(t)
    ensures Nested(t).None? <==> AllIn(t, 0, |t|, Word)
    ensures Nested(t).Some? ==> Nested(t).value.root == t[..RunEnd(t, 0, Word)]
    ensures Nested(t).Some? ==> Nested(t).value.isArray == (BracketsEnd(t, RunEnd(t, 0, Word)) > RunEnd(t, 0, Word))
    ensures Nested(t).Some? ==>
              var b := BracketsEnd(t, RunEnd(t, 0, Word));
              b + 1 < |t| && t[b] == '.' && Nested(t).value.sub == t[b + 1..RunEnd(t, b + 1, Word)]
  {
    RunEndAll(t, 0, Word);
    if AllIn(t, 0, |t|, Word) {
      forall i | 0 <= i < |t|
        ensures !NestedAt(t, i)
      {
        RunEndUnique(t, i, Word, |t|);
      }
    } else {
      MatchAtStart(t);
      GroupsFromStart(t);
    }
  }

  /** When the match starts at the first character, the groups are read from there. */
  lemma GroupsFromStart(t: string)
    requires NestedAt(t, 0) && FirstTrue(NestedFlags(t), 0) == Some(0)
    ensures var w := RunEnd(t, 0, Word);
            var b := BracketsEnd(t, w);
            Nested(t) == Some(NestedPath(t[..w], b > w, t[b + 1..RunEnd(t, b + 1, Word)]))
  {
  }

  /** A path title that is not a single word matches from its first character. */
  lemma MatchAtStart(t: string)
    requires IsPath(t) && !AllIn(t, 0, |t|, Word)
    ensures NestedAt(t, 0) && FirstTrue(NestedFlags(t), 0) == Some(0)
  {
    RunEndAll(t, 0, Word);
    assert RunEnd(t, 0, Word) < |t|;
    assert NestedAt(t, 0);
    assert NestedFlags(t)[0];
  }

  /** `foods[].cuisine` goes to the items of `foods`. */
  lemma ArrayChildExample()
    ensures Nested("foods[].cuisine") == Some(NestedPath("foods", true, "cuisine"))
  {
    var t := "foods[].cuisine";
    RunEndUnique(t, 0, Word, 5);
    assert BracketsEnd(t, 7) == 7;
    assert BracketsEnd(t, 5) == 7;
    assert NestedAt(t, 0);
    assert NestedFlags(t)[0];
    assert FirstTrue(NestedFlags(t), 0) == Some(0);
    RunEndUnique(t, 8, Word, 15);
    assert t[0..5] == "foods" && t[8..15] == "cuisine";
  }

  /** `a.b.c` attaches a property `b` to `a`; the last segment is lost. */
  lemma DeepPathExample()
    ensures Nested("a.b.c") == Some(NestedPath("a", false, "b"))
  {
    var t := "a.b.c";
    RunEndUnique(t, 0, Word, 1);
    assert BracketsEnd(t, 1) == 1;
    assert NestedAt(t, 0);
    assert NestedFlags(t)[0];
    assert FirstTrue(NestedFlags(t), 0) == Some(0);
    RunEndUnique(t, 2, Word, 3);
    assert t[0..1] == "a" && t[2..3] == "b";
  }

  // The records the pass works on.

  /** `{ type, description }`, what a child contributes to its root. */
  datatype Prop = Prop(typeName: string, description: string)

  /** A root's `items`: `{ type[, properties] }`. */
  datatype ItemsDoc = ItemsDoc(typeName: string, properties: Option<map<string, Prop>>)

  /** A param record as the pass leaves it: the first stage's keys plus `properties`. */
  datatype Folded = Folded(title: string, description: string, typeName: string,
                           items: Option<ItemsDoc>, properties: Option<map<string, Prop>>)

  /** The record the first stage built. */
  function Start(p: IndexParam): Folded {
    Folded(p.title, p.description, p.typed.typeName,
           if p.typed.items.Some? then Some(ItemsDoc(p.typed.items.value, None)) else None, None)
  }

  function Starts(ps: seq<IndexParam>): seq<Folded> {
    seq(|ps|, i requires 0 <= i < |ps| => Start(ps[i]))
  }

  /** A record with every `properties` it received taken away. */
  function Core(f: Folded): Folded {
    f.(properties := None, items := if f.items.Some? then Some(f.items.value.(properties := None)) else None)
  }

  function Titles(ps: seq<IndexParam>): seq<string> {
    seq(|ps|, i requires 0 <= i < |ps| => ps[i].title)
  }

  /** `parsedParams.find(p => p.title === root)`: the first record with that title. */
  function FindTitle(titles: seq<string>, root: string): (r: Option<nat>)
    ensures r.Some? ==> r.value < |titles| && titles[r.value] == root
    ensures r.Some? ==> forall i :: 0 <= i < r.value ==> titles[i] != root
    ensures r.None? ==> forall i :: 0 <= i < |titles| ==> titles[i] != root
    decreases |titles|
  {
    if |titles| == 0 then None
    else if titles[0] == root then Some(0)
    else
      match FindTitle(titles[1..], root)
      case None => None
      case Some(r) => Some(r + 1)
  }

  /** What a child puts under its sub-property. */
  function PropOf(p: IndexParam): Prop {
    Prop(p.typed.typeName, p.description)
  }

  /** `props = props || {}; props[sub] = prop`. */
  function Attach(props: Option<map<string, Prop>>, sub: string, prop: Prop): map<string, Prop> {
    (if props.Some? then props.value else map[])[sub := prop]
  }

  /** A root's properties, or its items' properties, with `prop` attached under `sub`. */
  function AttachTo(f: Folded, arr: bool, sub: string, prop: Prop): Folded
    requires arr ==> f.items.Some?
  {
    if arr then f.(items := Some(f.items.value.(properties := Some(Attach(f.items.value.properties, sub, prop)))))
    else f.(properties := Some(Attach(f.properties, sub, prop)))
  }

  /** `sub` is added or replaced, every other key is kept. */
  lemma AttachKeeps(props: Option<map<string, Prop>>, sub: string, prop: Prop)
    ensures Attach(props, sub, prop).Keys == (if props.Some? then props.value.Keys else {}) + {sub}
    ensures Attach(props, sub, prop)[sub] == prop
    ensures forall key :: key in Attach(props, sub, prop) && key != sub ==> props.Some? && Attach(props, sub, prop)[key] == props.value[key]
  {
  }

  /** Attaching keeps the root's own keys; a plain child changes only `properties`, a `[]` child only `items.properties`. */
  lemma AttachToKeeps(f: Folded, arr: bool, sub: string, prop: Prop)
    requires arr ==> f.items.Some?
    ensures var r := AttachTo(f, arr, sub, prop);
            r.title == f.title && r.description == f.description && r.typeName == f.typeName
    ensures !arr ==> AttachTo(f, arr, sub, prop) == f.(properties := Some(Attach(f.properties, sub, prop)))
    ensures arr ==> var r := AttachTo(f, arr, sub, prop);
                    r.properties == f.properties && r.items.Some? && r.items.value.typeName == f.items.value.typeName
                    && r.items.value.properties == Some(Attach(f.items.value.properties, sub, prop))
  {
  }

  /** The callback for the `i`-th record, on the records as the earlier callbacks left them. */
  function StepSpec(st: seq<Folded>, ps: seq<IndexParam>, i: nat): Result<seq<Folded>>
    requires |st| == |ps| && i < |ps|
  {
    match Nested(ps[i].title)
    case None => Success(st)
    case Some(np) =>
      match FindTitle(Titles(ps), np.root)
      case None => Failure(RootNotFound(np.root))
      case Some(r) =>
        if np.isArray && st[r].items.None? then Failure(RootWithoutItems(np.root))
        else Success(st[r := AttachTo(st[r], np.isArray, np.sub, PropOf(ps[i]))])
  }

  /** The records after the callbacks for the first `n` params. */
  function FoldSpec(ps: seq<IndexParam>, n: nat): (r: Result<seq<Folded>>)
    requires n <= |ps|
    ensures r.Success? ==> |r.value| == |ps|
  {
    if n == 0 then Success(Starts(ps))
    else
      match FoldSpec(ps, n - 1)
      case Failure(e) => Failure(e)
      case Success(st) => StepSpec(st, ps, n - 1)
  }

  /** Only `properties` ever change: every title, description, type and items type stays what the first stage built. */
  lemma {:induction false} FoldCore(ps: seq<IndexParam>, n: nat, i: nat)
    requires n <= |ps| && i < |ps| && FoldSpec(ps, n).Success?
    ensures Core(FoldSpec(ps, n).value[i]) == Start(ps[i])
  {
    if n > 0 {
      FoldStep(ps, n);
      FoldCore(ps, n - 1, i);
    }
  }

  /** The entries among the first `n` of `xs` whose flag in `keep` is set, in order. */
  function Pick<T>(keep: seq<bool>, xs: seq<T>, n: nat): (r: seq<T>)
    requires |xs| == |keep| && n <= |keep|
    ensures |r| <= n
  {
    if n == 0 then []
    else Pick(keep, xs, n - 1) + (if keep[n - 1] then [xs[n - 1]] else [])
  }

  /** Picking from two lists by the same flags keeps as many entries. */
  lemma {:induction false} PickLength<T, U>(keep: seq<bool>, xs: seq<T>, ys: seq<U>, n: nat)
    requires |xs| == |keep| && |ys| == |keep| && n <= |keep|
    ensures |Pick(keep, xs, n)| == |Pick(keep, ys, n)|
  {
    if n > 0 {
      PickLength(keep, xs, ys, n - 1);
    }
  }

  /** A flagged entry is picked, after the flagged entries before it. */
  lemma {:induction false} PickAt<T>(keep: seq<bool>, xs: seq<T>, n: nat, i: nat)
    requires |xs| == |keep| && i < n <= |keep| && keep[i]
    ensures |Pick(keep, xs, i)| < |Pick(keep, xs, n)| && Pick(keep, xs, n)[|Pick(keep, xs, i)|] == xs[i]
  {
    if i < n - 1 {
      PickAt(keep, xs, n - 1, i);
    }
  }

  /** Every picked entry is a flagged one. */
  lemma {:induction false} PickFrom<T>(keep: seq<bool>, xs: seq<T>, n: nat, j: nat)
    requires |xs| == |keep| && n <= |keep| && j < |Pick(keep, xs, n)|
    ensures exists i :: 0 <= i < n && keep[i] && |Pick(keep, xs, i)| == j && Pick(keep, xs, n)[j] == xs[i]
  {
    if j < |Pick(keep, xs, n - 1)| {
      PickFrom(keep, xs, n - 1, j);
    } else {
      assert keep[n - 1] && |Pick(keep, xs, n - 1)| == j;
    }
  }

  /** Which params are not nested. */
  function TopMask(ps: seq<IndexParam>): (r: seq<bool>)
    ensures |r| == |ps|
  {
    seq(|ps|, i requires 0 <= i < |ps| => Nested(ps[i].title).None?)
  }

  lemma TopMaskAt(ps: seq<IndexParam>, k: nat)
    requires k < |ps|
    ensures TopMask(ps)[k] == Nested(ps[k].title).None?
  {
  }

  /** `.filter(Boolean)`: the records of the params that are not nested, in order. */
  function KeepTop(ps: seq<IndexParam>, st: seq<Folded>, n: nat): (r: seq<Folded>)
    requires |st| == |ps| && n <= |ps|
    ensures |r| <= n
  {
    Pick(TopMask(ps), st, n)
  }

  /** The filter looks at one param at a time. */
  lemma KeepTopStep(ps: seq<IndexParam>, st: seq<Folded>, n: nat)
    requires |st| == |ps| && 0 < n <= |ps|
    ensures KeepTop(ps, st, n) == KeepTop(ps, st, n - 1) + (if Nested(ps[n - 1].title).None? then [st[n - 1]] else [])
  {
    TopMaskAt(ps, n - 1);
  }

  /** The whole second stage. */
  function NestSpec(ps: seq<IndexParam>): Result<seq<Folded>> {
    match FoldSpec(ps, |ps|)
    case Failure(e) => Failure(e)
    case Success(st) => Success(KeepTop(ps, st, |ps|))
  }

  /** The callback of a param that is not nested leaves every record alone. */
  lemma StepTop(st: seq<Folded>, ps: seq<IndexParam>, i: nat)
    requires |st| == |ps| && i < |ps| && Nested(ps[i].title).None?
    ensures StepSpec(st, ps, i) == Success(st)
  {
  }

  /** The callback of a nested param either throws or attaches it to its root. */
  lemma StepNested(st: seq<Folded>, ps: seq<IndexParam>, i: nat, np: NestedPath)
    requires |st| == |ps| && i < |ps| && Nested(ps[i].title) == Some(np)
    ensures FindTitle(Titles(ps), np.root).None? ==> StepSpec(st, ps, i) == Failure(RootNotFound(np.root))
    ensures FindTitle(Titles(ps), np.root).Some? && np.isArray && st[FindTitle(Titles(ps), np.root).value].items.None? ==>
              StepSpec(st, ps, i) == Failure(RootWithoutItems(np.root))
    ensures FindTitle(Titles(ps), np.root).Some? && (np.isArray ==> st[FindTitle(Titles(ps), np.root).value].items.Some?) ==>
              var r := FindTitle(Titles(ps), np.root).value;
              StepSpec(st, ps, i) == Success(st[r := AttachTo(st[r], np.isArray, np.sub, PropOf(ps[i]))])
  {
  }

  /** A successful prefix of the pass followed by one more callback. */
  lemma FoldNext(ps: seq<IndexParam>, i: nat)
    requires i < |ps| && FoldSpec(ps, i).Success?
    ensures FoldSpec(ps, i + 1) == StepSpec(FoldSpec(ps, i).value, ps, i)
  {
  }

  /**
   * The pass as index.js runs it: the records live in one array, each nested param updates
   * its root in place, and the records of the params that are not nested are then kept.
   */
  method FoldNested(ps: seq<IndexParam>) returns (r: Result<seq<Folded>>)
    ensures r == NestSpec(ps)
  {
    var a := new Folded[|ps|](i requires 0 <= i < |ps| => Start(ps[i]));
    assert a[..] == Starts(ps);
    var err := RunCallbacks(a, ps);
    if err.Some? {
      return Failure(err.value);
    }
    var out := Filter(ps, a[..]);
    return Success(out);
  }

  /** `.map(callback)` over the records: each callback in order, until one throws. */
  method RunCallbacks(a: array<Folded>, ps: seq<IndexParam>) returns (err: Option<Error>)
    requires a.Length == |ps| && a[..] == Starts(ps)
    modifies a
    ensures err.Some? ==> FoldSpec(ps, |ps|) == Failure(err.value)
    ensures err.None? ==> FoldSpec(ps, |ps|) == Success(a[..])
  {
    var i := 0;
    while i < |ps|
      invariant 0 <= i <= |ps|
      invariant FoldSpec(ps, i) == Success(a[..])
    {
      FoldNext(ps, i);
      err := Callback(a, ps, i);
      if err.Some? {
        FoldSticks(ps, i + 1, |ps|);
        return;
      }
      i := i + 1;
    }
    return None;
  }

  /** The callback for the `i`-th param: finds its root and attaches it there, in place, or reports what it throws. */
  method Callback(a: array<Folded>, ps: seq<IndexParam>, i: nat) returns (err: Option<Error>)
    requires a.Length == |ps| && i < |ps|
    modifies a
    ensures err.Some? ==> StepSpec(old(a[..]), ps, i) == Failure(err.value)
    ensures err.None? ==> StepSpec(old(a[..]), ps, i) == Success(a[..])
  {
    ghost var before := a[..];
    var nested := Nested(ps[i].title);
    if nested.None? {
      StepTop(before, ps, i);
      return None;
    }
    var np := nested.value;
    StepNested(before, ps, i, np);
    var found := FindTitle(Titles(ps), np.root);
    if found.None? {
      return Some(RootNotFound(np.root));
    }
    var root := found.value;
    if np.isArray && a[root].items.None? {
      return Some(RootWithoutItems(np.root));
    }
    a[root] := AttachTo(a[root], np.isArray, np.sub, PropOf(ps[i]));
    assert a[..] == before[root := AttachTo(before[root], np.isArray, np.sub, PropOf(ps[i]))];
    return None;
  }

  /** `.filter(Boolean)` over the callbacks' results: the records of the params that are not nested. */
  method Filter(ps: seq<IndexParam>, st: seq<Folded>) returns (out: seq<Folded>)
    requires |st| == |ps|
    ensures out == KeepTop(ps, st, |ps|)
  {
    out := [];
    var k := 0;
    while k < |ps|
      invariant 0 <= k <= |ps|
      invariant out == KeepTop(ps, st, k)
    {
      KeepTopStep(ps, st, k + 1);
      if Nested(ps[k].title).None? {
        out := out + [st[k]];
      }
      k := k + 1;
    }
  }

  /** Once a callback throws, the later ones are never reached and the pass throws that error. */
  lemma {:induction false} FoldSticks(ps: seq<IndexParam>, i: nat, n: nat)
    requires i <= n <= |ps| && FoldSpec(ps, i).Failure?
    ensures FoldSpec(ps, n) == FoldSpec(ps, i)
    decreases n - i
  {
    if i < n {
      FoldSticks(ps, i, n - 1);
    }
  }

  // When the pass throws.

  /** The `i`-th param is nested and its callback throws: no root, or an `items` to attach to is missing. */
  predicate Bad(ps: seq<IndexParam>, i: nat)
    requires i < |ps|
  {
    match Nested(ps[i].title)
    case None => false
    case Some(np) =>
      match FindTitle(Titles(ps), np.root)
      case None => true
      case Some(r) => np.isArray && ps[r].typed.items.None?
  }

  /** The error a bad param's callback throws. */
  function BadError(ps: seq<IndexParam>, i: nat): Error
    requires i < |ps| && Bad(ps, i)
  {
    var np := Nested(ps[i].title).value;
    if FindTitle(Titles(ps), np.root).None? then RootNotFound(np.root) else RootWithoutItems(np.root)
  }

  /** The first bad param among the first `n`. */
  function FirstBad(ps: seq<IndexParam>, n: nat): (r: Option<nat>)
    requires n <= |ps|
    ensures r.Some? ==> r.value < n && Bad(ps, r.value) && forall i :: 0 <= i < r.value ==> !Bad(ps, i)
    ensures r.None? ==> forall i :: 0 <= i < n ==> !Bad(ps, i)
  {
    if n == 0 then None
    else
      var prev := FirstBad(ps, n - 1);
      var last := Bad(ps, n - 1);
      if prev.Some? then prev
      else if last then Some(n - 1)
      else
        assert forall i :: 0 <= i < n ==> !Bad(ps, i) by { assert !Bad(ps, n - 1); }
        None
  }

  /**
   * The pass throws exactly when some nested param has no root, or names `root[]` for a root
   * that is not an array; the first such param decides the error. Whether a callback throws
   * never depends on what earlier callbacks attached.
   */
  lemma {:induction false} FoldOutcome(ps: seq<IndexParam>, n: nat)
    requires n <= |ps|
    ensures FoldSpec(ps, n).Failure? <==> FirstBad(ps, n).Some?
    ensures FoldSpec(ps, n).Failure? ==> FoldSpec(ps, n).error == BadError(ps, FirstBad(ps, n).value)
  {
    if n > 0 {
      FoldOutcome(ps, n - 1);
      if FoldSpec(ps, n - 1).Success? {
        StepOutcome(ps, n);
      }
    }
  }

  /** After callbacks that did not throw, the next one throws exactly when its param is bad, with that param's error. */
  lemma StepOutcome(ps: seq<IndexParam>, n: nat)
    requires 0 < n <= |ps| && FoldSpec(ps, n - 1).Success?
    ensures StepSpec(FoldSpec(ps, n - 1).value, ps, n - 1).Failure? <==> Bad(ps, n - 1)
    ensures StepSpec(FoldSpec(ps, n - 1).value, ps, n - 1).Failure? ==>
              StepSpec(FoldSpec(ps, n - 1).value, ps, n - 1).error == BadError(ps, n - 1)
  {
    var i := n - 1;
    if Nested(ps[i].title).Some? {
      var np := Nested(ps[i].title).value;
      if FindTitle(Titles(ps), np.root).Some? {
        FoldCore(ps, n - 1, FindTitle(Titles(ps), np.root).value);
      }
    }
  }

  /** The whole stage throws exactly as the first bad param decides. */
  lemma NestOutcome(ps: seq<IndexParam>)
    ensures NestSpec(ps).Failure? <==> FirstBad(ps, |ps|).Some?
    ensures NestSpec(ps).Failure? ==> NestSpec(ps).error == BadError(ps, FirstBad(ps, |ps|).value)
  {
    FoldOutcome(ps, |ps|);
  }

  // What a root receives.

  /** Where a nested param goes: the index of its root, whether through `items`, and the property it names. */
  datatype Link = Link(root: nat, isArray: bool, sub: string)

  function LinkOf(ps: seq<IndexParam>, i: nat): Option<Link>
    requires i < |ps|
  {
    match Nested(ps[i].title)
    case None => None
    case Some(np) =>
      match FindTitle(Titles(ps), np.root)
      case None => None
      case Some(r) => Some(Link(r, np.isArray, np.sub))
  }

  /** Where each param goes, in order. */
  function Links(ps: seq<IndexParam>): seq<Option<Link>> {
    seq(|ps|, i requires 0 <= i < |ps| => LinkOf(ps, i))
  }

  /** The `i`-th param is a child of the record at `r`, through `properties` or (`arr`) through `items`. */
  predicate ChildOf(links: seq<Option<Link>>, i: nat, r: nat, arr: bool) {
    i < |links| && links[i].Some? && links[i].value.root == r && links[i].value.isArray == arr
  }

  /** Some of the first `n` params is such a child. */
  predicate HasChild(links: seq<Option<Link>>, n: nat, r: nat, arr: bool) {
    n > 0 && (ChildOf(links, n - 1, r, arr) || HasChild(links, n - 1, r, arr))
  }

  lemma {:induction false} HasChildIff(links: seq<Option<Link>>, n: nat, r: nat, arr: bool)
    ensures HasChild(links, n, r, arr) <==> exists i :: 0 <= i < n && ChildOf(links, i, r, arr)
  {
    if n > 0 {
      HasChildIff(links, n - 1, r, arr);
      if ChildOf(links, n - 1, r, arr) {
        assert 0 <= n - 1 < n;
      }
    }
  }

  /** The property a nested param names. */
  function SubOf(links: seq<Option<Link>>, i: nat): string
    requires i < |links| && links[i].Some?
  {
    links[i].value.sub
  }

  /** The last of the first `n` params that is such a child and names `sub`. */
  function LastChild(links: seq<Option<Link>>, n: nat, r: nat, arr: bool, sub: string): (c: Option<nat>)
    ensures c.Some? ==> c.value < n && ChildOf(links, c.value, r, arr) && SubOf(links, c.value) == sub
  {
    if n == 0 then None
    else if ChildOf(links, n - 1, r, arr) && SubOf(links, n - 1) == sub then Some(n - 1)
    else LastChild(links, n - 1, r, arr, sub)
  }

  /** Every child naming `sub` comes at or before the last one: a later child would have replaced it. */
  lemma {:induction false} LastChildIsLast(links: seq<Option<Link>>, n: nat, r: nat, arr: bool, sub: string, i: nat)
    requires i < n && ChildOf(links, i, r, arr) && SubOf(links, i) == sub
    ensures LastChild(links, n, r, arr, sub).Some? && LastChild(links, n, r, arr, sub).value >= i
  {
    if i < n - 1 && !(ChildOf(links, n - 1, r, arr) && SubOf(links, n - 1) == sub) {
      LastChildIsLast(links, n - 1, r, arr, sub, i);
    }
  }

  /** The `properties` a child reaches: the record's own, or (`arr`) those of its `items`. */
  function Props(f: Folded, arr: bool): Option<map<string, Prop>> {
    if !arr then f.properties
    else if f.items.Some? then f.items.value.properties
    else None
  }

  /** What one callback does to the record at `r`: attaches to it when the param is its child, and leaves it alone otherwise. */
  lemma StepAt(st: seq<Folded>, ps: seq<IndexParam>, i: nat, r: nat, arr: bool)
    requires |st| == |ps| && i < |ps| && r < |ps| && StepSpec(st, ps, i).Success?
    ensures |StepSpec(st, ps, i).value| == |ps|
    ensures ChildOf(Links(ps), i, r, arr) ==>
              Props(StepSpec(st, ps, i).value[r], arr) == Some(Attach(Props(st[r], arr), SubOf(Links(ps), i), PropOf(ps[i])))
    ensures !ChildOf(Links(ps), i, r, arr) ==> Props(StepSpec(st, ps, i).value[r], arr) == Props(st[r], arr)
    ensures ChildOf(Links(ps), i, r, true) ==> st[r].items.Some?
  {
  }

  /** A successful prefix of the pass is the previous prefix followed by one callback. */
  lemma FoldStep(ps: seq<IndexParam>, n: nat)
    requires 0 < n <= |ps| && FoldSpec(ps, n).Success?
    ensures FoldSpec(ps, n - 1).Success? && FoldSpec(ps, n) == StepSpec(FoldSpec(ps, n - 1).value, ps, n - 1)
  {
  }

  /** The properties of the record at `r` after the first `n` callbacks, as `PropertiesAt` states them. */
  predicate PropsInv(ps: seq<IndexParam>, st: seq<Folded>, n: nat, r: nat, arr: bool, sub: string)
    requires |st| == |ps| && r < |ps|
  {
    var props := Props(st[r], arr);
    (props.Some? <==> HasChild(Links(ps), n, r, arr))
    && (props.Some? ==> (sub in props.value <==> LastChild(Links(ps), n, r, arr, sub).Some?))
    && (LastChild(Links(ps), n, r, arr, sub).Some? ==> props.Some? && props.value[sub] == PropOf(ps[LastChild(Links(ps), n, r, arr, sub).value]))
  }

  lemma PropsInvStep(ps: seq<IndexParam>, st: seq<Folded>, i: nat, r: nat, arr: bool, sub: string)
    requires |st| == |ps| && i < |ps| && r < |ps| && StepSpec(st, ps, i).Success?
    requires PropsInv(ps, st, i, r, arr, sub)
    ensures PropsInv(ps, StepSpec(st, ps, i).value, i + 1, r, arr, sub)
  {
    StepAt(st, ps, i, r, arr);
  }

  /**
   * After the first `n` callbacks, the record at `r` has properties (its own for `root.sub`
   * children, those of its `items` for `root[].sub` children) exactly when one of them is such a
   * child of it; `sub` is a key exactly when such a child names it, and holds the type and
   * description of the last one that does.
   */
  lemma {:induction false} PropertiesAt(ps: seq<IndexParam>, n: nat, r: nat, arr: bool, sub: string)
    requires n <= |ps| && r < |ps| && FoldSpec(ps, n).Success?
    ensures Props(FoldSpec(ps, n).value[r], arr).Some? <==> HasChild(Links(ps), n, r, arr)
    ensures Props(FoldSpec(ps, n).value[r], arr).Some? ==>
              (sub in Props(FoldSpec(ps, n).value[r], arr).value <==> LastChild(Links(ps), n, r, arr, sub).Some?)
    ensures LastChild(Links(ps), n, r, arr, sub).Some? ==>
              Props(FoldSpec(ps, n).value[r], arr).Some?
              && Props(FoldSpec(ps, n).value[r], arr).value[sub] == PropOf(ps[LastChild(Links(ps), n, r, arr, sub).value])
  {
    PropsOfFold(ps, n, r, arr, sub);
  }

  lemma {:induction false} PropsOfFold(ps: seq<IndexParam>, n: nat, r: nat, arr: bool, sub: string)
    requires n <= |ps| && r < |ps| && FoldSpec(ps, n).Success?
    ensures PropsInv(ps, FoldSpec(ps, n).value, n, r, arr, sub)
  {
    if n == 0 {
      assert FoldSpec(ps, n).value[r] == Start(ps[r]);
    } else {
      PropsOfFold(ps, n - 1, r, arr, sub);
      FoldStep(ps, n);
      PropsInvStep(ps, FoldSpec(ps, n - 1).value, n - 1, r, arr, sub);
    }
  }

  /** A root with a `root[].sub` child is an array param: otherwise the pass would have thrown. */
  lemma {:induction false} ArrayRootHasItems(ps: seq<IndexParam>, n: nat, r: nat)
    requires n <= |ps| && r < |ps| && FoldSpec(ps, n).Success? && HasChild(Links(ps), n, r, true)
    ensures ps[r].typed.items.Some?
  {
    if ChildOf(Links(ps), n - 1, r, true) {
      ChildRootItems(ps, n, r);
    } else {
      FoldPrefixOk(ps, n);
      ArrayRootHasItems(ps, n - 1, r);
    }
  }

  /** The root of the `n`-th param, when that param is a `root[].sub` child, is an array param. */
  lemma ChildRootItems(ps: seq<IndexParam>, n: nat, r: nat)
    requires 0 < n <= |ps| && r < |ps| && FoldSpec(ps, n).Success? && ChildOf(Links(ps), n - 1, r, true)
    ensures ps[r].typed.items.Some?
  {
    FoldPrefixOk(ps, n);
    var st := FoldSpec(ps, n - 1).value;
    StepNeedsItems(st, ps, n - 1, r);
    FoldCore(ps, n - 1, r);
    assert Core(st[r]).items.Some?;
  }

  /** A pass that does not throw did not throw on the shorter prefix, nor at its last callback. */
  lemma FoldPrefixOk(ps: seq<IndexParam>, n: nat)
    requires 0 < n <= |ps| && FoldSpec(ps, n).Success?
    ensures FoldSpec(ps, n - 1).Success? && StepSpec(FoldSpec(ps, n - 1).value, ps, n - 1).Success?
  {
  }

  /** A `root[].sub` callback that does not throw found `items` on its root. */
  lemma StepNeedsItems(st: seq<Folded>, ps: seq<IndexParam>, i: nat, r: nat)
    requires |st| == |ps| && i < |ps| && r < |ps| && StepSpec(st, ps, i).Success?
    requires ChildOf(Links(ps), i, r, true)
    ensures st[r].items.Some?
  {
  }

  // What the stage returns.

  /** The titles of the params that are not nested, in order. */
  function TopTitles(ps: seq<IndexParam>, n: nat): seq<string>
    requires n <= |ps|
  {
    Pick(TopMask(ps), Titles(ps), n)
  }

  lemma {:induction false} KeepTopTitles(ps: seq<IndexParam>, st: seq<Folded>, n: nat)
    requires |st| == |ps| && n <= |ps| && forall i :: 0 <= i < |ps| ==> st[i].title == ps[i].title
    ensures |KeepTop(ps, st, n)| == |TopTitles(ps, n)|
    ensures forall i :: 0 <= i < |KeepTop(ps, st, n)| ==> KeepTop(ps, st, n)[i].title == TopTitles(ps, n)[i]
  {
    KeepTopSame(ps, st, n);
  }

  /** Records `rs` carry the titles `ts`, one for one. */
  predicate SameTitles(rs: seq<Folded>, ts: seq<string>) {
    |rs| == |ts| && forall i :: 0 <= i < |rs| ==> rs[i].title == ts[i]
  }

  lemma {:induction false} KeepTopSame(ps: seq<IndexParam>, st: seq<Folded>, n: nat)
    requires |st| == |ps| && n <= |ps| && forall i :: 0 <= i < |ps| ==> st[i].title == ps[i].title
    ensures SameTitles(KeepTop(ps, st, n), TopTitles(ps, n))
  {
    if n > 0 {
      KeepTopSame(ps, st, n - 1);
      var top := TopMask(ps)[n - 1];
      SameTitlesAppend(KeepTop(ps, st, n - 1), TopTitles(ps, n - 1),
                       if top then [st[n - 1]] else [], if top then [Titles(ps)[n - 1]] else []);
    }
  }

  lemma SameTitlesAppend(a: seq<Folded>, b: seq<string>, x: seq<Folded>, y: seq<string>)
    requires SameTitles(a, b) && SameTitles(x, y)
    ensures SameTitles(a + x, b + y)
  {
    forall i | 0 <= i < |a + x|
      ensures (a + x)[i].title == (b + y)[i]
    {
      if i >= |a| {
        assert (a + x)[i] == x[i - |a|] && (b + y)[i] == y[i - |a|];
      }
    }
  }

  /** The stage returns one record per param that is not nested, with its title, in order. */
  lemma NestTitles(ps: seq<IndexParam>)
    requires NestSpec(ps).Success?
    ensures |NestSpec(ps).value| == |TopTitles(ps, |ps|)|
    ensures forall i :: 0 <= i < |NestSpec(ps).value| ==> NestSpec(ps).value[i].title == TopTitles(ps, |ps|)[i]
  {
    var st := FoldSpec(ps, |ps|).value;
    forall i | 0 <= i < |ps|
      ensures st[i].title == ps[i].title
    {
      FoldCore(ps, |ps|, i);
    }
    KeepTopTitles(ps, st, |ps|);
  }

  /** The filter keeps one record per param that is not nested. */
  lemma KeepTopLength(ps: seq<IndexParam>, st: seq<Folded>, n: nat)
    requires |st| == |ps| && n <= |ps|
    ensures |KeepTop(ps, st, n)| == |TopTitles(ps, n)|
  {
    PickLength(TopMask(ps), st, Titles(ps), n);
  }

  /** A param that is not nested keeps its own record, after the records kept before it. */
  lemma KeepTopAt(ps: seq<IndexParam>, st: seq<Folded>, n: nat, i: nat)
    requires |st| == |ps| && i < n <= |ps| && Nested(ps[i].title).None?
    ensures |KeepTop(ps, st, i)| < |KeepTop(ps, st, n)| && KeepTop(ps, st, n)[|KeepTop(ps, st, i)|] == st[i]
  {
    TopMaskAt(ps, i);
    PickAt(TopMask(ps), st, n, i);
  }

  /** Every record the filter keeps is that of a param that is not nested, after the records kept before it. */
  lemma KeepTopFrom(ps: seq<IndexParam>, st: seq<Folded>, n: nat, j: nat)
    requires |st| == |ps| && n <= |ps| && j < |KeepTop(ps, st, n)|
    ensures exists i :: 0 <= i < n && Nested(ps[i].title).None? && |KeepTop(ps, st, i)| == j && KeepTop(ps, st, n)[j] == st[i]
  {
    PickFrom(TopMask(ps), st, n, j);
    var i :| 0 <= i < n && TopMask(ps)[i] && |Pick(TopMask(ps), st, i)| == j && Pick(TopMask(ps), st, n)[j] == st[i];
    TopMaskAt(ps, i);
  }

  /**
   * The stage returns the folded record of every param that is not nested, at the place given by
   * the top-level params before it; `PropertiesAt` says what `properties` that record holds.
   */
  lemma NestReturnsAt(ps: seq<IndexParam>, i: nat)
    requires NestSpec(ps).Success? && i < |ps| && Nested(ps[i].title).None?
    ensures FoldSpec(ps, |ps|).Success? && |NestSpec(ps).value| == |TopTitles(ps, |ps|)|
    ensures |TopTitles(ps, i)| < |NestSpec(ps).value| && NestSpec(ps).value[|TopTitles(ps, i)|] == FoldSpec(ps, |ps|).value[i]
  {
    var st := FoldSpec(ps, |ps|).value;
    assert NestSpec(ps).value == KeepTop(ps, st, |ps|);
    KeepTopLength(ps, st, |ps|);
    KeepTopLength(ps, st, i);
    KeepTopAt(ps, st, |ps|, i);
  }

  /** Every record the stage returns is the folded record of a param that is not nested. */
  lemma NestReturnsFrom(ps: seq<IndexParam>, j: nat)
    requires NestSpec(ps).Success? && j < |NestSpec(ps).value|
    ensures FoldSpec(ps, |ps|).Success?
    ensures exists i :: 0 <= i < |ps| && Nested(ps[i].title).None? && |TopTitles(ps, i)| == j
                        && NestSpec(ps).value[j] == FoldSpec(ps, |ps|).value[i]
  {
    var st := FoldSpec(ps, |ps|).value;
    assert NestSpec(ps).value == KeepTop(ps, st, |ps|);
    KeepTopFrom(ps, st, |ps|, j);
    var i :| 0 <= i < |ps| && Nested(ps[i].title).None? && |KeepTop(ps, st, i)| == j && KeepTop(ps, st, |ps|)[j] == st[i];
    KeepTopLength(ps, st, i);
  }

  /** Without nested titles the stage changes nothing. */
  lemma {:induction false} NoNesting(ps: seq<IndexParam>, n: nat)
    requires n <= |ps| && forall i :: 0 <= i < |ps| ==> Nested(ps[i].title).None?
    ensures FoldSpec(ps, n) == Success(Starts(ps))
    ensures KeepTop(ps, Starts(ps), n) == Starts(ps)[..n]
  {
    if n > 0 {
      NoNesting(ps, n - 1);
      StepTop(Starts(ps), ps, n - 1);
      KeepTopStep(ps, Starts(ps), n);
      assert Starts(ps)[..n] == Starts(ps)[..n - 1] + [Starts(ps)[n - 1]];
    }
  }
}
