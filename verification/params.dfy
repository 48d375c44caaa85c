/**
 * lib/params.js: each `@param` value is matched against
 *   `^{(.*)}\s+(PATH)(?:=("[\s\S]+"|[\S]+)?)?[\s-]+([\s\S]+)$`
 * (PATH being `\w+(?:(?:\[\])*\.\w+)*`), turned into `{title, description, exampleData}`,
 * typed by `setType`, and then every record whose type (or items type) is `object` is
 * rejected. Titles are kept verbatim: nothing is folded.
 */
module Params {
  import opened Base
  import opened Scan
  import opened Strings
  import opened SetType

  // The PARAM expression as a decomposition of the value.

  /** What follows the path: nothing, a bare `=`, or `=` and a value ending before `b`. */
  datatype Default = NoDefault | Blank | Valued(b: nat)

  /**
   * One way of reading a value as the expression: the type closes at `k`, the path is
   * `s[j..p]`, the default (if any) follows `=` at `p`, and the description is `s[d..]`.
   */
  datatype Split = Split(k: nat, j: nat, p: nat, dflt: Default, d: nat)

  /** Where the `[\s-]+` separator starts. */
  function SepStart(sp: Split): nat {
    match sp.dflt
    case NoDefault => sp.p
    case Blank => sp.p + 1
    case Valued(b) => b
  }

  /** `"[\s\S]+"`: at least one character between two double quotes. */
  predicate QuotedValue(s: string, a: nat, b: nat)
    requires a <= b <= |s|
  {
    b - a >= 3 && s[a] == '"' && s[b - 1] == '"'
  }

  /** The default part of a split is well formed. */
  predicate DefaultOk(s: string, sp: Split) {
    match sp.dflt
    case NoDefault => true
    case Blank => sp.p < |s| && s[sp.p] == '='
    case Valued(b) =>
      sp.p < |s| && s[sp.p] == '=' && sp.p + 1 < b <= |s|
      && (QuotedValue(s, sp.p + 1, b) || AllIn(s, sp.p + 1, b, NonSpace))
  }

  /** `sp` is a decomposition the expression admits. */
  predicate IsSplit(s: string, sp: Split) {
    ClosesType(s, sp.k)
    && sp.k + 1 < sp.j < sp.p <= |s| && AllIn(s, sp.k + 1, sp.j, Space)
    && IsPath(s[sp.j..sp.p])
    && DefaultOk(s, sp)
    && SepStart(sp) < sp.d < |s| && AllIn(s, SepStart(sp), sp.d, SpaceOrHyphen)
  }

  // The decomposition the backtracking matcher picks.

  /** A quote at `q` can close a `"..."` value opened right after `=` at `p`: the separator and description can follow it. */
  predicate QuoteCloses(s: string, p: nat, q: nat) {
    p + 3 <= q < |s| && s[p + 1] == '"' && s[q] == '"' && RunThenRest(s, q + 1, SpaceOrHyphen).Some?
  }

  /**
   * `=` then `"[\s\S]+"`: the greedy `[\s\S]+` gives up characters from the end, so the
   * closing quote is the last one (at or before `hi`) that works.
   */
  function LastQuote(s: string, p: nat, hi: int): (r: Option<nat>)
    requires hi < |s|
    ensures r.Some? ==> r.value <= hi && QuoteCloses(s, p, r.value)
    ensures r.Some? ==> forall q: nat :: r.value < q <= hi ==> !QuoteCloses(s, p, q)
    ensures r.None? ==> forall q: nat :: q <= hi ==> !QuoteCloses(s, p, q)
    decreases hi - p
  {
    if hi < p + 3 then None
    else if QuoteCloses(s, p, hi) then Some(hi)
    else LastQuote(s, p, hi - 1)
  }

  /** The separator and the description can start at `b`. */
  predicate SepFollows(s: string, b: nat) {
    b <= |s| && RunThenRest(s, b, SpaceOrHyphen).Some?
  }

  /**
   * `=` then `[\S]+`: the greedy run gives up characters until the separator can follow;
   * the value ends at the last `b` in `[lo, hi]` that works.
   */
  function LastBare(s: string, lo: nat, hi: int): (r: Option<nat>)
    requires hi <= |s|
    ensures r.Some? ==> lo <= r.value <= hi && SepFollows(s, r.value)
    ensures r.Some? ==> forall b: nat :: r.value < b <= hi ==> !SepFollows(s, b)
    ensures r.None? ==> forall b: nat :: lo <= b <= hi ==> !SepFollows(s, b)
    decreases hi - lo
  {
    if hi < lo then None
    else if SepFollows(s, hi) then Some(hi)
    else LastBare(s, lo, hi - 1)
  }

  /** `{type}`, the spaces and the path: the part of a split every default shares. */
  predicate HeadOk(s: string, k: nat, j: nat, p: nat) {
    ClosesType(s, k)
    && k + 1 < j < p <= |s| && AllIn(s, k + 1, j, Space)
    && IsPath(s[j..p])
  }

  /** The rest after `=` at `p`: a quoted value, else a bare value, else nothing before the separator. */
  function AfterEquals(s: string, k: nat, j: nat, p: nat): (r: Option<Split>)
    requires p < |s| && s[p] == '='
    ensures r.Some? ==> r.value.k == k && r.value.j == j && r.value.p == p && !r.value.dflt.NoDefault?
  {
    var q := LastQuote(s, p, |s| - 1);
    if q.Some? then
      var b := q.value + 1;
      Some(Split(k, j, p, Valued(b), RunThenRest(s, b, SpaceOrHyphen).value))
    else
      var e := LastBare(s, p + 2, RunEnd(s, p + 1, NonSpace));
      if e.Some? then
        Some(Split(k, j, p, Valued(e.value), RunThenRest(s, e.value, SpaceOrHyphen).value))
      else
        match RunThenRest(s, p + 1, SpaceOrHyphen)
        case None => None
        case Some(d) => Some(Split(k, j, p, Blank, d))
  }

  /** After a head the expression admits, the default the matcher reads completes a decomposition. */
  lemma AfterEqualsSound(s: string, k: nat, j: nat, p: nat)
    requires HeadOk(s, k, j, p) && p < |s| && s[p] == '='
    ensures AfterEquals(s, k, j, p).Some? ==> IsSplit(s, AfterEquals(s, k, j, p).value)
  {
    var q := LastQuote(s, p, |s| - 1);
    if q.Some? {
      QuotedSound(s, k, j, p, q.value + 1);
    } else {
      var e := LastBare(s, p + 2, RunEnd(s, p + 1, NonSpace));
      if e.Some? {
        BareSound(s, k, j, p, e.value);
      } else if RunThenRest(s, p + 1, SpaceOrHyphen).Some? {
        BlankSound(s, k, j, p);
      }
    }
  }

  lemma QuotedSound(s: string, k: nat, j: nat, p: nat, b: nat)
    requires HeadOk(s, k, j, p) && p < |s| && s[p] == '=' && b >= 1 && QuoteCloses(s, p, b - 1)
    ensures RunThenRest(s, b, SpaceOrHyphen).Some?
    ensures IsSplit(s, Split(k, j, p, Valued(b), RunThenRest(s, b, SpaceOrHyphen).value))
  {
    RunThenRestSpec(s, b, SpaceOrHyphen);
  }

  lemma BareSound(s: string, k: nat, j: nat, p: nat, e: nat)
    requires HeadOk(s, k, j, p) && p < |s| && s[p] == '='
    requires p + 2 <= e <= RunEnd(s, p + 1, NonSpace) && SepFollows(s, e)
    ensures IsSplit(s, Split(k, j, p, Valued(e), RunThenRest(s, e, SpaceOrHyphen).value))
  {
    RunEndAll(s, p + 1, NonSpace);
    RunThenRestSpec(s, e, SpaceOrHyphen);
  }

  lemma BlankSound(s: string, k: nat, j: nat, p: nat)
    requires HeadOk(s, k, j, p) && p < |s| && s[p] == '=' && RunThenRest(s, p + 1, SpaceOrHyphen).Some?
    ensures IsSplit(s, Split(k, j, p, Blank, RunThenRest(s, p + 1, SpaceOrHyphen).value))
  {
    RunThenRestSpec(s, p + 1, SpaceOrHyphen);
  }

  /** Everything after `{type}` for a type closing at `k`: the split, or nothing when this `k` fails. */
  function Tail(s: string, k: nat): (r: Option<Split>)
    requires ClosesType(s, k)
    ensures r.Some? ==> r.value.k == k
  {
    var j := RunEnd(s, k + 1, Space);
    if j == k + 1 then None
    else
      var p := PathEnd(s, j);
      if p == j then None
      else if p < |s| && s[p] == '=' then AfterEquals(s, k, j, p)
      else
        match RunThenRest(s, p, SpaceOrHyphen)
        case None => None
        case Some(d) => Some(Split(k, j, p, NoDefault, d))
  }

  /** A tail the matcher finds is a decomposition the expression admits. */
  lemma TailSound(s: string, k: nat)
    requires ClosesType(s, k)
    ensures Tail(s, k).Some? ==> IsSplit(s, Tail(s, k).value)
  {
    var j := RunEnd(s, k + 1, Space);
    RunEndAll(s, k + 1, Space);
    if j > k + 1 && PathEnd(s, j) > j {
      var p := PathEnd(s, j);
      PathEndRestrict(s, j);
      assert HeadOk(s, k, j, p);
      if p < |s| && s[p] == '=' {
        AfterEqualsSound(s, k, j, p);
      } else {
        RunThenRestSpec(s, p, SpaceOrHyphen);
      }
    }
  }

  /** The type can close at `k`: `}` is there and the rest of the expression matches after it. */
  predicate TypeCloses(s: string, k: nat) {
    ClosesType(s, k) && Tail(s, k).Some?
  }

  /** For every position, whether the type can close there. */
  function TypeFlags(s: string): (r: seq<bool>)
    ensures |r| == |s| && forall k :: 0 <= k < |s| ==> r[k] == TypeCloses(s, k)
  {
    seq(|s|, k requires 0 <= k < |s| => TypeCloses(s, k))
  }

  /**
   * `value.match(PARAM)` as a split: `(.*)` is greedy, so the type closes at the last `}`
   * after which the rest of the expression matches; a value that does not open with `{` has none.
   */
  function Locate(s: string): Option<Split> {
    if |s| == 0 || s[0] != '{' then None
    else
      match LastTrue(TypeFlags(s), |s| - 1)
      case None => None
      case Some(k) => Tail(s, k)
  }

  /** The split the matcher locates is one the expression admits. */
  lemma LocateSound(s: string)
    ensures Locate(s).Some? ==> IsSplit(s, Locate(s).value)
  {
    if |s| > 0 && s[0] == '{' && LastTrue(TypeFlags(s), |s| - 1).Some? {
      TailSound(s, LastTrue(TypeFlags(s), |s| - 1).value);
    }
  }

  /** The positions of `sp` lie in order inside `s`, so its capture groups can be cut out. */
  predicate Spans(s: string, sp: Split) {
    1 <= sp.k <= sp.j <= sp.p <= |s| && sp.d <= |s|
    && (sp.dflt.Valued? ==> sp.p + 1 <= sp.dflt.b <= |s|)
  }

  /** The four capture groups. `capture` is group 3, quotes included. */
  datatype Match = Match(typeRaw: string, title: string, capture: Option<string>, description: string)

  function Captures(s: string, sp: Split): (r: Match)
    requires Spans(s, sp)
    ensures IsSplit(s, sp) ==> IsPath(r.title) && |r.description| > 0
  {
    Match(s[1..sp.k], s[sp.j..sp.p],
          if sp.dflt.Valued? then Some(s[sp.p + 1..sp.dflt.b]) else None,
          s[sp.d..])
  }

  /** `value.match(PARAM)`. */
  function MatchParam(s: string): (r: Option<Match>)
    ensures r.Some? ==> IsPath(r.value.title) && |r.value.description| > 0
  {
    LocateSound(s);
    match Locate(s)
    case None => None
    case Some(sp) => Some(Captures(s, sp))
  }

  // What the matcher's choice satisfies.

  /** The spaces of any split end where the path starts. */
  lemma SpacesUnique(s: string, sp: Split)
    requires IsSplit(s, sp)
    ensures RunEnd(s, sp.k + 1, Space) == sp.j
  {
    assert !In(s[sp.j], Space) by {
      PathChars(s[sp.j..sp.p]);
      assert s[sp.j..sp.p][0] == s[sp.j];
    }
    RunEndUnique(s, sp.k + 1, Space, sp.j);
  }

  /** The path of any split is followed by `=` or a separator character, so it cannot go on. */
  lemma SplitEndsPath(s: string, sp: Split)
    requires IsSplit(s, sp)
    ensures EndsPath(s, sp.p)
  {
    assert SepStart(sp) < |s|;
    if sp.dflt.NoDefault? {
      assert In(s[sp.p], SpaceOrHyphen);
    }
  }

  /** The spaces and the path of any split are the ones the greedy scans find. */
  lemma HeadUnique(s: string, sp: Split)
    requires IsSplit(s, sp)
    ensures RunEnd(s, sp.k + 1, Space) == sp.j && PathEnd(s, sp.j) == sp.p
  {
    SpacesUnique(s, sp);
    SplitEndsPath(s, sp);
    PathUnique(s, sp.j, sp.p);
  }

  /** After `=`, a split with a value means the matcher captures a value too. */
  lemma AfterEqualsComplete(s: string, sp: Split)
    requires IsSplit(s, sp) && sp.p < |s| && s[sp.p] == '='
    ensures AfterEquals(s, sp.k, sp.j, sp.p).Some?
    ensures sp.dflt.Valued? ==> AfterEquals(s, sp.k, sp.j, sp.p).value.dflt.Valued?
  {
    var p := sp.p;
    assert !sp.dflt.NoDefault?;
    if sp.dflt.Valued? {
      var b := sp.dflt.b;
      assert RunThenRest(s, b, SpaceOrHyphen).Some?;
      if QuotedValue(s, p + 1, b) {
        assert QuoteCloses(s, p, b - 1);
      } else {
        RunEndCovers(s, p + 1, b, NonSpace);
        assert SepFollows(s, b);
      }
    } else {
      assert RunThenRest(s, p + 1, SpaceOrHyphen).Some?;
    }
  }

  /** Without `=` after the path, the separator follows it directly. */
  lemma NoDefaultComplete(s: string, sp: Split)
    requires IsSplit(s, sp) && !(sp.p < |s| && s[sp.p] == '=')
    ensures sp.dflt.NoDefault? && RunThenRest(s, sp.p, SpaceOrHyphen).Some?
  {
  }

  /** A type closing at the split's `k` leaves the tail that split describes. */
  lemma TailComplete(s: string, sp: Split)
    requires IsSplit(s, sp)
    ensures Tail(s, sp.k).Some?
    ensures Tail(s, sp.k).value.j == sp.j && Tail(s, sp.k).value.p == sp.p
    ensures sp.dflt.Valued? ==> Tail(s, sp.k).value.dflt.Valued?
  {
    HeadUnique(s, sp);
    assert HeadAt(s, sp.k, sp.j, sp.p);
    if sp.p < |s| && s[sp.p] == '=' {
      TailEquals(s, sp.k, sp.j, sp.p);
      AfterEqualsComplete(s, sp);
    } else {
      NoDefaultComplete(s, sp);
      TailNoEquals(s, sp.k, sp.j, sp.p);
    }
  }

  /**
   * Whenever the expression can match, the matcher finds a match, and its type runs to
   * the last `}` any match can use.
   */
  lemma LocateComplete(s: string, sp: Split)
    requires IsSplit(s, sp)
    ensures Locate(s).Some? && Locate(s).value.k >= sp.k
  {
    TailComplete(s, sp);
    assert TypeFlags(s)[sp.k];
  }

  /** Within the chosen type, the path is the only one possible, and a default is captured whenever one can be. */
  lemma LocatePriority(s: string, sp: Split)
    requires IsSplit(s, sp) && Locate(s).Some? && Locate(s).value.k == sp.k
    ensures Locate(s).value.j == sp.j && Locate(s).value.p == sp.p
    ensures sp.dflt.Valued? ==> Locate(s).value.dflt.Valued?
  {
    TailComplete(s, sp);
  }

  /** A value that does not open with `{` never matches. */
  lemma NoBraceNoMatch(s: string)
    requires |s| == 0 || s[0] != '{'
    ensures MatchParam(s).None?
  {
  }

  // The records.

  /** `exampleData`: a captured default loses its first and last character when it starts with `"`. */
  function ExampleOf(capture: Option<string>): (r: Option<string>)
    ensures capture.None? || capture.value == "" ==> r.None?
    ensures capture.Some? && capture.value != "" && capture.value[0] != '"' ==> r == capture
    ensures capture.Some? && |capture.value| >= 2 && capture.value[0] == '"' ==>
              r.Some? && "\"" + r.value + [capture.value[|capture.value| - 1]] == capture.value
  {
    if capture.Some? && capture.value != "" then
      if capture.value[0] == '"' then Some(SliceInner(capture.value)) else capture
    else None
  }

  /** One `@param` value: the typed record, or what the first map throws for it. */
  function ParseParam(value: string): (r: Result<Param>)
    ensures MatchParam(value).None? ==> r == Failure(Malformed("param", value))
    ensures r.Success? ==> MatchParam(value).Some? && r.value.title == MatchParam(value).value.title
    ensures r.Success? ==> r.value.description == MatchParam(value).value.description
  {
    match MatchParam(value)
    case None => Failure(Malformed("param", value))
    case Some(m) => SetTypeSpec(m.typeRaw, m.title, m.description, ExampleOf(m.capture))
  }

  /**
   * A matching value fails exactly when its checked type name is outside the vocabulary;
   * otherwise the record's type and items are the normalised captured type, and its example
   * is the captured default, cast by that type.
   */
  lemma ParseParamTyping(value: string)
    requires MatchParam(value).Some?
    ensures var m := MatchParam(value).value;
            ParseParam(value).Failure? <==> Checked(Normalize(m.typeRaw)) !in Vocabulary
    ensures var m := MatchParam(value).value;
            ParseParam(value).Failure? ==> ParseParam(value).error == InvalidType(Checked(Normalize(m.typeRaw)))
    ensures var m := MatchParam(value).value;
            var r := ParseParam(value);
            r.Success? ==> r.value.typeName == Normalize(m.typeRaw).typeName && r.value.items == Normalize(m.typeRaw).items
                           && r.value.exampleData == CastIfTruthy(r.value.typeName, Uncast(ExampleOf(m.capture)))
  {
  }

  /** The first map's results, value by value. */
  function Parsed(values: seq<string>): (r: seq<Result<Param>>)
    ensures |r| == |values| && forall i :: 0 <= i < |values| ==> r[i] == ParseParam(values[i])
  {
    seq(|values|, i requires 0 <= i < |values| => ParseParam(values[i]))
  }

  /** The second map's test: an `object` param, or an array of `object`. */
  predicate IsObject(p: Param) {
    p.typeName == "object" || (p.items.Some? && p.items.value == "object")
  }

  /** The second map: the records unchanged, unless one of them is an object param. */
  function RejectObjects(ps: seq<Param>): (r: Result<seq<Param>>)
    ensures r.Success? <==> forall i :: 0 <= i < |ps| ==> !IsObject(ps[i])
    ensures r.Success? ==> r.value == ps
    ensures r.Failure? ==> r.error == NestedObjectsUnsupported
  {
    if exists i :: 0 <= i < |ps| && IsObject(ps[i]) then Failure(NestedObjectsUnsupported) else Success(ps)
  }

  /** `parseParams(params)`: the first map (which stops at the first throw), then the object check. */
  function ParseParamsSpec(values: seq<string>): (r: Result<seq<Param>>)
  {
    match Collect(Parsed(values))
    case Failure(e) => Failure(e)
    case Success(ps) => RejectObjects(ps)
  }

  /** Builds one record as the source does: a fresh object, `exampleData` assigned, then `setType` in place. */
  method BuildParam(value: string) returns (r: Result<Param>)
    ensures r == ParseParam(value)
  {
    var m := MatchParam(value);
    if m.None? {
      return Failure(Malformed("param", value));
    }
    r := Typed(m.value.typeRaw, m.value.title, m.value.description, ExampleOf(m.value.capture));
  }

  /** The first map of `parseParams`, record by record. */
  method TypeParams(values: seq<string>) returns (r: Result<seq<Param>>)
    ensures r == Collect(Parsed(values))
  {
    var rs := Parsed(values);
    var built: seq<Param> := [];
    for i := 0 to |values|
      invariant Collect(rs[..i]) == Success(built)
    {
      var one := BuildParam(values[i]);
      assert one == rs[i];
      TypeStep(rs, i, built);
      if one.Failure? {
        return Failure(one.error);
      }
      built := built + [one.value];
    }
    assert rs[..|values|] == rs;
    r := Success(built);
  }

  /** One more value either extends the records or decides the whole map's error. */
  lemma TypeStep(rs: seq<Result<Param>>, i: nat, built: seq<Param>)
    requires i < |rs| && Collect(rs[..i]) == Success(built)
    ensures rs[i].Success? ==> Collect(rs[..i + 1]) == Success(built + [rs[i].value])
    ensures rs[i].Failure? ==> Collect(rs) == Failure(rs[i].error)
  {
    CollectStep(rs, i, built);
    if rs[i].Failure? {
      CollectFailureSticks(rs, i + 1);
    }
  }

  /** The second map of `parseParams`: it throws at the first object param. */
  method CheckObjects(ps: seq<Param>) returns (r: Result<seq<Param>>)
    ensures r == RejectObjects(ps)
  {
    for i := 0 to |ps|
      invariant forall m :: 0 <= m < i ==> !IsObject(ps[m])
    {
      if IsObject(ps[i]) {
        return Failure(NestedObjectsUnsupported);
      }
    }
    r := Success(ps);
  }

  /** `parseParams`: the first map, then the second. */
  method ParseParams(values: seq<string>) returns (r: Result<seq<Param>>)
    ensures r == ParseParamsSpec(values)
  {
    r := TypeParams(values);
    if r.Success? {
      r := CheckObjects(r.value);
    }
  }

  // Properties of the pipeline.

  /**
   * `parseParams` returns exactly the typed records, one per value and in order, when no
   * value throws in the first map and no record is an object.
   */
  lemma ParseParamsSuccess(values: seq<string>)
    ensures ParseParamsSpec(values).Success? <==>
              forall i :: 0 <= i < |values| ==> ParseParam(values[i]).Success? && !IsObject(ParseParam(values[i]).value)
    ensures ParseParamsSpec(values).Success? ==>
              |ParseParamsSpec(values).value| == |values|
              && forall i :: 0 <= i < |values| ==> ParseParamsSpec(values).value[i] == ParseParam(values[i]).value
  {
    CollectSuccess(Parsed(values));
  }

  /** The first value that fails to match or to type decides the error, whatever object params exist anywhere. */
  lemma ParseParamsFirstError(values: seq<string>, n: nat)
    requires n < |values| && ParseParam(values[n]).Failure?
    requires forall i :: 0 <= i < n ==> ParseParam(values[i]).Success?
    ensures ParseParamsSpec(values) == Failure(ParseParam(values[n]).error)
  {
    CollectFirstError(Parsed(values), n);
  }

  /** When every value types, one object param anywhere makes `parseParams` throw. */
  lemma ParseParamsRejectsObject(values: seq<string>, n: nat)
    requires forall i :: 0 <= i < |values| ==> ParseParam(values[i]).Success?
    requires n < |values| && IsObject(ParseParam(values[n]).value)
    ensures ParseParamsSpec(values) == Failure(NestedObjectsUnsupported)
  {
    CollectSuccess(Parsed(values));
  }

  // Round trip: a param written out in the documented form is matched back into its parts.

  /** What may follow the path: nothing, `=`, `="text"` or `=text`. */
  datatype DefaultText = Absent | EmptyDefault | Quoted(text: string) | Bare(text: string)

  function DefaultSource(dt: DefaultText): string {
    match dt
    case Absent => ""
    case EmptyDefault => "="
    case Quoted(t) => "=\"" + t + "\""
    case Bare(t) => "=" + t
  }

  /** The length of the rendered default. */
  function DefaultLength(dt: DefaultText): (r: nat)
    ensures r == |DefaultSource(dt)|
  {
    match dt
    case Absent => 0
    case EmptyDefault => 1
    case Quoted(t) => |t| + 3
    case Bare(t) => |t| + 1
  }

  /** The capture group 3 a default produces. */
  function CaptureOf(dt: DefaultText): Option<string> {
    match dt
    case Quoted(t) => Some("\"" + t + "\"")
    case Bare(t) => Some(t)
    case _ => None
  }

  /** `{type} path[=default]<sep>description`. */
  function Render(typeRaw: string, title: string, dt: DefaultText, sep: string, desc: string): string {
    "{" + typeRaw + "} " + title + DefaultSource(dt) + sep + desc
  }

  /** A default that reads back as itself: no `}`, a quoted one followed by no quote, a bare one without white space. */
  predicate DefaultRenderable(dt: DefaultText, desc: string) {
    match dt
    case Quoted(t) => |t| > 0 && '}' !in t && '"' !in desc
    case Bare(t) => |t| > 0 && t[0] != '"' && '}' !in t && forall i :: 0 <= i < |t| ==> !IsSpace(t[i])
    case _ => true
  }

  /** A separator that starts with white space and holds only `[\s-]` characters. */
  predicate SepRenderable(sep: string) {
    |sep| > 0 && IsSpace(sep[0]) && forall i :: 0 <= i < |sep| ==> In(sep[i], SpaceOrHyphen)
  }

  /** A description the separator cannot swallow the start of. */
  predicate DescRenderable(desc: string) {
    |desc| > 0 && !In(desc[0], SpaceOrHyphen)
  }

  /** The conditions under which a rendered param reads back unchanged. */
  predicate Renderable(typeRaw: string, title: string, dt: DefaultText, sep: string, desc: string) {
    (forall i :: 0 <= i < |typeRaw| ==> !IsLineTerminator(typeRaw[i]))
    && IsPath(title)
    && DefaultRenderable(dt, desc)
    && SepRenderable(sep)
    && DescRenderable(desc) && '}' !in desc
  }

  /** The split a rendered default leads to, the separator starting at `b`. */
  function DefaultSplit(dt: DefaultText, b: nat): Default {
    match dt
    case Absent => NoDefault
    case EmptyDefault => Blank
    case _ => Valued(b)
  }

  /** No `}` follows the type's own closing brace in a renderable param. */
  lemma RenderNoLaterClose(typeRaw: string, title: string, dt: DefaultText, sep: string, desc: string)
    requires Renderable(typeRaw, title, dt, sep, desc)
    ensures forall k :: |typeRaw| + 1 < k < |Render(typeRaw, title, dt, sep, desc)| ==>
              Render(typeRaw, title, dt, sep, desc)[k] != '}'
  {
    var R := " " + title + DefaultSource(dt) + sep + desc;
    NoCloseInRest(title, dt, sep, desc);
    RenderAfterType(typeRaw, title, dt, sep, desc);
    NoCloseAfter(Render(typeRaw, title, dt, sep, desc), "{" + typeRaw + "}", R, |typeRaw| + 1);
  }

  /** A rendered param is its `{type}` followed by the rest. */
  lemma RenderAfterType(typeRaw: string, title: string, dt: DefaultText, sep: string, desc: string)
    ensures Render(typeRaw, title, dt, sep, desc) == ("{" + typeRaw + "}") + (" " + title + DefaultSource(dt) + sep + desc)
  {
  }

  /** Nothing a renderable param writes after its type holds a `}`. */
  lemma NoCloseInRest(title: string, dt: DefaultText, sep: string, desc: string)
    requires IsPath(title) && DefaultRenderable(dt, desc) && SepRenderable(sep) && '}' !in desc
    ensures '}' !in " " + title + DefaultSource(dt) + sep + desc
  {
    PathChars(title);
    assert '}' !in title;
    assert '}' !in sep;
    assert '}' !in DefaultSource(dt);
  }

  /** A `}`-free text after a prefix leaves no `}` past the prefix. */
  lemma NoCloseAfter(s: string, pre: string, R: string, k: nat)
    requires s == pre + R && '}' !in R && |pre| == k + 1
    ensures forall m :: k < m < |s| ==> s[m] != '}'
  {
    forall m | k < m < |s|
      ensures s[m] != '}'
    {
      assert s[m] == R[m - |pre|];
    }
  }

  /** `{type} path` followed by `=` or white space: the type closes where it was written and the path is scanned exactly. */
  lemma RenderHead(s: string, typeRaw: string, title: string, T: string)
    requires s == "{" + typeRaw + "} " + title + T
    requires forall i :: 0 <= i < |typeRaw| ==> !IsLineTerminator(typeRaw[i])
    requires IsPath(title) && |T| > 0 && (T[0] == '=' || IsSpace(T[0]))
    ensures ClosesType(s, |typeRaw| + 1) && s[1..|typeRaw| + 1] == typeRaw
    ensures RunEnd(s, |typeRaw| + 2, Space) == |typeRaw| + 3
    ensures PathEnd(s, |typeRaw| + 3) == |typeRaw| + 3 + |title|
  {
    var k0 := |typeRaw| + 1;
    var j0 := k0 + 2;
    var p0 := j0 + |title|;
    forall i | 1 <= i < k0
      ensures In(s[i], NotLineTerminator)
    {
      assert s[i] == typeRaw[i - 1];
    }
    assert ClosesType(s, k0);
    assert s[1..k0] == typeRaw;
    PathChars(title);
    assert s[j0] == title[0];
    RunEndUnique(s, k0 + 1, Space, j0);
    assert Occurs(s, title, j0) by {
      forall m | 0 <= m < |title|
        ensures s[j0 + m] == title[m]
      {
      }
    }
    assert s[p0] == T[0];
    PathEndEmbed(s, title, j0);
  }

  /** A separator run followed by a description that does not start with a separator character. */
  lemma SepThenDesc(s: string, b: nat, sep: string, desc: string)
    requires b <= |s| && s[b..] == sep + desc
    requires |sep| > 0 && forall i :: 0 <= i < |sep| ==> In(sep[i], SpaceOrHyphen)
    requires |desc| > 0 && !In(desc[0], SpaceOrHyphen)
    ensures RunThenRest(s, b, SpaceOrHyphen) == Some(b + |sep|) && s[b + |sep|..] == desc
  {
    forall m | b <= m < b + |sep|
      ensures In(s[m], SpaceOrHyphen)
    {
      assert s[m] == s[b..][m - b] == sep[m - b];
    }
    assert s[b + |sep|] == s[b..][|sep|] == desc[0];
    RunThenRestExact(s, b, b + |sep|, SpaceOrHyphen);
    assert s[b + |sep|..] == s[b..][|sep|..];
  }

  /** The head of a split: the type closing at `k`, the spaces up to `j`, the path up to `p`. */
  predicate HeadAt(s: string, k: nat, j: nat, p: nat) {
    ClosesType(s, k) && j > k + 1 && RunEnd(s, k + 1, Space) == j && p > j && PathEnd(s, j) == p
  }

  /** No default: the separator follows the path. */
  lemma TailAbsent(s: string, k: nat, j: nat, p: nat, dt: DefaultText, sep: string, desc: string)
    requires HeadAt(s, k, j, p) && p <= |s| && s[p..] == sep + desc
    requires |sep| > 0 && IsSpace(sep[0]) && forall i :: 0 <= i < |sep| ==> In(sep[i], SpaceOrHyphen)
    requires |desc| > 0 && !In(desc[0], SpaceOrHyphen)
    requires dt.Absent?
    ensures Tail(s, k) == Some(LayoutSplit(k, j, p, dt, sep))
  {
    assert s[p] == s[p..][0] == sep[0];
    SepThenDesc(s, p, sep, desc);
    LayoutAbsent(k, j, p, dt, sep, p + |sep|);
  }

  /** A bare `=`: neither value alternative applies, and the separator follows the `=`. */
  lemma TailBlank(s: string, k: nat, j: nat, p: nat, dt: DefaultText, sep: string, desc: string)
    requires HeadAt(s, k, j, p) && p < |s| && s[p] == '=' && s[p + 1..] == sep + desc
    requires |sep| > 0 && IsSpace(sep[0]) && forall i :: 0 <= i < |sep| ==> In(sep[i], SpaceOrHyphen)
    requires |desc| > 0 && !In(desc[0], SpaceOrHyphen)
    requires dt.EmptyDefault?
    ensures Tail(s, k) == Some(LayoutSplit(k, j, p, dt, sep))
  {
    assert s[p + 1] == sep[0];
    SepThenDesc(s, p + 1, sep, desc);
    TailBlankAt(s, k, j, p, p + 1 + |sep|);
    LayoutBlank(k, j, p, dt, sep, p + 1 + |sep|);
  }

  /** White space right after `=`: neither value alternative applies. */
  lemma TailBlankAt(s: string, k: nat, j: nat, p: nat, d: nat)
    requires HeadAt(s, k, j, p) && p + 1 < |s| && s[p] == '=' && IsSpace(s[p + 1])
    requires RunThenRest(s, p + 1, SpaceOrHyphen) == Some(d)
    ensures Tail(s, k) == Some(Split(k, j, p, Blank, d))
  {
    TailEquals(s, k, j, p);
    RunEndUnique(s, p + 1, NonSpace, p + 1);
  }

  /** After a separator of `[\s-]` characters and a description without quotes, no quote follows. */
  lemma NoQuoteAfter(s: string, b: nat, sep: string, desc: string)
    requires b <= |s| && s[b..] == sep + desc
    requires '"' !in desc && forall i :: 0 <= i < |sep| ==> In(sep[i], SpaceOrHyphen)
    ensures forall q :: b <= q < |s| ==> s[q] != '"'
  {
    forall q | b <= q < |s|
      ensures s[q] != '"'
    {
      assert s[q] == (sep + desc)[q - b];
      if q - b >= |sep| {
        assert s[q] == desc[q - b - |sep|];
      }
    }
  }

  /** A quote that can close the value, with no quote after it, is the one the matcher settles on. */
  lemma LastQuoteIs(s: string, p: nat, b: nat, sep: string, desc: string)
    requires 1 <= b <= |s| && QuoteCloses(s, p, b - 1) && s[b..] == sep + desc
    requires '"' !in desc && forall i :: 0 <= i < |sep| ==> In(sep[i], SpaceOrHyphen)
    ensures LastQuote(s, p, |s| - 1) == Some(b - 1)
  {
    NoQuoteAfter(s, b, sep, desc);
  }

  /** With `=` after the path, the tail is whatever the default alternatives give. */
  lemma TailEquals(s: string, k: nat, j: nat, p: nat)
    requires HeadAt(s, k, j, p) && p < |s| && s[p] == '='
    ensures HeadOk(s, k, j, p)
    ensures Tail(s, k) == AfterEquals(s, k, j, p)
  {
    RunEndAll(s, k + 1, Space);
    PathEndRestrict(s, j);
  }

  /** Without `=` after the path, the tail is the separator and the description right after it. */
  lemma TailNoEquals(s: string, k: nat, j: nat, p: nat)
    requires HeadAt(s, k, j, p) && !(p < |s| && s[p] == '=')
    ensures Tail(s, k) == match RunThenRest(s, p, SpaceOrHyphen)
                         case None => None
                         case Some(d) => Some(Split(k, j, p, NoDefault, d))
  {
  }

  /** A closing quote the matcher settles on, followed by the separator, gives a quoted default. */
  lemma TailQuotedAt(s: string, k: nat, j: nat, p: nat, b: nat, d: nat)
    requires HeadAt(s, k, j, p) && p < |s| && s[p] == '=' && b >= 1
    requires LastQuote(s, p, |s| - 1) == Some(b - 1) && RunThenRest(s, b, SpaceOrHyphen) == Some(d)
    ensures Tail(s, k) == Some(Split(k, j, p, Valued(b), d))
  {
    TailEquals(s, k, j, p);
  }

  /** The pieces of `="text"` followed by the separator and the description. */
  lemma QuotedParts(s: string, p: nat, t: string, sep: string, desc: string)
    requires p <= |s| && s[p..] == DefaultSource(Quoted(t)) + sep + desc
    ensures p + |t| + 3 <= |s|
    ensures s[p] == '=' && s[p + 1] == '"' && s[p + |t| + 2] == '"'
    ensures s[p + |t| + 3..] == sep + desc
  {
    var T := s[p..];
    assert s[p] == T[0];
    assert s[p + 1] == T[1];
    assert s[p + |t| + 2] == T[|t| + 2];
    assert s[p + |t| + 3..] == T[|t| + 3..];
  }

  /** `="text"`: the closing quote is the last quote, since none follows in the separator or description. */
  lemma TailQuoted(s: string, k: nat, j: nat, p: nat, b: nat, dt: DefaultText, sep: string, desc: string)
    requires HeadAt(s, k, j, p) && p + 3 < b <= |s|
    requires s[p] == '=' && s[p + 1] == '"' && s[b - 1] == '"' && s[b..] == sep + desc
    requires '"' !in desc
    requires |sep| > 0 && forall i :: 0 <= i < |sep| ==> In(sep[i], SpaceOrHyphen)
    requires |desc| > 0 && !In(desc[0], SpaceOrHyphen)
    requires dt.Quoted? && b == p + DefaultLength(dt)
    ensures Tail(s, k) == Some(LayoutSplit(k, j, p, dt, sep))
  {
    SepThenDesc(s, b, sep, desc);
    LastQuoteIs(s, p, b, sep, desc);
    TailQuotedAt(s, k, j, p, b, b + |sep|);
    LayoutValued(k, j, p, dt, sep, b, b + |sep|);
  }

  /** `=text`: the value runs to the first white space, where the separator starts. */
  lemma TailBare(s: string, k: nat, j: nat, p: nat, b: nat, dt: DefaultText, sep: string, desc: string)
    requires HeadAt(s, k, j, p) && p + 1 < b <= |s| && s[p] == '=' && s[p + 1] != '"'
    requires AllIn(s, p + 1, b, NonSpace) && s[b..] == sep + desc
    requires |sep| > 0 && IsSpace(sep[0]) && forall i :: 0 <= i < |sep| ==> In(sep[i], SpaceOrHyphen)
    requires |desc| > 0 && !In(desc[0], SpaceOrHyphen)
    requires dt.Bare? && b == p + DefaultLength(dt)
    ensures Tail(s, k) == Some(LayoutSplit(k, j, p, dt, sep))
  {
    assert s[b] == sep[0];
    RunEndUnique(s, p + 1, NonSpace, b);
    SepThenDesc(s, b, sep, desc);
    assert SepFollows(s, b);
    LayoutValued(k, j, p, dt, sep, b, b + |sep|);
  }

  /** The pieces of a bare `=` followed by the separator and the description. */
  lemma BlankParts(s: string, p: nat, sep: string, desc: string)
    requires p <= |s| && s[p..] == DefaultSource(EmptyDefault) + sep + desc
    ensures p < |s| && s[p] == '=' && s[p + 1..] == sep + desc
  {
    assert s[p] == s[p..][0];
    assert s[p + 1..] == s[p..][1..];
  }

  /** The pieces of `=text` followed by the separator and the description. */
  lemma BareParts(s: string, p: nat, t: string, sep: string, desc: string)
    requires p <= |s| && s[p..] == DefaultSource(Bare(t)) + sep + desc
    requires |t| > 0 && forall i :: 0 <= i < |t| ==> !IsSpace(t[i])
    ensures p + 1 + |t| <= |s|
    ensures s[p] == '=' && s[p + 1] == t[0] && AllIn(s, p + 1, p + 1 + |t|, NonSpace)
    ensures s[p + 1 + |t|..] == sep + desc
  {
    var T := s[p..];
    assert s[p] == T[0];
    assert s[p + 1] == T[1];
    forall m | p + 1 <= m < p + 1 + |t|
      ensures In(s[m], NonSpace)
    {
      assert s[m] == T[m - p] == t[m - p - 1];
    }
    assert s[p + 1 + |t|..] == T[|t| + 1..];
  }

  /** The split whose head ends at `p` and whose default is `dt`, followed by `sep`. */
  function LayoutSplit(k: nat, j: nat, p: nat, dt: DefaultText, sep: string): Split {
    Split(k, j, p, DefaultSplit(dt, p + DefaultLength(dt)), p + DefaultLength(dt) + |sep|)
  }

  /** `LayoutSplit` for each kind of default. */
  lemma LayoutAbsent(k: nat, j: nat, p: nat, dt: DefaultText, sep: string, d: nat)
    requires dt.Absent? && d == p + |sep|
    ensures LayoutSplit(k, j, p, dt, sep) == Split(k, j, p, NoDefault, d)
  {
  }

  lemma LayoutBlank(k: nat, j: nat, p: nat, dt: DefaultText, sep: string, d: nat)
    requires dt.EmptyDefault? && d == p + 1 + |sep|
    ensures LayoutSplit(k, j, p, dt, sep) == Split(k, j, p, Blank, d)
  {
  }

  lemma LayoutValued(k: nat, j: nat, p: nat, dt: DefaultText, sep: string, b: nat, d: nat)
    requires (dt.Quoted? || dt.Bare?) && b == p + DefaultLength(dt) && d == b + |sep|
    ensures LayoutSplit(k, j, p, dt, sep) == Split(k, j, p, Valued(b), d)
  {
  }

  /** Where the pieces of a rendered param sit. */
  lemma RenderLayout(typeRaw: string, title: string, dt: DefaultText, sep: string, desc: string)
    requires Renderable(typeRaw, title, dt, sep, desc)
    ensures HeadAt(Render(typeRaw, title, dt, sep, desc), |typeRaw| + 1, |typeRaw| + 3, |typeRaw| + 3 + |title|)
    ensures Render(typeRaw, title, dt, sep, desc)[1..|typeRaw| + 1] == typeRaw
    ensures Render(typeRaw, title, dt, sep, desc)[|typeRaw| + 3..|typeRaw| + 3 + |title|] == title
    ensures Render(typeRaw, title, dt, sep, desc)[|typeRaw| + 3 + |title|..] == DefaultSource(dt) + sep + desc
  {
    var s := Render(typeRaw, title, dt, sep, desc);
    var T := DefaultSource(dt) + sep + desc;
    assert s == "{" + typeRaw + "} " + title + T;
    assert T[0] == '=' || IsSpace(T[0]) by {
      if dt.Absent? {
        assert T[0] == sep[0];
      }
    }
    RenderHead(s, typeRaw, title, T);
    Pieces(s, "{" + typeRaw + "} ", title, T);
  }

  /** The middle and the end of a three-part text. */
  lemma Pieces(s: string, a: string, m: string, b: string)
    requires s == a + m + b
    ensures s[|a|..|a| + |m|] == m && s[|a| + |m|..] == b
  {
  }

  /** The tail of a layout without a default. */
  lemma AbsentLayoutTail(s: string, k: nat, j: nat, p: nat, dt: DefaultText, sep: string, desc: string)
    requires dt.Absent?
    requires HeadAt(s, k, j, p) && p <= |s| && s[p..] == DefaultSource(dt) + sep + desc
    requires DefaultRenderable(dt, desc) && SepRenderable(sep) && DescRenderable(desc)
    ensures Tail(s, k) == Some(LayoutSplit(k, j, p, dt, sep))
  {
    TailAbsent(s, k, j, p, dt, sep, desc);
  }

  /** The tail of a layout with a bare `=`. */
  lemma BlankLayoutTail(s: string, k: nat, j: nat, p: nat, dt: DefaultText, sep: string, desc: string)
    requires dt.EmptyDefault?
    requires HeadAt(s, k, j, p) && p <= |s| && s[p..] == DefaultSource(dt) + sep + desc
    requires DefaultRenderable(dt, desc) && SepRenderable(sep) && DescRenderable(desc)
    ensures Tail(s, k) == Some(LayoutSplit(k, j, p, dt, sep))
  {
    BlankParts(s, p, sep, desc);
    TailBlank(s, k, j, p, dt, sep, desc);
  }

  /** The tail of a layout with a quoted default. */
  lemma QuotedLayoutTail(s: string, k: nat, j: nat, p: nat, dt: DefaultText, sep: string, desc: string)
    requires dt.Quoted?
    requires HeadAt(s, k, j, p) && p <= |s| && s[p..] == DefaultSource(dt) + sep + desc
    requires DefaultRenderable(dt, desc) && SepRenderable(sep) && DescRenderable(desc)
    ensures Tail(s, k) == Some(LayoutSplit(k, j, p, dt, sep))
  {
    var b := p + |dt.text| + 3;
    QuotedParts(s, p, dt.text, sep, desc);
    TailQuoted(s, k, j, p, b, dt, sep, desc);
  }

  /** The tail of a layout with a bare default. */
  lemma BareLayoutTail(s: string, k: nat, j: nat, p: nat, dt: DefaultText, sep: string, desc: string)
    requires dt.Bare?
    requires HeadAt(s, k, j, p) && p <= |s| && s[p..] == DefaultSource(dt) + sep + desc
    requires DefaultRenderable(dt, desc) && SepRenderable(sep) && DescRenderable(desc)
    ensures Tail(s, k) == Some(LayoutSplit(k, j, p, dt, sep))
  {
    var b := p + 1 + |dt.text|;
    BareParts(s, p, dt.text, sep, desc);
    TailBare(s, k, j, p, b, dt, sep, desc);
  }

  /** After the head, a renderable default, separator and description give the tail they spell. */
  lemma TailOfLayout(s: string, k: nat, j: nat, p: nat, dt: DefaultText, sep: string, desc: string)
    requires HeadAt(s, k, j, p) && p <= |s| && s[p..] == DefaultSource(dt) + sep + desc
    requires DefaultRenderable(dt, desc) && SepRenderable(sep) && DescRenderable(desc)
    ensures Tail(s, k) == Some(LayoutSplit(k, j, p, dt, sep))
  {
    match dt
    case Absent => AbsentLayoutTail(s, k, j, p, dt, sep, desc);
    case EmptyDefault => BlankLayoutTail(s, k, j, p, dt, sep, desc);
    case Quoted(_) => QuotedLayoutTail(s, k, j, p, dt, sep, desc);
    case Bare(_) => BareLayoutTail(s, k, j, p, dt, sep, desc);
  }

  /** A type that can close at `k`, with no `}` after it, is the one the greedy matcher settles on. */
  lemma LocateLast(s: string, k: nat)
    requires TypeCloses(s, k)
    requires forall m :: k < m < |s| ==> s[m] != '}'
    ensures Locate(s) == Tail(s, k)
  {
    NoLaterFlag(s, k);
    assert TypeFlags(s)[k];
    LastTrueAt(TypeFlags(s), |s| - 1, k);
    LocateIs(s, k);
  }

  /** The matcher's split is the tail after the last position the type can close at. */
  lemma LocateIs(s: string, k: nat)
    requires 0 < |s| && s[0] == '{' && LastTrue(TypeFlags(s), |s| - 1) == Some(k)
    ensures ClosesType(s, k) && Locate(s) == Tail(s, k)
  {
  }

  /** Without a `}` after `k`, no later position can close the type. */
  lemma NoLaterFlag(s: string, k: nat)
    requires forall m :: k < m < |s| ==> s[m] != '}'
    ensures forall m :: k < m <= |s| - 1 ==> !TypeFlags(s)[m]
  {
  }

  /** What follows the head: group 3 and the description. */
  lemma TextAfterHead(s: string, p: nat, dt: DefaultText, sep: string, desc: string)
    requires p <= |s| && s[p..] == DefaultSource(dt) + sep + desc
    ensures p + DefaultLength(dt) + |sep| <= |s|
    ensures s[p + DefaultLength(dt) + |sep|..] == desc
    ensures dt.Quoted? || dt.Bare? ==> 1 <= DefaultLength(dt) && s[p + 1..p + DefaultLength(dt)] == CaptureOf(dt).value
  {
    DescAfterHead(s, p, DefaultSource(dt), sep, desc);
    if dt.Quoted? || dt.Bare? {
      CaptureAfterHead(s, p, dt, sep + desc);
    }
  }

  /** The description is what follows the default and the separator. */
  lemma DescAfterHead(s: string, p: nat, dflt: string, sep: string, desc: string)
    requires p <= |s| && s[p..] == dflt + sep + desc
    ensures p + |dflt| + |sep| <= |s| && s[p + |dflt| + |sep|..] == desc
  {
    assert s[p + |dflt| + |sep|..] == s[p..][|dflt| + |sep|..];
  }

  /** Group 3 is the default without its `=`. */
  lemma CaptureAfterHead(s: string, p: nat, dt: DefaultText, rest: string)
    requires dt.Quoted? || dt.Bare?
    requires p <= |s| && s[p..] == DefaultSource(dt) + rest
    ensures 1 <= DefaultLength(dt) && p + DefaultLength(dt) <= |s|
    ensures s[p + 1..p + DefaultLength(dt)] == CaptureOf(dt).value
  {
    var c := CaptureOf(dt).value;
    assert DefaultSource(dt) == "=" + c;
    assert s[p + 1..p + DefaultLength(dt)] == s[p..][1..1 + |c|];
  }

  /** The capture groups of a split laid out like a rendered param are its pieces. */
  lemma CapturesOfLayout(s: string, typeRaw: string, title: string, dt: DefaultText, sep: string, desc: string,
                         k: nat, j: nat, p: nat)
    requires k == |typeRaw| + 1 && j == k + 2 && p == j + |title| && p <= |s|
    requires s[1..k] == typeRaw && s[j..p] == title && s[p..] == DefaultSource(dt) + sep + desc
    requires Spans(s, LayoutSplit(k, j, p, dt, sep))
    ensures Captures(s, LayoutSplit(k, j, p, dt, sep)) == Match(typeRaw, title, CaptureOf(dt), desc)
  {
    var L := DefaultLength(dt);
    TextAfterHead(s, p, dt, sep, desc);
    if dt.Quoted? || dt.Bare? {
      LayoutValued(k, j, p, dt, sep, p + L, p + L + |sep|);
    } else if dt.Absent? {
      LayoutAbsent(k, j, p, dt, sep, p + L + |sep|);
    } else {
      LayoutBlank(k, j, p, dt, sep, p + L + |sep|);
    }
  }

  /** The positions of a layout lie inside the text. */
  lemma SpansOfLayout(s: string, k: nat, j: nat, p: nat, dt: DefaultText, sep: string, desc: string)
    requires 1 <= k <= j <= p <= |s| && s[p..] == DefaultSource(dt) + sep + desc
    ensures Spans(s, LayoutSplit(k, j, p, dt, sep))
  {
  }

  /** `MatchParam` reports the captures of the split the matcher locates. */
  lemma MatchOfLocate(s: string, sp: Split, m: Match)
    requires Locate(s) == Some(sp) && Spans(s, sp) && Captures(s, sp) == m
    ensures MatchParam(s) == Some(m)
  {
  }

  /** The matcher locates the split of any text laid out like a rendered param. */
  lemma LocateLayout(s: string, k: nat, j: nat, p: nat, dt: DefaultText, sep: string, desc: string)
    requires HeadAt(s, k, j, p) && p <= |s| && s[p..] == DefaultSource(dt) + sep + desc
    requires forall m :: k < m < |s| ==> s[m] != '}'
    requires DefaultRenderable(dt, desc) && SepRenderable(sep) && DescRenderable(desc)
    ensures Locate(s) == Some(LayoutSplit(k, j, p, dt, sep))
  {
    TailOfLayout(s, k, j, p, dt, sep, desc);
    LocateLast(s, k);
  }

  /** Any text laid out like a rendered param reads back as its pieces. */
  lemma MatchOfLayout(s: string, typeRaw: string, title: string, dt: DefaultText, sep: string, desc: string)
    requires HeadAt(s, |typeRaw| + 1, |typeRaw| + 3, |typeRaw| + 3 + |title|)
    requires |typeRaw| + 3 + |title| <= |s|
    requires s[1..|typeRaw| + 1] == typeRaw && s[|typeRaw| + 3..|typeRaw| + 3 + |title|] == title
    requires s[|typeRaw| + 3 + |title|..] == DefaultSource(dt) + sep + desc
    requires forall m :: |typeRaw| + 1 < m < |s| ==> s[m] != '}'
    requires DefaultRenderable(dt, desc) && SepRenderable(sep) && DescRenderable(desc)
    ensures MatchParam(s) == Some(Match(typeRaw, title, CaptureOf(dt), desc))
  {
    var k, j, p := |typeRaw| + 1, |typeRaw| + 3, |typeRaw| + 3 + |title|;
    SpansOfLayout(s, k, j, p, dt, sep, desc);
    CapturesOfLayout(s, typeRaw, title, dt, sep, desc, k, j, p);
    LocateLayout(s, k, j, p, dt, sep, desc);
    MatchOfLocate(s, LayoutSplit(k, j, p, dt, sep), Match(typeRaw, title, CaptureOf(dt), desc));
  }

  /**
   * Reading back a rendered `@param` value gives the type, the path, the default as
   * group 3 (quotes included) and the description, whatever the separator was.
   */
  lemma RenderRoundTrip(typeRaw: string, title: string, dt: DefaultText, sep: string, desc: string)
    requires Renderable(typeRaw, title, dt, sep, desc)
    ensures MatchParam(Render(typeRaw, title, dt, sep, desc)) == Some(Match(typeRaw, title, CaptureOf(dt), desc))
  {
    RenderLayout(typeRaw, title, dt, sep, desc);
    RenderNoLaterClose(typeRaw, title, dt, sep, desc);
    MatchOfLayout(Render(typeRaw, title, dt, sep, desc), typeRaw, title, dt, sep, desc);
  }

  /** The example a rendered default stands for: the text of a quoted or bare value. */
  function DefaultValue(dt: DefaultText): (r: Option<string>)
    ensures r.Some? <==> dt.Quoted? || dt.Bare?
  {
    match dt
    case Quoted(t) => Some(t)
    case Bare(t) => Some(t)
    case _ => None
  }

  /** The quotes around a quoted default are dropped; a bare default is kept as written. */
  lemma ExampleOfCapture(dt: DefaultText, desc: string)
    requires DefaultRenderable(dt, desc)
    ensures ExampleOf(CaptureOf(dt)) == DefaultValue(dt)
  {
    if dt.Quoted? {
      var c := "\"" + dt.text + "\"";
      assert c[0] == '"';
      assert SliceInner(c) == c[1..|c| - 1] == dt.text;
    }
  }

  /**
   * A rendered `@param` value reads back as the record `setType` makes of its type, path,
   * description and default: the separator, and the quotes around a default, leave no trace.
   */
  lemma ParseRendered(typeRaw: string, title: string, dt: DefaultText, sep: string, desc: string)
    requires Renderable(typeRaw, title, dt, sep, desc)
    ensures ParseParam(Render(typeRaw, title, dt, sep, desc)) == SetTypeSpec(typeRaw, title, desc, DefaultValue(dt))
  {
    RenderRoundTrip(typeRaw, title, dt, sep, desc);
    ExampleOfCapture(dt, desc);
  }

  /** `{string} a - text` and `{string} a text` describe the same param. */
  lemma SeparatorIrrelevant(typeRaw: string, title: string, dt: DefaultText, sep1: string, sep2: string, desc: string)
    requires Renderable(typeRaw, title, dt, sep1, desc) && Renderable(typeRaw, title, dt, sep2, desc)
    ensures ParseParam(Render(typeRaw, title, dt, sep1, desc)) == ParseParam(Render(typeRaw, title, dt, sep2, desc))
  {
    ParseRendered(typeRaw, title, dt, sep1, desc);
    ParseRendered(typeRaw, title, dt, sep2, desc);
  }

  /** `a="text"` and `a=text` give the same example. */
  lemma QuotesIrrelevant(typeRaw: string, title: string, t: string, sep: string, desc: string)
    requires Renderable(typeRaw, title, Quoted(t), sep, desc) && Renderable(typeRaw, title, Bare(t), sep, desc)
    ensures ParseParam(Render(typeRaw, title, Quoted(t), sep, desc)) == ParseParam(Render(typeRaw, title, Bare(t), sep, desc))
  {
    ParseRendered(typeRaw, title, Quoted(t), sep, desc);
    ParseRendered(typeRaw, title, Bare(t), sep, desc);
  }

  /** Without a value after the path (or after a bare `=`), the record has no example. */
  lemma NoDefaultNoExample(typeRaw: string, title: string, dt: DefaultText, sep: string, desc: string)
    requires Renderable(typeRaw, title, dt, sep, desc) && (dt.Absent? || dt.EmptyDefault?)
    requires ParseParam(Render(typeRaw, title, dt, sep, desc)).Success?
    ensures ParseParam(Render(typeRaw, title, dt, sep, desc)).value.exampleData.None?
  {
    ParseRendered(typeRaw, title, dt, sep, desc);
  }
}
