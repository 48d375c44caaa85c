/**
 * lib/set-type.js: normalises a raw `{Type}` token to JSON Schema's `type`/`items`,
 * validates it against a closed vocabulary, and casts the example value by type.
 * `setType` writes into the record its caller passes, so the record is a class here.
 */
module SetType {
  import opened Base
  import opened Strings

  /** `JSON_SCHEMA_TYPES`: the only type names `setType` accepts. */
  const Vocabulary: seq<string> := ["null", "boolean", "object", "array", "number", "string", "file"]

  /** The file's own `getType`: `Object` becomes `object`, anything else is lower-cased. */
  function LowerType(t: string): (r: string)
    ensures r == ToLower(t)
  {
    if t == "Object" then "object" else ToLower(t)
  }

  /** The `type` and `items.type` `setType` writes. */
  datatype Shape = Shape(typeName: string, items: Option<string>)

  /**
   * Lower-case the token; one trailing `[]` makes it an array whose items are the
   * (again lower-cased) token without it.
   */
  function Normalize(raw: string): (r: Shape)
    ensures EndsWithBrackets(raw) <==> r.items.Some?
    ensures r.items.Some? ==> r.typeName == "array" && r.items.value + "[]" == ToLower(raw)
    ensures r.items.None? ==> r.typeName == ToLower(raw)
  {
    var t := LowerType(raw);
    if EndsWithBrackets(t) then Shape("array", Some(LowerType(StripBrackets(t)))) else Shape(t, None)
  }

  /** The name `validateType` is given: the items type for an array, the type otherwise. */
  function Checked(sh: Shape): string {
    if sh.items.Some? then sh.items.value else sh.typeName
  }

  /** `validateType`: nothing, or the `Invalid type` error naming the rejected name. */
  function ValidateType(name: string): (r: Option<Error>)
    ensures r.None? <==> name in Vocabulary
    ensures r.Some? ==> r.value == InvalidType(name)
  {
    if name in Vocabulary then None else Some(InvalidType(name))
  }

  /** An example value after `castExampleType`. */
  datatype Example =
      /** The literal, unchanged. */
    | Text(text: string)
      /** `data === 'true'`. */
    | Flag(flag: bool)
      /** `parseFloat(literal)`; floating-point parsing is not modelled, so the literal is kept. */
    | ParsedNumber(literal: string)
      /** `JSON.parse(literal)`; JSON parsing is not modelled, so the literal is kept. */
    | ParsedJson(literal: string)

  /** `castExampleType(type, data)`. */
  function CastExample(typeName: string, data: string): (r: Example)
    ensures r.Text? <==> typeName != "number" && typeName != "boolean" && typeName != "array"
    ensures r.Text? ==> r.text == data
    ensures r.Flag? ==> (r.flag <==> data == "true")
    ensures r.ParsedNumber? || r.ParsedJson? ==> r.literal == data
  {
    if typeName == "number" then ParsedNumber(data)
    else if typeName == "boolean" then Flag(data == "true")
    else if typeName == "array" then ParsedJson(data)
    else Text(data)
  }

  /** The example a record holds before `setType`: absent, or the string its parser found. */
  function Uncast(data: Option<string>): (r: Option<Example>)
    ensures r.None? <==> data.None?
    ensures r.Some? ==> r.value == Text(data.value)
  {
    if data.Some? then Some(Text(data.value)) else None
  }

  /** `if (output.exampleData) output.exampleData = castExampleType(output.type, ...)`: only a non-empty string is cast. */
  function CastIfTruthy(typeName: string, e: Option<Example>): (r: Option<Example>)
    requires e.None? || e.value.Text?
    ensures e.None? || e.value.text == "" ==> r == e
    ensures e.Some? && e.value.text != "" ==> r == Some(CastExample(typeName, e.value.text))
  {
    if e.Some? && e.value.text != "" then Some(CastExample(typeName, e.value.text)) else e
  }

  /** The record `setType` hands back (lib/params.js builds it from `title`, `description` and `exampleData`). */
  datatype Param = Param(title: string, description: string, exampleData: Option<Example>,
                         typeName: string, items: Option<string>)

  /** `setType(rawType, {title, description, exampleData})` as a value: the typed record, or the error it throws. */
  function SetTypeSpec(raw: string, title: string, description: string, data: Option<string>): (r: Result<Param>)
    ensures r.Failure? <==> Checked(Normalize(raw)) !in Vocabulary
    ensures r.Failure? ==> r.error == InvalidType(Checked(Normalize(raw)))
    ensures r.Success? ==> r.value.title == title && r.value.description == description
    ensures r.Success? ==> r.value.typeName == Normalize(raw).typeName && r.value.items == Normalize(raw).items
    ensures r.Success? ==> r.value.exampleData == CastIfTruthy(r.value.typeName, Uncast(data))
  {
    var sh := Normalize(raw);
    match ValidateType(Checked(sh))
    case Some(e) => Failure(e)
    case None => Success(Param(title, description, CastIfTruthy(sh.typeName, Uncast(data)), sh.typeName, sh.items))
  }

  /** The object lib/params.js builds and `setType` completes in place. */
  class ParamDoc {
    var title: string
    var description: string
    var exampleData: Option<Example>
    /** `type`: absent until `setType` writes it. */
    var typeName: Option<string>
    /** `items.type`: absent unless `setType` found an array. */
    var items: Option<string>

    /** `{ title, description }`, with `exampleData` assigned when the parser found one. */
    constructor (title: string, description: string, data: Option<string>)
      ensures this.title == title && this.description == description
      ensures exampleData == Uncast(data) && typeName.None? && items.None?
    {
      this.title := title;
      this.description := description;
      exampleData := Uncast(data);
      typeName := None;
      items := None;
    }

    /** The record as a value, once it has a type. */
    function Snapshot(): (r: Param)
      requires typeName.Some?
      reads this
      ensures r.title == title && r.description == description && r.exampleData == exampleData
      ensures r.typeName == typeName.value && r.items == items
    {
      Param(title, description, exampleData, typeName.value, items)
    }
  }

  /**
   * `setType(rawType, output)`. The type (and, for an array, the items) are written
   * before validation, so a record that fails validation keeps them; the example is cast
   * only after validation passed, with the normalised type.
   */
  method SetType(rawType: string, output: ParamDoc) returns (err: Option<Error>)
    requires output.exampleData.None? || output.exampleData.value.Text?
    modifies output
    ensures output.title == old(output.title) && output.description == old(output.description)
    ensures output.typeName == Some(Normalize(rawType).typeName)
    ensures output.items == if Normalize(rawType).items.Some? then Normalize(rawType).items else old(output.items)
    ensures err == ValidateType(Checked(Normalize(rawType)))
    ensures err.Some? ==> output.exampleData == old(output.exampleData)
    ensures err.None? ==> output.exampleData == CastIfTruthy(Normalize(rawType).typeName, old(output.exampleData))
  {
    var t := LowerType(rawType);
    if EndsWithBrackets(t) {
      output.typeName := Some("array");
      output.items := Some(LowerType(StripBrackets(t)));
      err := ValidateType(output.items.value);
    } else {
      output.typeName := Some(t);
      err := ValidateType(output.typeName.value);
    }
    if err.Some? {
      return;
    }
    if output.exampleData.Some? && output.exampleData.value.text != "" {
      output.exampleData := Some(CastExample(output.typeName.value, output.exampleData.value.text));
    }
  }

  /** Running `SetType` on a fresh record yields exactly `SetTypeSpec`. */
  method Typed(rawType: string, title: string, description: string, data: Option<string>) returns (r: Result<Param>)
    ensures r == SetTypeSpec(rawType, title, description, data)
  {
    var doc := new ParamDoc(title, description, data);
    var err := SetType(rawType, doc);
    if err.Some? {
      return Failure(err.value);
    }
    r := Success(doc.Snapshot());
  }

  // What the vocabulary check accepts.

  /** A vocabulary name written in any ASCII case. */
  predicate SpellsType(raw: string) {
    ToLower(raw) in Vocabulary
  }

  /** No vocabulary name ends in `]`. */
  lemma NotInVocabulary(n: string)
    requires |n| > 0 && n[|n| - 1] == ']'
    ensures n !in Vocabulary
  {
  }

  /** Lower-casing leaves the brackets of a `T[]` token in place. */
  lemma LowerArray(u: string)
    ensures ToLower(u + "[]") == ToLower(u) + "[]"
  {
    ToLowerAppend(u, "[]");
  }

  /**
   * `setType` accepts exactly the vocabulary names and the vocabulary names followed by one
   * `[]`, each in any ASCII case.
   */
  lemma AcceptedTypes(raw: string)
    ensures SetTypeSpec(raw, "", "", None).Success? <==>
              SpellsType(raw) || (EndsWithBrackets(raw) && SpellsType(StripBrackets(raw)))
  {
    var sh := Normalize(raw);
    if EndsWithBrackets(raw) {
      var u := StripBrackets(raw);
      LowerArray(u);
      assert sh.items.value == ToLower(u);
      NotInVocabulary(ToLower(raw));
    }
  }

  /** Only one level of `[]` is recognised: `string[][]` is rejected as `Invalid type "string[]"`. */
  lemma NestedArrayRejected(u: string)
    ensures SetTypeSpec(u + "[][]", "", "", None) == Failure(InvalidType(ToLower(u) + "[]"))
  {
    var raw := u + "[][]";
    assert raw == (u + "[]") + "[]";
    LowerArray(u + "[]");
    LowerArray(u);
    var sh := Normalize(raw);
    assert sh.items.value == ToLower(u) + "[]";
    NotInVocabulary(ToLower(u) + "[]");
  }

  /** The special case for `Object` is subsumed by lower-casing: every raw token is simply lower-cased. */
  lemma ObjectSpecialCaseRedundant()
    ensures LowerType("Object") == ToLower("Object") == "object"
  {
  }

  /** Title and description pass through `setType`; an array's example goes to the `array` (JSON) branch. */
  lemma ArrayExampleUsesArrayBranch(u: string, title: string, description: string, data: string)
    requires SetTypeSpec(u + "[]", title, description, Some(data)).Success? && data != ""
    ensures SetTypeSpec(u + "[]", title, description, Some(data)).value.exampleData == Some(ParsedJson(data))
  {
    assert EndsWithBrackets(u + "[]");
  }

  /** An empty example is never cast: it stays the empty string. */
  lemma EmptyExampleKept(raw: string, title: string, description: string)
    requires SetTypeSpec(raw, title, description, Some("")).Success?
    ensures SetTypeSpec(raw, title, description, Some("")).value.exampleData == Some(Text(""))
  {
  }

  /** A boolean example is `true` exactly when the literal is `true`; `True` and `1` are `false`. */
  lemma BooleanExample(raw: string, data: string)
    requires ToLower(raw) == "boolean" && data != ""
    ensures SetTypeSpec(raw, "", "", Some(data)) == Success(Param("", "", Some(Flag(data == "true")), "boolean", None))
  {
    assert ToLower(raw)[|raw| - 1] == 'n';
  }
}
