/**
 * `getType` of lib/get-type.js (written out again, letter for letter, inside index.js):
 * JSDoc's `Object` becomes JSON Schema's `object`, and every other type name is kept.
 */
module GetType {
  import opened Base
  import opened Strings

  function GetType(t: string): (r: string)
    ensures r == "object" <==> t == "Object" || t == "object"
    ensures t != "Object" ==> r == t
  {
    if t == "Object" then "object" else t
  }

  /** Normalising a normalised name changes nothing. */
  lemma GetTypeIdempotent(t: string)
    ensures GetType(GetType(t)) == GetType(t)
  {
  }

  /** Only the exact token `Object` is rewritten: `String`, `OBJECT` and `object[]` are kept. */
  lemma GetTypeOnlyObject(t: string)
    ensures GetType(t) != t <==> t == "Object"
  {
  }

  /** `IS_TYPE_ARRAY` is a test on the original token: `GetType` never changes whether it ends in `[]`. */
  lemma GetTypeKeepsArray(t: string)
    ensures EndsWithBrackets(GetType(t)) <==> EndsWithBrackets(t)
  {
  }

  /**
   * The `type`/`items` pair lib/returns.js and index.js write for a `{T}` token: an array
   * whose items are `GetType` of the stripped token when the normalised token ends in `[]`,
   * the normalised token itself otherwise. Nothing is lower-cased or validated.
   */
  datatype Typed = Typed(typeName: string, items: Option<string>)

  function TypeOf(raw: string): (r: Typed)
    ensures EndsWithBrackets(raw) ==> r == Typed("array", Some(GetType(StripBrackets(raw))))
    ensures !EndsWithBrackets(raw) ==> r == Typed(GetType(raw), None)
  {
    var t := GetType(raw);
    if EndsWithBrackets(t) then Typed("array", Some(GetType(StripBrackets(t)))) else Typed(t, None)
  }

  /** A `T[]` token is an array of `GetType(T)`, whatever `T` is. */
  lemma TypeOfArray(u: string)
    ensures TypeOf(u + "[]") == Typed("array", Some(GetType(u)))
  {
    assert StripBrackets(u + "[]") == u;
  }
}
