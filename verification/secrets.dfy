/**
 * lib/secrets.js: each `@secret` value is matched against `^([\w]+)\s+([\s\S]+)$` and
 * becomes `{ key, description }`. A value that does not match makes the call throw.
 */
module Secrets {
  import opened Base
  import opened Scan

  /** `{ key, description }`. */
  datatype Secret = Secret(key: string, description: string)

  /**
   * `secret.match(SECRET)`: the greedy `\w+` takes the whole leading word (giving word
   * characters back never lets `\s` match), then `\s+([\s\S]+)$` splits the rest.
   */
  function MatchSecret(s: string): (r: Option<Secret>)
    ensures r.Some? ==> |r.value.key| > 0 && |r.value.description| > 0
    ensures r.Some? ==> forall i :: 0 <= i < |r.value.key| ==> IsWord(r.value.key[i])
  {
    var w := RunEnd(s, 0, Word);
    RunEndAll(s, 0, Word);
    if w == 0 then None
    else
      match RunThenRest(s, w, Space)
      case None => None
      case Some(d) => Some(Secret(s[..w], s[d..]))
  }

  /** The value can be read as a word, white space and a non-empty rest exactly when the expression matches. */
  lemma MatchSecretIff(s: string)
    ensures MatchSecret(s).Some? <==>
              exists i, d :: 0 < i < d < |s| && AllIn(s, 0, i, Word) && AllIn(s, i, d, Space)
  {
    var w := RunEnd(s, 0, Word);
    RunEndAll(s, 0, Word);
    if MatchSecret(s).Some? {
      var d := RunThenRest(s, w, Space).value;
      RunThenRestSpec(s, w, Space);
      assert 0 < w < d < |s| && AllIn(s, 0, w, Word) && AllIn(s, w, d, Space);
    }
    if exists i, d :: 0 < i < d < |s| && AllIn(s, 0, i, Word) && AllIn(s, i, d, Space) {
      var i, d :| 0 < i < d < |s| && AllIn(s, 0, i, Word) && AllIn(s, i, d, Space);
      assert In(s[i], Space);
      RunEndUnique(s, 0, Word, i);
    }
  }

  /** One `@secret` value: its record, or the error indexing into a failed match raises. */
  function ParseSecret(value: string): (r: Result<Secret>)
    ensures r.Failure? <==> MatchSecret(value).None?
    ensures r.Failure? ==> r.error == Malformed("secret", value)
  {
    match MatchSecret(value)
    case None => Failure(Malformed("secret", value))
    case Some(m) => Success(m)
  }

  /** `parseSecrets(secrets)`: the records in order; `filter(Boolean)` keeps every record. */
  function ParseSecrets(values: seq<string>): (r: Result<seq<Secret>>)
    ensures r.Success? ==> |r.value| == |values|
  {
    Collect(seq(|values|, i requires 0 <= i < |values| => ParseSecret(values[i])))
  }

  /** Every value matches: one record per value, in order. */
  lemma SecretsInOrder(values: seq<string>)
    requires forall i :: 0 <= i < |values| ==> MatchSecret(values[i]).Some?
    ensures ParseSecrets(values).Success?
    ensures forall i :: 0 <= i < |values| ==> ParseSecrets(values).value[i] == MatchSecret(values[i]).value
  {
    CollectSuccess(seq(|values|, i requires 0 <= i < |values| => ParseSecret(values[i])));
  }

  /** The first value that does not match decides the error. */
  lemma SecretsFirstError(values: seq<string>, n: nat)
    requires n < |values| && MatchSecret(values[n]).None?
    requires forall i :: 0 <= i < n ==> MatchSecret(values[i]).Some?
    ensures ParseSecrets(values) == Failure(Malformed("secret", values[n]))
  {
    CollectFirstError(seq(|values|, i requires 0 <= i < |values| => ParseSecret(values[i])), n);
  }

  /**
   * `key text` reads back as its key and description, whatever white space separates them;
   * the description runs to the end, newlines included.
   */
  lemma SecretRoundTrip(key: string, sep: string, desc: string)
    requires |key| > 0 && forall i :: 0 <= i < |key| ==> IsWord(key[i])
    requires |sep| > 0 && forall i :: 0 <= i < |sep| ==> IsSpace(sep[i])
    requires |desc| > 0 && !IsSpace(desc[0])
    ensures ParseSecret(key + sep + desc) == Success(Secret(key, desc))
  {
    var s := key + sep + desc;
    var w := |key|;
    var d := w + |sep|;
    forall m | 0 <= m < w
      ensures In(s[m], Word)
    {
      assert s[m] == key[m];
    }
    forall m | w <= m < d
      ensures In(s[m], Space)
    {
      assert s[m] == sep[m - w];
    }
    assert s[w] == sep[0];
    RunEndUnique(s, 0, Word, w);
    assert s[d] == desc[0];
    RunThenRestExact(s, w, d, Space);
    assert s[..w] == key && s[d..] == desc;
  }

  /** A key holding a non-word character, such as `api-key x`, makes the value fail to match. */
  lemma NonWordKey(key: string, rest: string)
    requires |key| > 0 && forall i :: 0 <= i < |key| ==> IsWord(key[i])
    requires |rest| > 0 && !IsWord(rest[0]) && !IsSpace(rest[0])
    ensures ParseSecret(key + rest) == Failure(Malformed("secret", key + rest))
  {
    var s := key + rest;
    forall m | 0 <= m < |key|
      ensures In(s[m], Word)
    {
      assert s[m] == key[m];
    }
    assert s[|key|] == rest[0];
    RunEndUnique(s, 0, Word, |key|);
  }

  /** `api-key x` does not match. */
  lemma HyphenatedKey()
    ensures ParseSecret("api-key x").Failure?
  {
    NonWordKey("api", "-key x");
    assert "api" + "-key x" == "api-key x";
  }
}
