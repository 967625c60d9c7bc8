/**
 * The pure rules of the ingestion pass: stripping the script suffix from a
 * file name, parsing a payload with a silent fallback, and resolving the
 * logical name a record is stored under.
 */
module Naming {
  import opened Wrappers
  import opened Values

  /** The bucket for plain data: records are always named after their file. */
  const JsonBucket := "json-files"
  /** The bucket for function-like records, stored as `{function, id}`. */
  const JsBucket := "js-files"

  predicate EndsWith(s: string, suffix: string)
  {
    |suffix| <= |s| && s[|s| - |suffix|..] == suffix
  }

  /**
   * `name.replace(/\.js(on)?$/, "")`: removes one trailing ".json" or ".js".
   * A name cannot end in both, and the match is case-sensitive.
   */
  function StripScriptSuffix(name: string): (base: string)
    ensures base == name || base + ".json" == name || base + ".js" == name
    ensures base == name <==> !EndsWith(name, ".json") && !EndsWith(name, ".js")
  {
    if EndsWith(name, ".json") then name[..|name| - 5]
    else if EndsWith(name, ".js") then name[..|name| - 3]
    else name
  }

  /**
   * The regular expression `\.js(on)?$` (no flags) matches s at offset i:
   * the match starts with ".js", optionally continues with "on", and must
   * reach the end of the input.
   */
  predicate SuffixMatchAt(s: string, i: int)
  {
    0 <= i <= |s| && (s[i..] == ".js" || s[i..] == ".json")
  }

  /**
   * StripScriptSuffix is what `String.prototype.replace` does with that
   * expression: the (only possible) match is cut off, and a name without a
   * match is returned unchanged.
   */
  lemma StripRemovesRegexMatch(s: string)
    ensures forall i :: SuffixMatchAt(s, i) ==> StripScriptSuffix(s) == s[..i]
    ensures (forall i :: 0 <= i <= |s| ==> !SuffixMatchAt(s, i)) ==> StripScriptSuffix(s) == s
  {
    forall i | SuffixMatchAt(s, i)
      ensures StripScriptSuffix(s) == s[..i]
    {
      if s[i..] == ".js" {
        assert s[|s| - 1] == 's';
        assert s[|s| - 3..] == s[i..];
      } else {
        assert s[|s| - 5..] == s[i..];
      }
    }
    if !EndsWith(s, ".json") && !EndsWith(s, ".js") {
    } else if EndsWith(s, ".json") {
      assert SuffixMatchAt(s, |s| - 5);
    } else {
      assert SuffixMatchAt(s, |s| - 3);
    }
  }

  /** Appending ".json" or ".js" to a base name and stripping gives the base name back. */
  lemma StripAppendedSuffix(base: string)
    ensures StripScriptSuffix(base + ".json") == base
    ensures StripScriptSuffix(base + ".js") == base
  {
    var j, s := base + ".json", base + ".js";
    assert j[|j| - 5..] == ".json";
    assert j[..|j| - 5] == base;
    assert s[|s| - 3..] == ".js";
    assert s[..|s| - 3] == base;
    assert |s| < 5 || s[|s| - 5..][4] == 's';
  }

  /** Only one suffix is removed. */
  lemma StripOnlyOnce()
    ensures StripScriptSuffix("a.json.js") == "a.json"
    ensures StripScriptSuffix("a.js.js") == "a.js"
  {
  }

  /** Names that end otherwise are kept: the match is exact and case-sensitive. */
  lemma StripKeepsOtherEndings()
    ensures StripScriptSuffix("view.jsx") == "view.jsx"
    ensures StripScriptSuffix("DATA.JSON") == "DATA.JSON"
    ensures StripScriptSuffix("b.jso") == "b.jso"
  {
  }

  /**
   * `parse`: the value JSON.parse produces, or the text itself (a string)
   * when JSON.parse throws.  It never fails.
   */
  function ParseOrText(parseJson: string -> Option<Value>, text: string): (v: Value)
    ensures parseJson(text).Some? ==> v == parseJson(text).value
    ensures parseJson(text).None? ==> v == Str(text)
  {
    match parseJson(text)
    case Some(parsed) => parsed
    case None => Str(text)
  }

  /**
   * The payload is a non-null object whose `id` property is truthy
   * (`typeof p === "object" && p != null && p.id`).  Arrays are objects
   * without an `id` property.
   */
  function HasTruthyId(payload: Value): (has: bool)
    ensures has <==>
      payload.Object? && "id" in payload.fields && payload.fields["id"] !in {Null, Bool(false), Number(0), Str("")}
  {
    payload.Object? && "id" in payload.fields && Truthy(payload.fields["id"])
  }

  /**
   * `resolve`: the logical name of a record.  In the json-files bucket it is
   * the file's base name; elsewhere it is the payload's truthy `id` when it
   * has one, and the base name otherwise.
   */
  function Resolve(bucket: string, fileName: string, payload: Value): (name: Value)
    ensures bucket == JsonBucket ==> name == Str(fileName)
    ensures bucket != JsonBucket && HasTruthyId(payload) ==> name == payload.fields["id"]
    ensures !HasTruthyId(payload) ==> name == Str(fileName)
  {
    if bucket == JsonBucket then Str(fileName)
    else if payload.Object? && "id" in payload.fields && Truthy(payload.fields["id"]) then payload.fields["id"]
    else Str(fileName)
  }

  /**
   * A resolved name is the file name or a truthy value taken from the
   * payload, and a string payload (raw text) always resolves to the file name.
   */
  lemma ResolveIsFileNameOrId(bucket: string, fileName: string, payload: Value)
    ensures var name := Resolve(bucket, fileName, payload);
      name == Str(fileName) || (Truthy(name) && payload.Object? && name in payload.fields.Values)
    ensures payload.Str? ==> Resolve(bucket, fileName, payload) == Str(fileName)
  {
  }
}
