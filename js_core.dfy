/**
 * The few JavaScript primitives the route handlers and components rely on,
 * stated over Dafny values: optional values, parsed JSON values and their
 * truthiness, the whitespace set of `String.prototype.trim` and of the
 * regular-expression class `\s`, prefix/suffix tests, `substring(0, n)`,
 * `indexOf` and a single (non-global) `replace`.
 */
module JsCore {

  datatype Option<+T> = None | Some(value: T)

  /** A value as `JSON.parse` can produce it. `undefined` never comes out of
      `JSON.parse`; a read of a missing property is written as `JNull` by the
      callers, since both are falsy and both are stored as SQL null. */
  datatype JsonValue =
    | JNull
    | JBool(b: bool)
    | JNumber(n: real)
    | JString(s: string)
    | JArray(items: seq<JsonValue>)
    | JObject(fields: map<string, JsonValue>)

  /** The outcome of calling `JSON.parse`: it either throws or yields a value. */
  datatype ParseResult = ParseThrew | Parsed(value: JsonValue)

  /** JavaScript truthiness of a JSON value (`NaN` cannot come out of JSON). */
  predicate Truthy(v: JsonValue)
  {
    match v
    case JNull => false
    case JBool(b) => b
    case JNumber(n) => n != 0.0
    case JString(s) => s != ""
    case JArray(_) => true
    case JObject(_) => true
  }

  /** `typeof v === 'object' && v !== null`: objects and arrays. */
  predicate IsNonNullObject(v: JsonValue)
  {
    v.JArray? || v.JObject?
  }

  /** Reading property `key` of a non-null value: only an object can carry an
      own property with one of the keys used here; every other read is
      `undefined`, written `JNull`. */
  function Property(v: JsonValue, key: string): (r: JsonValue)
    ensures v.JObject? && key in v.fields ==> r == v.fields[key]
    ensures !(v.JObject? && key in v.fields) ==> r == JNull
  {
    if v.JObject? && key in v.fields then v.fields[key] else JNull
  }

  /** `x || null` for a JSON value. */
  function OrNull(v: JsonValue): (r: JsonValue)
    ensures r == JNull || Truthy(r)
    ensures Truthy(v) ==> r == v
    ensures !Truthy(v) ==> r == JNull
  {
    if Truthy(v) then v else JNull
  }

  /** A string is truthy iff it is non-empty; `s ? … : null` on a nullable
      string therefore tests this. */
  predicate TruthyString(s: Option<string>)
  {
    s.Some? && s.value != ""
  }

  /** WhiteSpace and LineTerminator code points of ECMAScript: what `trim`
      removes and what `\s` matches. */
  predicate IsJsSpace(c: char)
  {
    || c == '\t' || c == '\n' || c == '\U{000B}' || c == '\U{000C}' || c == '\r'
    || c == ' ' || c == '\U{00A0}' || c == '\U{1680}'
    || ('\U{2000}' <= c <= '\U{200A}')
    || c == '\U{2028}' || c == '\U{2029}' || c == '\U{202F}' || c == '\U{205F}'
    || c == '\U{3000}' || c == '\U{FEFF}'
  }

  predicate AllSpace(s: string)
  {
    forall i :: 0 <= i < |s| ==> IsJsSpace(s[i])
  }

  /** Removes the longest all-whitespace prefix (`^\s*`). */
  function TrimStart(s: string): (r: string)
    ensures |r| <= |s| && r == s[|s| - |r|..]
    ensures AllSpace(s[..|s| - |r|])
    ensures r == [] || !IsJsSpace(r[0])
  {
    if s == [] || !IsJsSpace(s[0]) then s else TrimStart(s[1..])
  }

  /** Removes the longest all-whitespace suffix (`\s*$`). */
  function TrimEnd(s: string): (r: string)
    ensures |r| <= |s| && r == s[..|r|]
    ensures AllSpace(s[|r|..])
    ensures r == [] || !IsJsSpace(r[|r| - 1])
  {
    if s == [] || !IsJsSpace(s[|s| - 1]) then s else TrimEnd(s[..|s| - 1])
  }

  /** `String.prototype.trim`. */
  function Trim(s: string): (r: string)
    ensures |r| <= |s|
  {
    TrimEnd(TrimStart(s))
  }

  /** Surrounding a string without leading or trailing whitespace by
      whitespace, then trimming, gives the string back. */
  lemma {:induction false} TrimPadded(lead: string, body: string, trail: string)
    requires AllSpace(lead) && AllSpace(trail)
    requires body == [] || (!IsJsSpace(body[0]) && !IsJsSpace(body[|body| - 1]))
    ensures Trim(lead + body + trail) == body
  {
    assert lead + body + trail == lead + (body + trail);
    if body == [] {
      assert body + trail == trail;
    } else {
      TrimStartPadded(lead, body + trail);
      TrimEndPadded(body, trail);
    }
  }

  lemma {:induction false} TrimStartPadded(lead: string, rest: string)
    requires AllSpace(lead)
    requires rest == [] || !IsJsSpace(rest[0])
    ensures TrimStart(lead + rest) == rest
  {
    if lead != [] {
      assert (lead + rest)[1..] == lead[1..] + rest;
      TrimStartPadded(lead[1..], rest);
    } else {
      assert lead + rest == rest;
    }
  }

  lemma {:induction false} TrimEndPadded(rest: string, trail: string)
    requires AllSpace(trail)
    requires rest == [] || !IsJsSpace(rest[|rest| - 1])
    ensures TrimEnd(rest + trail) == rest
  {
    if trail != [] {
      var t := trail[..|trail| - 1];
      assert (rest + trail)[..|rest + trail| - 1] == rest + t;
      TrimEndPadded(rest, t);
    } else {
      assert rest + trail == rest;
    }
  }

  predicate StartsWith(s: string, prefix: string)
  {
    |prefix| <= |s| && s[..|prefix|] == prefix
  }

  predicate EndsWith(s: string, suffix: string)
  {
    |suffix| <= |s| && s[|s| - |suffix|..] == suffix
  }

  /** `s.substring(0, n)` for `n >= 0`: the first `n` characters, or all of
      `s` when it is shorter. */
  function Prefix(s: string, n: nat): (r: string)
    ensures |r| == if |s| <= n then |s| else n
    ensures r == s[..|r|]
  {
    if |s| <= n then s else s[..n]
  }

  /** The marker appended to a shortened text. */
  const Ellipsis: string := "..."

  /** Whether `pat` occurs in `s` starting at position `i`. */
  predicate OccursAt(s: string, pat: string, i: nat)
  {
    i + |pat| <= |s| && s[i..i + |pat|] == pat
  }

  /** `s.indexOf(pat)`: the first position where `pat` occurs, if any. */
  function IndexOf(s: string, pat: string): (r: Option<nat>)
    ensures r.Some? ==> OccursAt(s, pat, r.value)
    ensures r.Some? ==> forall j :: 0 <= j < r.value ==> !OccursAt(s, pat, j)
    ensures r.None? ==> forall j :: 0 <= j <= |s| ==> !OccursAt(s, pat, j)
    decreases |s|
  {
    if |pat| > |s| then None
    else if s[..|pat|] == pat then assert OccursAt(s, pat, 0); Some(0)
    else
      var rest := IndexOf(s[1..], pat);
      ShiftOccurrence(s, pat);
      assert !OccursAt(s, pat, 0) by { assert s[0..|pat|] == s[..|pat|]; }
      match rest
      case None => None
      case Some(k) => Some(k + 1)
  }

  lemma ShiftOccurrence(s: string, pat: string)
    requires s != []
    ensures forall j :: 1 <= j <= |s| ==> (OccursAt(s, pat, j) <==> OccursAt(s[1..], pat, j - 1))
  {
    forall j | 1 <= j <= |s|
      ensures OccursAt(s, pat, j) <==> OccursAt(s[1..], pat, j - 1)
    {
      if j + |pat| <= |s| {
        assert s[1..][j - 1..j - 1 + |pat|] == s[j..j + |pat|];
      }
    }
  }

  /** The first occurrence is the one `IndexOf` finds. */
  lemma IndexOfFirst(s: string, pat: string, i: nat)
    requires OccursAt(s, pat, i)
    requires forall j :: 0 <= j < i ==> !OccursAt(s, pat, j)
    ensures IndexOf(s, pat) == Some(i)
  {
    var r := IndexOf(s, pat);
    assert r.Some?;
    assert !(r.value < i);
  }

  /** `s.replace(pat, "")` with a string pattern: deletes the first
      occurrence of `pat`, if there is one. */
  function RemoveFirst(s: string, pat: string): (r: string)
    ensures IndexOf(s, pat).None? ==> r == s
    ensures IndexOf(s, pat).Some? ==>
      var i := IndexOf(s, pat).value;
      |r| == |s| - |pat| && r == s[..i] + s[i + |pat|..]
  {
    match IndexOf(s, pat)
    case None => s
    case Some(i) => s[..i] + s[i + |pat|..]
  }
}
