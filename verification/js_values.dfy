/** The JavaScript values the endpoints read out of parsed JSON bodies, with
    the language rules the source leans on: truthiness, `String(v)`, and
    `String.prototype.trim`. */
module JsValues {
  import opened Strings

  /** A JSON scalar as the request body parser produces it. Numbers are
      integers here. */
  datatype JsVal = JStr(str: string) | JNum(num: int) | JBool(flag: bool) | JNull

  /** A parsed JSON object: key to value; an absent key reads as `undefined`. */
  type Object = map<string, JsVal>

  /** JavaScript truthiness: `""`, `0`, `false` and `null` are falsy. */
  predicate Truthy(v: JsVal) {
    match v
    case JStr(s) => s != ""
    case JNum(n) => n != 0
    case JBool(b) => b
    case JNull => false
  }

  /** `o[key]` is truthy; `undefined` (absent key) is falsy. */
  predicate TruthyKey(o: Object, key: string) {
    key in o && Truthy(o[key])
  }

  /** `String(v)`, also what a template literal `${v}` inserts. */
  function ToStr(v: JsVal): string
  {
    match v
    case JStr(s) => s
    case JNum(n) => IntToDecimal(n)
    case JBool(b) => if b then "true" else "false"
    case JNull => "null"
  }

  /** `o[key] || fallback` rendered as text, as `textContent = o[key] || ''` does. */
  function TextOr(o: Object, key: string, fallback: string): (s: string)
    ensures TruthyKey(o, key) ==> s == ToStr(o[key])
    ensures !TruthyKey(o, key) ==> s == fallback
  {
    if TruthyKey(o, key) then ToStr(o[key]) else fallback
  }

  /** The characters `trim` removes: ECMAScript WhiteSpace (tab, vertical tab,
      form feed, space, no-break space, byte order mark and the other space
      separators) and LineTerminator. */
  predicate IsJsWhitespace(c: char) {
    || c == '\t' || c == '\U{000B}' || c == '\U{000C}' || c == ' ' || c == '\U{00A0}'
    || c == '\U{FEFF}' || c == '\U{1680}' || ('\U{2000}' <= c <= '\U{200A}')
    || c == '\U{202F}' || c == '\U{205F}' || c == '\U{3000}'
    || c == '\n' || c == '\r' || c == '\U{2028}' || c == '\U{2029}'
  }

  predicate AllWhitespace(s: string) {
    forall i :: 0 <= i < |s| ==> IsJsWhitespace(s[i])
  }

  /** Drops leading whitespace (see `TrimStartSpec`). */
  function TrimStart(s: string): (r: string)
    ensures |r| <= |s|
    decreases |s|
  {
    if |s| > 0 && IsJsWhitespace(s[0]) then TrimStart(s[1..]) else s
  }

  /** The result is the suffix that starts at the first non-whitespace
      character. */
  lemma {:induction false} TrimStartSpec(s: string)
    ensures var r := TrimStart(s);
            && r == s[|s| - |r|..]
            && AllWhitespace(s[..|s| - |r|])
            && (|r| > 0 ==> !IsJsWhitespace(r[0]))
    decreases |s|
  {
    if |s| > 0 && IsJsWhitespace(s[0]) {
      TrimStartSpec(s[1..]);
      var r := TrimStart(s[1..]);
      assert s[..|s| - |r|] == [s[0]] + s[1..][..|s[1..]| - |r|];
    }
  }

  /** Drops trailing whitespace (see `TrimEndSpec`). */
  function TrimEnd(s: string): (r: string)
    ensures |r| <= |s|
    decreases |s|
  {
    if |s| > 0 && IsJsWhitespace(s[|s| - 1]) then TrimEnd(s[..|s| - 1]) else s
  }

  /** The result is the prefix that ends at the last non-whitespace
      character. */
  lemma {:induction false} TrimEndSpec(s: string)
    ensures var r := TrimEnd(s);
            && r == s[..|r|]
            && AllWhitespace(s[|r|..])
            && (|r| > 0 ==> !IsJsWhitespace(r[|r| - 1]))
    decreases |s|
  {
    if |s| > 0 && IsJsWhitespace(s[|s| - 1]) {
      TrimEndSpec(s[..|s| - 1]);
      var r := TrimEnd(s[..|s| - 1]);
      assert s[|r|..] == s[..|s| - 1][|r|..] + [s[|s| - 1]];
    }
  }

  /** `s.trim()`. */
  function Trim(s: string): string {
    TrimEnd(TrimStart(s))
  }

  /** Trimming leaves the empty string exactly when every character is
      whitespace; otherwise it keeps a middle part of `s` that neither starts
      nor ends with whitespace, and only whitespace was cut around it. */
  lemma TrimSpec(s: string)
    ensures Trim(s) == "" <==> AllWhitespace(s)
    ensures Trim(s) != "" ==> !IsJsWhitespace(Trim(s)[0]) && !IsJsWhitespace(Trim(s)[|Trim(s)| - 1])
    ensures exists i :: 0 <= i <= i + |Trim(s)| <= |s| && Trim(s) == s[i..i + |Trim(s)|]
              && AllWhitespace(s[..i]) && AllWhitespace(s[i + |Trim(s)|..])
  {
    TrimStartSpec(s);
    TrimEndSpec(TrimStart(s));
    var a := TrimStart(s);
    var r := TrimEnd(a);
    var i := |s| - |a|;
    assert s[i..] == a;
    assert r == s[i..i + |r|];
    assert s[i + |r|..] == a[|r|..];
    if r == "" {
      assert s == s[..i] + a;
      assert a == a[|r|..];
      assert AllWhitespace(s);
    } else {
      assert !IsJsWhitespace(s[i]);
    }
  }

  /** `String(v).trim() === ''`, stated as "every character is white
      space" (see `IsBlankTrims`). */
  predicate IsBlank(v: JsVal) {
    AllWhitespace(ToStr(v))
  }

  lemma IsBlankTrims(v: JsVal)
    ensures IsBlank(v) <==> Trim(ToStr(v)) == ""
  {
    TrimSpec(ToStr(v));
  }
}
