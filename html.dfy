/**
 * `escapeHtml` of the dashboard: the value is turned into a string and each of
 * `& < > "` is replaced by its entity; the apostrophe maps to itself.
 */
module Html {
  import opened JsText

  /** The JavaScript values the dashboard passes in. Numbers are integers. */
  datatype JsValue = Undefined | Null | Bool(b: bool) | Number(n: int) | NaN | Str(s: string)

  predicate Falsy(v: JsValue) {
    match v
    case Undefined => true
    case Null => true
    case Bool(b) => !b
    case Number(n) => n == 0
    case NaN => true
    case Str(s) => s == []
  }

  /** `String(v)`. */
  function ToJsString(v: JsValue): string {
    match v
    case Undefined => "undefined"
    case Null => "null"
    case Bool(b) => if b then "true" else "false"
    case Number(n) => IntToString(n)
    case NaN => "NaN"
    case Str(s) => s
  }

  /** The replacement for one character. */
  function EscapeChar(c: char): (r: string)
    ensures |r| >= 1
    ensures c !in "&<>\"" <==> r == [c]
    ensures c !in "&<>\"" <==> |r| == 1
    ensures forall k :: 0 <= k < |r| ==> r[k] !in "<>\""
  {
    match c
    case '&' => "&amp;"
    case '<' => "&lt;"
    case '>' => "&gt;"
    case '"' => "&quot;"
    case _ => [c]
  }

  /** The `replace(/[&<>"']/g, ...)` on a string. */
  function Escape(s: string): string {
    if s == [] then [] else EscapeChar(s[0]) + Escape(s[1..])
  }

  /** `escapeHtml(text)`: the empty string for every falsy value except `0`. */
  function EscapeHtml(v: JsValue): string {
    if Falsy(v) && v != Number(0) then [] else Escape(ToJsString(v))
  }

  /** Falsy values other than `0` give the empty string; `0` gives `"0"`. */
  lemma EscapeHtmlFalsy(v: JsValue)
    ensures Falsy(v) && v != Number(0) ==> EscapeHtml(v) == []
    ensures EscapeHtml(Number(0)) == "0"
  {
    assert Escape("0") == EscapeChar('0') + Escape([]);
  }

  /** The output never holds `<`, `>` or `"`. */
  lemma {:induction false} EscapeHasNoMarkup(s: string)
    ensures forall k :: 0 <= k < |Escape(s)| ==> Escape(s)[k] !in "<>\""
    decreases |s|
  {
    if s != [] {
      EscapeHasNoMarkup(s[1..]);
      var head := EscapeChar(s[0]);
      var rest := Escape(s[1..]);
      forall k | 0 <= k < |head + rest| ensures (head + rest)[k] !in "<>\"" {
        if k >= |head| {
          assert (head + rest)[k] == rest[k - |head|];
        }
      }
    }
  }

  /** Escaping never shortens a string. */
  lemma {:induction false} EscapeLonger(s: string)
    ensures |Escape(s)| >= |s|
    decreases |s|
  {
    if s != [] {
      EscapeLonger(s[1..]);
    }
  }

  /** A string is left as it is exactly when it holds none of `& < > "`; the
      apostrophe in particular is kept. */
  lemma {:induction false} EscapeUnchanged(s: string)
    ensures Escape(s) == s <==> forall k :: 0 <= k < |s| ==> s[k] !in "&<>\""
    decreases |s|
  {
    if s != [] {
      EscapeUnchanged(s[1..]);
      EscapeLonger(s[1..]);
      var head := EscapeChar(s[0]);
      var rest := Escape(s[1..]);
      assert Escape(s) == head + rest;
      if Escape(s) == s {
        assert |head| == 1;
        assert rest == (head + rest)[1..];
      }
      if forall k :: 0 <= k < |s| ==> s[k] !in "&<>\"" {
        assert forall k :: 0 <= k < |s[1..]| ==> s[1..][k] == s[k + 1];
        assert s == [s[0]] + s[1..];
      }
    }
  }

  /** Reading the entities back. */
  function Unescape(t: string): string
    decreases |t|
  {
    if t == [] then []
    else if |t| >= 5 && t[..5] == "&amp;" then "&" + Unescape(t[5..])
    else if |t| >= 4 && t[..4] == "&lt;" then "<" + Unescape(t[4..])
    else if |t| >= 4 && t[..4] == "&gt;" then ">" + Unescape(t[4..])
    else if |t| >= 6 && t[..6] == "&quot;" then "\"" + Unescape(t[6..])
    else [t[0]] + Unescape(t[1..])
  }

  lemma UnescapeChar(c: char, rest: string)
    ensures Unescape(EscapeChar(c) + rest) == [c] + Unescape(rest)
  {
    var t := EscapeChar(c) + rest;
    assert t[..|EscapeChar(c)|] == EscapeChar(c);
    assert t[|EscapeChar(c)|..] == rest;
    if c !in "&<>\"" {
      assert t[0] == c;
      assert |t| >= 4 ==> t[..4][0] == c;
      assert |t| >= 5 ==> t[..5][0] == c;
      assert |t| >= 6 ==> t[..6][0] == c;
    } else if c == '<' || c == '>' {
      assert t[..4] == EscapeChar(c);
      assert t[1] == EscapeChar(c)[1] != 'a';
      assert |t| >= 5 ==> t[..5][1] == t[1];
    } else if c == '"' {
      assert t[..6] == EscapeChar(c);
      assert t[1] == 'q';
      assert t[..5][1] == t[..4][1] == t[1];
    } else {
      assert t[..5] == EscapeChar(c);
    }
  }

  /** Nothing is lost: unescaping the output gives the input back. */
  lemma {:induction false} UnescapeEscape(s: string)
    ensures Unescape(Escape(s)) == s
    decreases |s|
  {
    if s != [] {
      UnescapeEscape(s[1..]);
      UnescapeChar(s[0], Escape(s[1..]));
      assert s == [s[0]] + s[1..];
    }
  }

  /** A special character comes out as an entity, which starts with `&`. */
  lemma {:induction false} SpecialGivesAmpersand(s: string, i: nat)
    requires i < |s| && s[i] in "&<>\""
    ensures '&' in Escape(s)
    decreases i
  {
    var head := EscapeChar(s[0]);
    assert Escape(s) == head + Escape(s[1..]);
    if i == 0 {
      assert Escape(s)[0] == head[0] == '&';
    } else {
      assert s[1..][i - 1] == s[i];
      SpecialGivesAmpersand(s[1..], i - 1);
      var r := Escape(s[1..]);
      var k :| 0 <= k < |r| && r[k] == '&';
      assert Escape(s)[|head| + k] == '&';
    }
  }

  /** Escaping twice equals escaping once exactly for the strings escaping leaves
      unchanged: any `& < > "` in the input produces an `&` that is escaped again. */
  lemma EscapeTwice(s: string)
    ensures Escape(Escape(s)) == Escape(s) <==> forall k :: 0 <= k < |s| ==> s[k] !in "&<>\""
  {
    EscapeUnchanged(s);
    EscapeUnchanged(Escape(s));
    if exists i :: 0 <= i < |s| && s[i] in "&<>\"" {
      var i :| 0 <= i < |s| && s[i] in "&<>\"";
      SpecialGivesAmpersand(s, i);
      var t := Escape(s);
      var k :| 0 <= k < |t| && t[k] == '&';
      assert t[k] in "&<>\"";
    }
  }
}
