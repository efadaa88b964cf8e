/**
 * The JavaScript string primitives the dashboard and the analytics helpers rely on:
 * `toLowerCase`, the whitespace class `\s`, `trim`, `replace(/\s+/g, ' ')`,
 * substring search (what an alternation regex without anchors tests for) and
 * `String(n)` for integers.
 */
module JsText {
  import opened Wrappers

  // ---------------------------------------------------------------------------
  // Characters
  // ---------------------------------------------------------------------------

  /** The code points ECMAScript counts as WhiteSpace or LineTerminator: what the
      regular-expression class `\s` matches and what `trim` removes. */
  predicate IsSpace(c: char) {
    || ('\t' <= c <= '\r') || c == ' '
    || c == '\U{00A0}' || c == '\U{1680}' || ('\U{2000}' <= c <= '\U{200A}')
    || c == '\U{2028}' || c == '\U{2029}' || c == '\U{202F}' || c == '\U{205F}'
    || c == '\U{3000}' || c == '\U{FEFF}'
  }

  /** `toLowerCase` on one character, for the Basic Latin capitals and the Cyrillic
      capitals U+0400–U+042F (Ё among them); every other character is left alone. */
  function LowerChar(c: char): char {
    if 'A' <= c <= 'Z' then (c as int + 32) as char
    else if '\U{0410}' <= c <= '\U{042F}' then (c as int + 32) as char
    else if '\U{0400}' <= c <= '\U{040F}' then (c as int + 80) as char
    else c
  }

  predicate IsLower(c: char) {
    LowerChar(c) == c
  }

  /** Lower-casing is idempotent and neither creates nor removes whitespace. */
  lemma LowerCharIdempotent(c: char)
    ensures IsLower(LowerChar(c))
    ensures IsSpace(LowerChar(c)) == IsSpace(c)
  {
  }

  // ---------------------------------------------------------------------------
  // toLowerCase
  // ---------------------------------------------------------------------------

  predicate AllLower(s: string) {
    forall i :: 0 <= i < |s| ==> IsLower(s[i])
  }

  /** `s.toLowerCase()`, character by character. */
  function ToLowerCase(s: string): (r: string)
    ensures |r| == |s|
    ensures forall i :: 0 <= i < |s| ==> r[i] == LowerChar(s[i])
  {
    seq(|s|, i requires 0 <= i < |s| => LowerChar(s[i]))
  }

  /** The result of `toLowerCase` is already lower case, so a second call changes nothing. */
  lemma ToLowerCaseIdempotent(s: string)
    ensures AllLower(ToLowerCase(s))
    ensures ToLowerCase(ToLowerCase(s)) == ToLowerCase(s)
  {
    forall i | 0 <= i < |s| ensures IsLower(ToLowerCase(s)[i]) {
      LowerCharIdempotent(s[i]);
    }
    LowerFixpoint(ToLowerCase(s));
  }

  lemma LowerFixpoint(s: string)
    requires AllLower(s)
    ensures ToLowerCase(s) == s
  {
  }

  // ---------------------------------------------------------------------------
  // Substring search
  // ---------------------------------------------------------------------------

  predicate StartsWith(s: string, p: string) {
    |p| <= |s| && s[..|p|] == p
  }

  /** `s.includes(p)`: an unanchored regular expression consisting of the literal `p`
      matches `s` exactly when `p` occurs in `s`. */
  predicate Contains(s: string, p: string)
    decreases |s|
  {
    StartsWith(s, p) || (s != [] && Contains(s[1..], p))
  }

  /** An unanchored alternation `/a|b|c/` matches when one of its alternatives occurs. */
  predicate ContainsAny(s: string, alternatives: seq<string>) {
    exists k :: 0 <= k < |alternatives| && Contains(s, alternatives[k])
  }

  /** An occurrence at any offset is found by `Contains`. */
  lemma {:induction false} ContainsAt(s: string, p: string, i: nat)
    requires i + |p| <= |s| && s[i..i + |p|] == p
    ensures Contains(s, p)
    decreases i
  {
    if i == 0 {
      assert s[..|p|] == p;
    } else {
      assert s[1..][i - 1..i - 1 + |p|] == s[i..i + |p|];
      ContainsAt(s[1..], p, i - 1);
    }
  }

  /** Conversely, `Contains` only holds when there is an occurrence at some offset. */
  lemma {:induction false} ContainsWitness(s: string, p: string) returns (i: nat)
    requires Contains(s, p)
    ensures i + |p| <= |s| && s[i..i + |p|] == p
    decreases |s|
  {
    if StartsWith(s, p) {
      i := 0;
    } else {
      var j := ContainsWitness(s[1..], p);
      assert s[1..][j..j + |p|] == s[j + 1..j + 1 + |p|];
      i := j + 1;
    }
  }

  lemma ToLowerCaseSlice(s: string, i: nat, j: nat)
    requires i <= j <= |s|
    ensures ToLowerCase(s)[i..j] == ToLowerCase(s[i..j])
  {
    var a := ToLowerCase(s)[i..j];
    var b := ToLowerCase(s[i..j]);
    forall k | 0 <= k < |a| ensures a[k] == b[k] {
      assert a[k] == ToLowerCase(s)[i + k] == LowerChar(s[i + k]);
      assert s[i..j][k] == s[i + k];
    }
  }

  /** Matching after `toLowerCase` is case-insensitive matching: wherever a stretch of
      the text, lower-cased, reads `p` (so `p` itself is lower case), `p` occurs in
      the lower-cased text. */
  lemma ContainsIgnoringCase(s: string, p: string, i: nat)
    requires i + |p| <= |s| && ToLowerCase(s[i..i + |p|]) == p
    ensures Contains(ToLowerCase(s), p)
  {
    ToLowerCaseSlice(s, i, i + |p|);
    ContainsAt(ToLowerCase(s), p, i);
  }

  // ---------------------------------------------------------------------------
  // trim and whitespace collapsing
  // ---------------------------------------------------------------------------

  /** The number of whitespace characters at the front of `s`. */
  function LeadingSpaces(s: string): (n: nat)
    ensures n <= |s|
    ensures n < |s| ==> !IsSpace(s[n])
  {
    if s != [] && IsSpace(s[0]) then 1 + LeadingSpaces(s[1..]) else 0
  }

  /** The number of whitespace characters at the end of `s`. */
  function TrailingSpaces(s: string): (n: nat)
    ensures n <= |s|
    ensures n < |s| ==> !IsSpace(s[|s| - 1 - n])
  {
    if s != [] && IsSpace(s[|s| - 1]) then 1 + TrailingSpaces(s[..|s| - 1]) else 0
  }

  /** Every character before `LeadingSpaces(s)` is whitespace. */
  lemma {:induction false} LeadingSpacesAreSpace(s: string)
    ensures forall k :: 0 <= k < LeadingSpaces(s) ==> IsSpace(s[k])
    decreases |s|
  {
    if s != [] && IsSpace(s[0]) {
      LeadingSpacesAreSpace(s[1..]);
      forall k | 0 < k < LeadingSpaces(s) ensures IsSpace(s[k]) {
        assert s[k] == s[1..][k - 1];
      }
    }
  }

  /** Every character in the last `TrailingSpaces(s)` is whitespace. */
  lemma {:induction false} TrailingSpacesAreSpace(s: string)
    ensures forall k :: |s| - TrailingSpaces(s) <= k < |s| ==> IsSpace(s[k])
    decreases |s|
  {
    if s != [] && IsSpace(s[|s| - 1]) {
      TrailingSpacesAreSpace(s[..|s| - 1]);
      forall k | |s| - TrailingSpaces(s) <= k < |s| - 1 ensures IsSpace(s[k]) {
        assert s[k] == s[..|s| - 1][k];
      }
    }
  }

  /** Leading whitespace removed (`trimStart`). */
  function TrimStart(s: string): (r: string)
    ensures r == [] || !IsSpace(r[0])
  {
    s[LeadingSpaces(s)..]
  }

  /** Trailing whitespace removed (`trimEnd`). */
  function TrimEnd(s: string): (r: string)
    ensures r == [] || !IsSpace(r[|r| - 1])
  {
    s[..|s| - TrailingSpaces(s)]
  }

  predicate NoEdgeSpace(s: string) {
    s == [] || (!IsSpace(s[0]) && !IsSpace(s[|s| - 1]))
  }

  /** `s.trim()`: `trimStart` followed by `trimEnd`. */
  function Trim(s: string): (r: string)
    ensures NoEdgeSpace(r)
  {
    var t := TrimStart(s);
    var r := TrimEnd(t);
    assert r != [] ==> r[0] == t[0];
    r
  }

  /** What `trim` removes is whitespace only: the result is the slice of `s` that
      starts after its leading whitespace, and everything after it is whitespace too. */
  lemma TrimRemovesOnlySpace(s: string)
    ensures LeadingSpaces(s) + |Trim(s)| <= |s|
    ensures Trim(s) == s[LeadingSpaces(s)..LeadingSpaces(s) + |Trim(s)|]
    ensures forall k :: 0 <= k < LeadingSpaces(s) ==> IsSpace(s[k])
    ensures forall k :: LeadingSpaces(s) + |Trim(s)| <= k < |s| ==> IsSpace(s[k])
  {
    TrimSlice(s);
    LeadingSpacesAreSpace(s);
    TrimTrailing(s);
  }

  lemma TrimSlice(s: string)
    ensures LeadingSpaces(s) + |Trim(s)| <= |s|
    ensures Trim(s) == s[LeadingSpaces(s)..LeadingSpaces(s) + |Trim(s)|]
  {
    var n := LeadingSpaces(s);
    var t := s[n..];
    var m := |t| - TrailingSpaces(t);
    TrimUnfold(s);
    SliceOfSuffix(s, n, m);
    assert Trim(s) == s[n..n + m];
  }

  lemma SliceOfSuffix<T>(s: seq<T>, n: nat, m: nat)
    requires n + m <= |s|
    ensures s[n..][..m] == s[n..n + m]
  {
  }

  lemma TrimTrailing(s: string)
    ensures forall k :: LeadingSpaces(s) + |Trim(s)| <= k < |s| ==> IsSpace(s[k])
  {
    var n := LeadingSpaces(s);
    var t := s[n..];
    var m := |t| - TrailingSpaces(t);
    TrimUnfold(s);
    assert |Trim(s)| == m;
    TrailingSpacesAreSpace(t);
    SpaceAfter(s, n, m);
  }

  lemma TrimUnfold(s: string)
    ensures var t := s[LeadingSpaces(s)..]; Trim(s) == t[..|t| - TrailingSpaces(t)]
  {
  }

  /** Whitespace after the first `m` characters of `s[n..]` is whitespace after
      `s[n..n + m]` in `s`. */
  lemma SpaceAfter(s: string, n: nat, m: nat)
    requires n + m <= |s|
    requires forall k :: m <= k < |s[n..]| ==> IsSpace(s[n..][k])
    ensures s[n..][..m] == s[n..n + m]
    ensures forall k :: n + m <= k < |s| ==> IsSpace(s[k])
  {
    forall k | n + m <= k < |s| ensures IsSpace(s[k]) {
      assert s[k] == s[n..][k - n];
    }
  }

  lemma TrimFixpoint(s: string)
    requires NoEdgeSpace(s)
    ensures Trim(s) == s
  {
    assert TrimStart(s) == s;
    assert TrimEnd(s) == s;
  }

  /** Whitespace in `s` is only the plain space, and never two in a row. */
  ghost predicate Collapsed(s: string) {
    && (forall i :: 0 <= i < |s| && IsSpace(s[i]) ==> s[i] == ' ')
    && (forall i, j :: 0 <= i < j < |s| && j == i + 1 ==> !(IsSpace(s[i]) && IsSpace(s[j])))
  }

  /** `s.replace(/\s+/g, ' ')`: every maximal run of whitespace becomes one space. */
  function CollapseSpaces(s: string): (r: string)
    ensures |r| <= |s|
    decreases |s|
  {
    if s == [] then []
    else if IsSpace(s[0]) then [' '] + CollapseSpaces(TrimStart(s[1..]))
    else [s[0]] + CollapseSpaces(s[1..])
  }

  /** Collapsing keeps the emptiness of a string and its first character, turned into
      a plain space if it was whitespace. */
  lemma CollapseSpacesHead(s: string)
    ensures s == [] <==> CollapseSpaces(s) == []
    ensures s != [] ==> CollapseSpaces(s)[0] == (if IsSpace(s[0]) then ' ' else s[0])
  {
  }

  /** After collapsing, whitespace is only the plain space and never two in a row. */
  lemma {:induction false} CollapseSpacesCollapsed(s: string)
    ensures Collapsed(CollapseSpaces(s))
    decreases |s|
  {
    if s != [] {
      var tail := if IsSpace(s[0]) then TrimStart(s[1..]) else s[1..];
      var c := if IsSpace(s[0]) then ' ' else s[0];
      CollapseSpacesCollapsed(tail);
      CollapseSpacesHead(tail);
      CollapsedCons(c, CollapseSpaces(tail));
    }
  }

  /** Collapsing a lower-case string gives a lower-case string. */
  lemma {:induction false} CollapseSpacesLower(s: string)
    requires AllLower(s)
    ensures AllLower(CollapseSpaces(s))
    decreases |s|
  {
    if s != [] {
      AllLowerDrop(s, 1);
      var tail := if IsSpace(s[0]) then TrimStart(s[1..]) else s[1..];
      AllLowerDrop(s[1..], LeadingSpaces(s[1..]));
      CollapseSpacesLower(tail);
      var c := if IsSpace(s[0]) then ' ' else s[0];
      assert IsLower(c);
      AllLowerCons(c, CollapseSpaces(tail));
    }
  }

  lemma AllLowerCons(c: char, r: string)
    requires IsLower(c) && AllLower(r)
    ensures AllLower([c] + r)
  {
    assert forall k :: 1 <= k < |r| + 1 ==> ([c] + r)[k] == r[k - 1];
  }

  /** Putting a character in front of a collapsed string keeps it collapsed unless
      it is whitespace other than a plain space, or whitespace before whitespace. */
  lemma CollapsedCons(c: char, r: string)
    requires Collapsed(r)
    requires IsSpace(c) ==> c == ' ' && (r == [] || !IsSpace(r[0]))
    ensures Collapsed([c] + r)
  {
    var t := [c] + r;
    forall i, j | 0 <= i < j < |t| && j == i + 1
      ensures !(IsSpace(t[i]) && IsSpace(t[j]))
    {
      if i > 0 {
        assert t[i] == r[i - 1] && t[j] == r[j - 1];
      }
    }
  }

  /** A string that is already collapsed is left unchanged by collapsing. */
  lemma {:induction false} CollapsedFixpoint(s: string)
    requires Collapsed(s)
    ensures CollapseSpaces(s) == s
    decreases |s|
  {
    if s != [] {
      CollapsedDrop(s, 1);
      CollapsedFixpoint(s[1..]);
      CollapseSpacesKeepsHead(s);
      assert s == [s[0]] + s[1..];
    }
  }

  /** Collapsing a collapsed string keeps its first character and moves on to the rest. */
  lemma CollapseSpacesKeepsHead(s: string)
    requires s != [] && Collapsed(s)
    ensures CollapseSpaces(s) == [s[0]] + CollapseSpaces(s[1..])
  {
    if IsSpace(s[0]) {
      var tail := s[1..];
      assert tail != [] ==> tail[0] == s[1] && !IsSpace(tail[0]);
      assert LeadingSpaces(tail) == 0;
    }
  }

  /** Every suffix of a collapsed string is collapsed. */
  lemma CollapsedDrop(s: string, i: nat)
    requires i <= |s| && Collapsed(s)
    ensures Collapsed(s[i..])
  {
    var t := s[i..];
    forall a, b | 0 <= a < b < |t| && b == a + 1
      ensures !(IsSpace(t[a]) && IsSpace(t[b]))
    {
      assert t[a] == s[i + a] && t[b] == s[i + a + 1];
    }
  }

  /** Every prefix of a collapsed string is collapsed. */
  lemma CollapsedTake(s: string, j: nat)
    requires j <= |s| && Collapsed(s)
    ensures Collapsed(s[..j])
  {
    var t := s[..j];
    forall a, b | 0 <= a < b < |t| && b == a + 1
      ensures !(IsSpace(t[a]) && IsSpace(t[b]))
    {
      assert t[a] == s[a] && t[b] == s[b];
    }
  }

  /** Trimming keeps a text collapsed and lower-case. */
  lemma TrimKeepsCollapsedLower(s: string)
    requires Collapsed(s) && AllLower(s)
    ensures Collapsed(Trim(s)) && AllLower(Trim(s))
  {
    var t := TrimStart(s);
    CollapsedDrop(s, LeadingSpaces(s));
    CollapsedTake(t, |t| - TrailingSpaces(t));
    AllLowerDrop(s, LeadingSpaces(s));
    AllLowerTake(t, |t| - TrailingSpaces(t));
  }

  lemma AllLowerDrop(s: string, i: nat)
    requires i <= |s| && AllLower(s)
    ensures AllLower(s[i..])
  {
    forall k | 0 <= k < |s| - i ensures IsLower(s[i..][k]) {
      assert s[i..][k] == s[i + k];
    }
  }

  lemma AllLowerTake(s: string, j: nat)
    requires j <= |s| && AllLower(s)
    ensures AllLower(s[..j])
  {
    forall k | 0 <= k < j ensures IsLower(s[..j][k]) {
      assert s[..j][k] == s[k];
    }
  }

  // What collapsing and trimming keep: every character that is not whitespace, in
  // order; and each whitespace run between two such stretches becomes one space.

  /** The characters of `s` that are not whitespace, in order. */
  function NonSpace(s: string): (r: string)
    ensures |r| <= |s|
    decreases |s|
  {
    if s == [] then []
    else if IsSpace(s[0]) then NonSpace(s[1..])
    else [s[0]] + NonSpace(s[1..])
  }

  predicate AllSpace(s: string) {
    forall k :: 0 <= k < |s| ==> IsSpace(s[k])
  }

  lemma {:induction false} NonSpaceAppend(a: string, b: string)
    ensures NonSpace(a + b) == NonSpace(a) + NonSpace(b)
    decreases |a|
  {
    if a == [] {
      assert a + b == b;
    } else {
      assert (a + b)[0] == a[0];
      assert (a + b)[1..] == a[1..] + b;
      NonSpaceAppend(a[1..], b);
    }
  }

  lemma {:induction false} NonSpaceOfSpaces(w: string)
    requires AllSpace(w)
    ensures NonSpace(w) == []
    decreases |w|
  {
    if w != [] {
      assert IsSpace(w[0]);
      forall k | 0 <= k < |w| - 1 ensures IsSpace(w[1..][k]) {
        assert w[1..][k] == w[k + 1];
      }
      NonSpaceOfSpaces(w[1..]);
    }
  }

  lemma NonSpaceTrimStart(s: string)
    ensures NonSpace(TrimStart(s)) == NonSpace(s)
  {
    var n := LeadingSpaces(s);
    LeadingSpacesAreSpace(s);
    assert s == s[..n] + s[n..];
    forall k | 0 <= k < n ensures IsSpace(s[..n][k]) {
      assert s[..n][k] == s[k];
    }
    NonSpaceAppend(s[..n], s[n..]);
    NonSpaceOfSpaces(s[..n]);
  }

  lemma NonSpaceTrimEnd(s: string)
    ensures NonSpace(TrimEnd(s)) == NonSpace(s)
  {
    var m := |s| - TrailingSpaces(s);
    TrailingSpacesAreSpace(s);
    assert s == s[..m] + s[m..];
    forall k | 0 <= k < |s| - m ensures IsSpace(s[m..][k]) {
      assert s[m..][k] == s[m + k];
    }
    NonSpaceAppend(s[..m], s[m..]);
    NonSpaceOfSpaces(s[m..]);
  }

  /** Trimming removes whitespace only. */
  lemma NonSpaceTrim(s: string)
    ensures NonSpace(Trim(s)) == NonSpace(s)
  {
    NonSpaceTrimStart(s);
    NonSpaceTrimEnd(TrimStart(s));
  }

  /** Collapsing keeps every character that is not whitespace, in order. */
  lemma {:induction false} CollapseSpacesKeepsNonSpace(s: string)
    ensures NonSpace(CollapseSpaces(s)) == NonSpace(s)
    decreases |s|
  {
    if s != [] {
      if IsSpace(s[0]) {
        var t := TrimStart(s[1..]);
        CollapseSpacesKeepsNonSpace(t);
        NonSpaceTrimStart(s[1..]);
        var c := CollapseSpaces(t);
        assert ([' '] + c)[1..] == c;
      } else {
        CollapseSpacesKeepsNonSpace(s[1..]);
        var c := CollapseSpaces(s[1..]);
        assert ([s[0]] + c)[1..] == c;
      }
    }
  }

  /** A whitespace run followed by a text that does not start with whitespace has
      exactly the run as leading whitespace. */
  lemma {:induction false} LeadingSpacesOfRun(w: string, b: string)
    requires AllSpace(w) && (b == [] || !IsSpace(b[0]))
    ensures LeadingSpaces(w + b) == |w|
    decreases |w|
  {
    if w == [] {
      assert w + b == b;
    } else {
      assert (w + b)[0] == w[0];
      assert (w + b)[1..] == w[1..] + b;
      forall k | 0 <= k < |w| - 1 ensures IsSpace(w[1..][k]) {
        assert w[1..][k] == w[k + 1];
      }
      LeadingSpacesOfRun(w[1..], b);
    }
  }

  /** Appending to a text that ends in a non-whitespace character leaves its leading
      whitespace alone. */
  lemma {:induction false} LeadingSpacesAppend(a: string, x: string)
    requires a != [] && !IsSpace(a[|a| - 1])
    ensures LeadingSpaces(a + x) == LeadingSpaces(a)
    decreases |a|
  {
    assert (a + x)[0] == a[0];
    if IsSpace(a[0]) {
      assert |a| > 1;
      assert (a + x)[1..] == a[1..] + x;
      assert a[1..][|a| - 2] == a[|a| - 1];
      LeadingSpacesAppend(a[1..], x);
    }
  }

  /** Collapsing works separately on a text that ends in a non-whitespace character
      and on what follows it. */
  lemma {:induction false} CollapseSpacesAppend(a: string, x: string)
    requires a != [] && !IsSpace(a[|a| - 1])
    ensures CollapseSpaces(a + x) == CollapseSpaces(a) + CollapseSpaces(x)
    decreases |a|
  {
    var c, a' := a[0], a[1..];
    assert a == [c] + a';
    if IsSpace(c) {
      assert |a| > 1;
      assert a'[|a'| - 1] == a[|a| - 1];
      TrimStartAppend(a', x);
      CollapseSpacesAppend(TrimStart(a'), x);
      AppendAfterSpace(c, a', x);
    } else if a' == [] {
      assert a + x == [c] + x;
      CollapseSpacesCons(c, x);
      CollapseSpacesCons(c, a');
    } else {
      assert a'[|a'| - 1] == a[|a| - 1];
      CollapseSpacesAppend(a', x);
      AppendAfterChar(c, a', x);
    }
  }

  /** The step of `CollapseSpacesAppend` for a text that starts with whitespace. */
  lemma AppendAfterSpace(c: char, a: string, x: string)
    requires IsSpace(c)
    requires TrimStart(a + x) == TrimStart(a) + x
    requires CollapseSpaces(TrimStart(a) + x) == CollapseSpaces(TrimStart(a)) + CollapseSpaces(x)
    ensures CollapseSpaces([c] + a + x) == CollapseSpaces([c] + a) + CollapseSpaces(x)
  {
    var t := TrimStart(a);
    calc {
      CollapseSpaces([c] + a + x);
    == { ConcatAssoc([c], a, x); }
      CollapseSpaces([c] + (a + x));
    == { CollapseSpacesCons(c, a + x); }
      [' '] + CollapseSpaces(t + x);
    ==
      [' '] + (CollapseSpaces(t) + CollapseSpaces(x));
    == { ConcatAssoc([' '], CollapseSpaces(t), CollapseSpaces(x)); }
      ([' '] + CollapseSpaces(t)) + CollapseSpaces(x);
    == { CollapseSpacesCons(c, a); }
      CollapseSpaces([c] + a) + CollapseSpaces(x);
    }
  }

  /** The step of `CollapseSpacesAppend` for a text that starts with another character. */
  lemma AppendAfterChar(c: char, a: string, x: string)
    requires !IsSpace(c)
    requires CollapseSpaces(a + x) == CollapseSpaces(a) + CollapseSpaces(x)
    ensures CollapseSpaces([c] + a + x) == CollapseSpaces([c] + a) + CollapseSpaces(x)
  {
    calc {
      CollapseSpaces([c] + a + x);
    == { ConcatAssoc([c], a, x); }
      CollapseSpaces([c] + (a + x));
    == { CollapseSpacesCons(c, a + x); }
      [c] + (CollapseSpaces(a) + CollapseSpaces(x));
    == { ConcatAssoc([c], CollapseSpaces(a), CollapseSpaces(x)); }
      ([c] + CollapseSpaces(a)) + CollapseSpaces(x);
    == { CollapseSpacesCons(c, a); }
      CollapseSpaces([c] + a) + CollapseSpaces(x);
    }
  }

  /** One step of collapsing, on a text written as its first character and the rest. */
  lemma CollapseSpacesCons(c: char, s: string)
    ensures CollapseSpaces([c] + s)
      == if IsSpace(c) then [' '] + CollapseSpaces(TrimStart(s)) else [c] + CollapseSpaces(s)
  {
    assert ([c] + s)[0] == c;
    assert ([c] + s)[1..] == s;
  }

  /** Trimming the front of a text that ends in a non-whitespace character, with
      something appended, trims the text alone and keeps what was appended. */
  lemma TrimStartAppend(a: string, x: string)
    requires a != [] && !IsSpace(a[|a| - 1])
    ensures TrimStart(a + x) == TrimStart(a) + x
    ensures TrimStart(a) != [] && TrimStart(a)[|TrimStart(a)| - 1] == a[|a| - 1]
    ensures |TrimStart(a)| <= |a|
  {
    LeadingSpacesAppend(a, x);
    var n := LeadingSpaces(a);
    assert (a + x)[n..] == a[n..] + x;
    LeadingSpacesAreSpace(a);
    assert n < |a|;
  }

  /** `replace(/\s+/g, ' ')` turns each maximal whitespace run into one space: a run
      after a text that does not end in whitespace and before one that does not start
      with it becomes a single plain space, and both sides are collapsed on their own.
      A run at the very start is `CollapseSpacesOfRun`. */
  lemma CollapseSpacesRun(a: string, w: string, b: string)
    requires a != [] && !IsSpace(a[|a| - 1])
    requires w != [] && AllSpace(w)
    requires b == [] || !IsSpace(b[0])
    ensures CollapseSpaces(a + w + b) == CollapseSpaces(a) + [' '] + CollapseSpaces(b)
  {
    CollapseSpacesOfRun(w, b);
    ConcatAssoc(a, w, b);
    CollapseSpacesAppend(a, w + b);
    JoinAround(CollapseSpaces(a + (w + b)), CollapseSpaces(a), [' '], CollapseSpaces(b));
  }

  lemma ConcatAssoc<T>(a: seq<T>, b: seq<T>, c: seq<T>)
    ensures a + b + c == a + (b + c)
  {
  }

  lemma JoinAround<T>(whole: seq<T>, left: seq<T>, mid: seq<T>, right: seq<T>)
    requires whole == left + (mid + right)
    ensures whole == left + mid + right
  {
  }

  /** A whitespace run at the start of a text becomes one plain space. */
  lemma CollapseSpacesOfRun(w: string, b: string)
    requires w != [] && AllSpace(w)
    requires b == [] || !IsSpace(b[0])
    ensures CollapseSpaces(w + b) == [' '] + CollapseSpaces(b)
  {
    var w' := w[1..];
    forall k | 0 <= k < |w'| ensures IsSpace(w'[k]) {
      assert w'[k] == w[k + 1];
    }
    assert (w + b)[0] == w[0];
    assert (w + b)[1..] == w' + b;
    LeadingSpacesOfRun(w', b);
    assert TrimStart(w' + b) == b by {
      assert (w' + b)[|w'|..] == b;
    }
  }

  // ---------------------------------------------------------------------------
  // Integers as decimal text
  // ---------------------------------------------------------------------------

  predicate IsDigit(c: char) {
    '0' <= c <= '9'
  }

  function DigitChar(d: nat): (c: char)
    requires d < 10
    ensures IsDigit(c)
  {
    ('0' as int + d) as char
  }

  function DigitValue(c: char): nat
    requires IsDigit(c)
  {
    c as int - '0' as int
  }

  /** `String(n)` for a non-negative integer: its decimal digits, without leading zeros. */
  function NatToString(n: nat): (r: string)
    ensures |r| >= 1
    ensures forall i :: 0 <= i < |r| ==> IsDigit(r[i])
    ensures (|r| == 1) == (n < 10)
  {
    if n < 10 then [DigitChar(n)] else NatToString(n / 10) + [DigitChar(n % 10)]
  }

  /** `String(i)` for an integer: a minus sign before the digits of a negative number. */
  function IntToString(i: int): string {
    if i < 0 then "-" + NatToString(-i) else NatToString(i)
  }

  /** Reads a non-empty run of decimal digits back; anything else is rejected. */
  function ParseNat(s: string): Option<nat>
    decreases |s|
  {
    if s == [] || !IsDigit(s[|s| - 1]) then None
    else if |s| == 1 then Some(DigitValue(s[0]))
    else match ParseNat(s[..|s| - 1])
      case None => None
      case Some(p) => Some(10 * p + DigitValue(s[|s| - 1]))
  }

  function ParseInt(s: string): Option<int> {
    if s != [] && s[0] == '-' then
      match ParseNat(s[1..])
      case None => None
      case Some(n) => Some(-(n as int))
    else ParseNat(s)
  }

  /** Reading the digits back gives the number that was written. */
  lemma {:induction false} ParseNatToString(n: nat)
    ensures ParseNat(NatToString(n)) == Some(n)
  {
    var s := NatToString(n);
    if n >= 10 {
      var d := n % 10;
      assert s == NatToString(n / 10) + [DigitChar(d)];
      assert s[..|s| - 1] == NatToString(n / 10);
      assert s[|s| - 1] == DigitChar(d);
      DigitRoundTrip(d);
      ParseNatToString(n / 10);
      assert ParseNat(s) == Some(10 * (n / 10) + d);
    } else {
      assert s == [DigitChar(n)];
      DigitRoundTrip(n);
    }
  }

  lemma DigitRoundTrip(d: nat)
    requires d < 10
    ensures DigitValue(DigitChar(d)) == d
  {
  }

  lemma ParseIntToString(i: int)
    ensures ParseInt(IntToString(i)) == Some(i)
  {
    if i < 0 {
      ParseNegative(-i);
    } else {
      ParseNonNegative(i);
    }
  }

  lemma ParseNegative(n: nat)
    ensures ParseInt("-" + NatToString(n)) == Some(-(n as int))
  {
    var s := "-" + NatToString(n);
    assert s[1..] == NatToString(n);
    ParseNatToString(n);
  }

  lemma ParseNonNegative(n: nat)
    ensures ParseInt(NatToString(n)) == Some(n)
  {
    var s := NatToString(n);
    assert IsDigit(s[0]);
    ParseNatToString(n);
  }

  // ---------------------------------------------------------------------------
  // String order
  // ---------------------------------------------------------------------------

  /** `a < b` on strings, the order of the default `Array.prototype.sort`: character
      by character, and a proper prefix before the longer string. */
  predicate LexLess(a: string, b: string)
    decreases |a|
  {
    b != [] && (a == [] || a[0] < b[0] || (a[0] == b[0] && LexLess(a[1..], b[1..])))
  }

  lemma {:induction false} LexLessIrreflexive(a: string)
    ensures !LexLess(a, a)
    decreases |a|
  {
    if a != [] {
      LexLessIrreflexive(a[1..]);
    }
  }

  lemma {:induction false} LexLessTransitive(a: string, b: string, c: string)
    requires LexLess(a, b) && LexLess(b, c)
    ensures LexLess(a, c)
    decreases |a|
  {
    if a != [] && a[0] == b[0] && b[0] == c[0] {
      LexLessTransitive(a[1..], b[1..], c[1..]);
    }
  }

  /** Any two different strings are ordered one way or the other. */
  lemma {:induction false} LexLessTotal(a: string, b: string)
    ensures a == b || LexLess(a, b) || LexLess(b, a)
    decreases |a|
  {
    if a != [] && b != [] && a[0] == b[0] {
      LexLessTotal(a[1..], b[1..]);
      if a[1..] == b[1..] {
        assert a == [a[0]] + a[1..] && b == [b[0]] + b[1..];
      }
    }
  }

  lemma LexLessAsymmetric(a: string, b: string)
    requires LexLess(a, b)
    ensures !LexLess(b, a)
  {
    if LexLess(b, a) {
      LexLessTransitive(a, b, a);
      LexLessIrreflexive(a);
    }
  }
}
