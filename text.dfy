/** String primitives the matcher and the searcher rely on: Python's
    `str.isspace`, `str.strip()`, `str.lower()`, `str.split()` with no
    argument, and the substring test `x in s`. */
module Text {

  /** The characters Python's `str.isspace()` accepts; `split()` and
      `strip()` without arguments cut on exactly these. */
  predicate IsSpace(c: char) {
    || c == ' '
    || ('\t' <= c <= '\r')
    || ('\U{1C}' <= c <= '\U{1F}')
    || c == '\U{85}' || c == '\U{A0}' || c == '\U{1680}'
    || ('\U{2000}' <= c <= '\U{200A}')
    || c == '\U{2028}' || c == '\U{2029}' || c == '\U{202F}'
    || c == '\U{205F}' || c == '\U{3000}'
  }

  predicate AllSpace(s: string) {
    forall k :: 0 <= k < |s| ==> IsSpace(s[k])
  }

  /** A token of `split()`: non-empty and free of whitespace. */
  predicate IsWord(w: string) {
    w != [] && forall k :: 0 <= k < |w| ==> !IsSpace(w[k])
  }

  predicate IsUpper(c: char) {
    'A' <= c <= 'Z'
  }

  function LowerChar(c: char): char {
    if IsUpper(c) then (c as int + 32) as char else c
  }

  /** `s.lower()` restricted to the ASCII letters. */
  function ToLower(s: string): (r: string)
    ensures |r| == |s|
    ensures forall k :: 0 <= k < |r| ==> !IsUpper(r[k])
    ensures forall k :: 0 <= k < |r| ==> (IsSpace(r[k]) <==> IsSpace(s[k]))
    ensures forall k :: 0 <= k < |r| ==> r[k] == s[k] || (IsUpper(s[k]) && r[k] as int == s[k] as int + 32)
  {
    seq(|s|, k requires 0 <= k < |s| => LowerChar(s[k]))
  }

  lemma AllSpaceConcat(a: string, b: string)
    requires AllSpace(a) && AllSpace(b)
    ensures AllSpace(a + b)
  {
    forall k | 0 <= k < |a + b| ensures IsSpace((a + b)[k]) {
      if k < |a| {
        assert (a + b)[k] == a[k];
      } else {
        assert (a + b)[k] == b[k - |a|];
      }
    }
  }

  /** Index of the first non-whitespace character, or |s| if there is none. */
  function TextStart(s: string): (i: nat)
    ensures i <= |s|
    ensures AllSpace(s[..i])
    ensures i < |s| ==> !IsSpace(s[i])
  {
    if s == [] || !IsSpace(s[0]) then 0
    else
      var i := TextStart(s[1..]);
      assert s[..1 + i] == [s[0]] + s[1..][..i];
      AllSpaceConcat([s[0]], s[1..][..i]);
      1 + i
  }

  /** One past the last non-whitespace character, or 0 if there is none. */
  function TextEnd(s: string): (j: nat)
    ensures j <= |s|
    ensures AllSpace(s[j..])
    ensures j > 0 ==> !IsSpace(s[j - 1])
  {
    if s == [] || !IsSpace(s[|s| - 1]) then |s|
    else
      var t := s[..|s| - 1];
      var j := TextEnd(t);
      assert s[j..] == t[j..] + [s[|s| - 1]];
      AllSpaceConcat(t[j..], [s[|s| - 1]]);
      assert j > 0 ==> s[j - 1] == t[j - 1];
      j
  }

  /** `s.strip()`: what is left after removing leading and trailing
      whitespace; `StripIsTrimmedSlice` says which slice of `s` that is. */
  function Strip(s: string): (r: string)
    ensures r == [] || (!IsSpace(r[0]) && !IsSpace(r[|r| - 1]))
    ensures r == [] <==> AllSpace(s)
  {
    var i := TextStart(s);
    var j := TextEnd(s[i..]);
    StripBounds(s, i, j);
    s[i..][..j]
  }

  /** `strip()` removes whitespace only, and only at the two ends. */
  lemma StripIsTrimmedSlice(s: string)
    ensures var i, r := TextStart(s), Strip(s);
            && i + |r| <= |s|
            && r == s[i..i + |r|]
            && AllSpace(s[..i])
            && AllSpace(s[i + |r|..])
  {
    var i := TextStart(s);
    var t := s[i..];
    var j := TextEnd(t);
    assert t[..j] == s[i..i + j];
    assert t[j..] == s[i + j..];
  }

  lemma StripBounds(s: string, i: nat, j: nat)
    requires i == TextStart(s) && j == TextEnd(s[i..])
    ensures j == 0 <==> AllSpace(s)
    ensures j > 0 ==> !IsSpace(s[i]) && !IsSpace(s[i + j - 1])
  {
    if j == 0 {
      BlankWhenNoText(s, i);
    } else {
      TextEdges(s, i, j);
    }
  }

  lemma TextEdges(s: string, i: nat, j: nat)
    requires i == TextStart(s) && j == TextEnd(s[i..]) && j > 0
    ensures !IsSpace(s[i]) && !IsSpace(s[i + j - 1]) && !AllSpace(s)
  {
    var t := s[i..];
    assert |t| == |s| - i && j <= |t|;
    assert t[0] == s[i];
    assert t[j - 1] == s[i + j - 1];
  }

  lemma BlankWhenNoText(s: string, i: nat)
    requires i == TextStart(s) && TextEnd(s[i..]) == 0
    ensures AllSpace(s)
  {
    assert i == |s|;
    assert s[..i] == s;
  }

  /** A string with no whitespace at either end is its own `strip()`. */
  lemma StripTrimmed(s: string)
    requires s != [] && !IsSpace(s[0]) && !IsSpace(s[|s| - 1])
    ensures Strip(s) == s
  {
    assert TextStart(s) == 0;
    assert s[0..] == s;
    assert TextEnd(s) == |s|;
  }

  /** The normalisation the matcher applies to both sides: `s.strip().lower()`. */
  function Normalize(s: string): (r: string)
    ensures |r| <= |s|
    ensures r == [] <==> AllSpace(s)
    ensures r == [] || (!IsSpace(r[0]) && !IsSpace(r[|r| - 1]))
    ensures forall k :: 0 <= k < |r| ==> !IsUpper(r[k])
  {
    StripIsTrimmedSlice(s);
    ToLower(Strip(s))
  }

  /** Normalising an already normalised string changes nothing, so a name
      stored as `strip().lower()` of itself passes through unchanged. */
  lemma NormalizeIdempotent(s: string)
    ensures Normalize(Normalize(s)) == Normalize(s)
  {
    var n := Normalize(s);
    if n != [] {
      StripTrimmed(n);
    }
    ToLowerIdempotent(Strip(s));
  }

  /** Length of the leading run of non-whitespace characters. */
  function WordEnd(s: string): (n: nat)
    ensures n <= |s|
    ensures forall k :: 0 <= k < n ==> !IsSpace(s[k])
    ensures n < |s| ==> IsSpace(s[n])
  {
    if s == [] || IsSpace(s[0]) then 0 else 1 + WordEnd(s[1..])
  }

  /** `s.split()`: the maximal runs of non-whitespace characters, in order;
      leading, trailing and repeated whitespace yield no empty tokens. */
  function Split(s: string): (r: seq<string>)
    ensures forall i :: 0 <= i < |r| ==> IsWord(r[i])
    decreases |s|
  {
    if s == [] then []
    else if IsSpace(s[0]) then Split(s[1..])
    else
      var n := WordEnd(s);
      [s[..n]] + Split(s[n..])
  }

  /** `" ".join(ws)`, the partner of `Split`. */
  function Join(ws: seq<string>): string {
    if |ws| == 0 then []
    else if |ws| == 1 then ws[0]
    else ws[0] + " " + Join(ws[1..])
  }

  /** Python's `w in s` on two strings: `w` occurs contiguously in `s`. */
  predicate IsSubstring(w: string, s: string) {
    exists i :: 0 <= i <= |s| && w <= s[i..]
  }

  lemma SubstringLength(w: string, s: string)
    requires IsSubstring(w, s)
    ensures |w| <= |s|
    ensures |w| == |s| ==> w == s
  {
    var i :| 0 <= i <= |s| && w <= s[i..];
    if |w| == |s| {
      assert i == 0;
    }
  }

  lemma SubstringOfSuffix(w: string, s: string, n: nat)
    requires n <= |s|
    requires IsSubstring(w, s[n..])
    ensures IsSubstring(w, s)
  {
    var i :| 0 <= i <= |s[n..]| && w <= s[n..][i..];
    assert s[n..][i..] == s[n + i..];
  }

  lemma WordEndOfWordThenSpace(w: string, rest: string)
    requires IsWord(w)
    requires rest == [] || IsSpace(rest[0])
    ensures WordEnd(w + rest) == |w|
  {
    if rest != [] {
      assert (w + rest)[|w|] == rest[0];
    }
  }

  lemma SplitLeadingSpace(c: char, s: string)
    requires IsSpace(c)
    ensures Split([c] + s) == Split(s)
  {
    assert ([c] + s)[1..] == s;
  }

  /** Leading whitespace of any length yields no token. */
  lemma {:induction false} SplitSpaces(sp: string, s: string)
    requires AllSpace(sp)
    ensures Split(sp + s) == Split(s)
    decreases |sp|
  {
    if sp != [] {
      assert AllSpace(sp[1..]);
      SplitSpaces(sp[1..], s);
      assert sp + s == [sp[0]] + (sp[1..] + s);
      SplitLeadingSpace(sp[0], sp[1..] + s);
    } else {
      assert sp + s == s;
    }
  }

  /** A word followed by whitespace or by nothing is the next token.
      With `SplitSpaces` and `Split([]) == []` this fixes `split()` on every
      string: its tokens are the maximal non-whitespace runs, in order. */
  lemma SplitWord(w: string, rest: string)
    requires IsWord(w)
    requires rest == [] || IsSpace(rest[0])
    ensures Split(w + rest) == [w] + Split(rest)
  {
    WordEndOfWordThenSpace(w, rest);
    var s := w + rest;
    assert s[0] == w[0];
    assert s[..|w|] == w;
    assert s[|w|..] == rest;
  }

  /** Splitting a space-joined list of words gives the words back. */
  lemma {:induction false} SplitJoin(ws: seq<string>)
    requires forall i :: 0 <= i < |ws| ==> IsWord(ws[i])
    ensures Split(Join(ws)) == ws
    decreases |ws|
  {
    if |ws| == 0 {
    } else if |ws| == 1 {
      var w := ws[0];
      WordEndOfWordThenSpace(w, []);
      assert w + [] == w;
      assert w[..|w|] == w;
      assert w[|w|..] == [];
    } else {
      var w, rest := ws[0], Join(ws[1..]);
      var s := w + " " + rest;
      assert s == w + (" " + rest);
      WordEndOfWordThenSpace(w, " " + rest);
      assert s[..|w|] == w;
      assert s[|w|..] == [' '] + rest;
      SplitLeadingSpace(' ', rest);
      SplitJoin(ws[1..]);
      assert ws == [w] + ws[1..];
    }
  }

  /** `split()` yields no token exactly when the string is all whitespace. */
  lemma {:induction false} SplitEmptyIffBlank(s: string)
    ensures Split(s) == [] <==> AllSpace(s)
    decreases |s|
  {
    if s != [] {
      if IsSpace(s[0]) {
        SplitEmptyIffBlank(s[1..]);
        if AllSpace(s[1..]) {
          forall k | 0 <= k < |s| ensures IsSpace(s[k]) {
            if k > 0 { assert s[k] == s[1..][k - 1]; }
          }
        } else {
          var k :| 0 <= k < |s[1..]| && !IsSpace(s[1..][k]);
          assert s[k + 1] == s[1..][k];
        }
      }
    }
  }

  /** Every token of `split()` occurs in the string it was cut from. */
  lemma {:induction false} TokensAreSubstrings(s: string)
    ensures forall w :: w in Split(s) ==> IsSubstring(w, s)
    decreases |s|
  {
    if s != [] {
      if IsSpace(s[0]) {
        TokensAreSubstrings(s[1..]);
        forall w | w in Split(s) ensures IsSubstring(w, s) {
          SubstringOfSuffix(w, s, 1);
        }
      } else {
        var n := WordEnd(s);
        TokensAreSubstrings(s[n..]);
        forall w | w in Split(s) ensures IsSubstring(w, s) {
          if w == s[..n] {
            assert w <= s[0..];
          } else {
            assert w in Split(s[n..]);
            SubstringOfSuffix(w, s, n);
          }
        }
      }
    }
  }

  /** Lower-casing is idempotent. */
  lemma ToLowerIdempotent(s: string)
    ensures ToLower(ToLower(s)) == ToLower(s)
  {
  }
}
