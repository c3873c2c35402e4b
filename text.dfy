/**
 * The string operations of Python that the quiz game relies on:
 * `str.strip()`, `str.rstrip(chars)`, `str.lower()` (ASCII letters only),
 * `str.split()` with no separator, and the single-space joining of words
 * that the wrapper's `current_line += " " + word` performs.
 */
module Text {

  /**
   * The characters Python's `str.isspace()` accepts; `strip()` and `split()` use this set.
   * The usual separators are in it, and no visible ASCII character is.
   */
  predicate IsSpace(c: char)
    ensures c == ' ' || c == '\t' || c == '\n' || c == '\r' ==> IsSpace(c)
    ensures ' ' < c <= '~' ==> !IsSpace(c)
  {
    || c == ' '
    || '\t' <= c <= '\r'
    || '\U{001C}' <= c <= '\U{001F}'
    || c == '\U{0085}' || c == '\U{00A0}' || c == '\U{1680}'
    || '\U{2000}' <= c <= '\U{200A}'
    || c == '\U{2028}' || c == '\U{2029}' || c == '\U{202F}' || c == '\U{205F}' || c == '\U{3000}'
  }

  /** Python's `string.punctuation`: the printable ASCII characters that are neither letters, digits nor space. */
  predicate IsPunctuation(c: char)
    ensures IsPunctuation(c) <==>
              && ' ' < c <= '~'
              && !('a' <= c <= 'z') && !('A' <= c <= 'Z') && !('0' <= c <= '9')
  {
    || '!' <= c <= '/'
    || ':' <= c <= '@'
    || '[' <= c <= '`'
    || '{' <= c <= '~'
  }

  /** The two sets of characters the game strips from strings. */
  datatype CharClass = Whitespace | Punctuation

  predicate InClass(c: char, cs: CharClass) {
    match cs
    case Whitespace => IsSpace(c)
    case Punctuation => IsPunctuation(c)
  }

  /** Every character of `s` is in `cs`. */
  predicate AllIn(s: string, cs: CharClass) {
    forall i :: 0 <= i < |s| ==> InClass(s[i], cs)
  }

  /** The first position at or after `i` whose character is not in `cs` (or `|s|`). */
  function SkipForward(s: string, cs: CharClass, i: nat): (k: nat)
    requires i <= |s|
    ensures i <= k <= |s|
    ensures k < |s| ==> !InClass(s[k], cs)
    ensures AllIn(s[i..k], cs)
    decreases |s| - i
  {
    if i < |s| && InClass(s[i], cs) then
      var k := SkipForward(s, cs, i + 1);
      assert s[i..k] == [s[i]] + s[i + 1..k];
      k
    else i
  }

  /** The last position at or before `j`, and not before `lo`, that follows a character not in `cs`. */
  function SkipBackward(s: string, cs: CharClass, lo: nat, j: nat): (k: nat)
    requires lo <= j <= |s|
    ensures lo <= k <= j
    ensures k > lo ==> !InClass(s[k - 1], cs)
    ensures AllIn(s[k..j], cs)
    decreases j
  {
    if j > lo && InClass(s[j - 1], cs) then
      var k := SkipBackward(s, cs, lo, j - 1);
      assert s[k..j] == s[k..j - 1] + [s[j - 1]];
      k
    else j
  }

  /** `s.rstrip(cs)`: drops every trailing character that is in `cs`. */
  function TrimRight(s: string, cs: CharClass): (r: string)
    ensures |r| <= |s| && r == s[..|r|]
    ensures AllIn(s[|r|..], cs)
    ensures r != [] ==> !InClass(r[|r| - 1], cs)
  {
    s[..SkipBackward(s, cs, 0, |s|)]
  }

  /** The number of leading whitespace characters of `s`. */
  function LeadingSpaces(s: string): (k: nat)
    ensures k <= |s|
  {
    SkipForward(s, Whitespace, 0)
  }

  /** The end of the text of `s` once its trailing whitespace is dropped. */
  function TextEnd(s: string): (k: nat)
    ensures LeadingSpaces(s) <= k <= |s|
  {
    SkipBackward(s, Whitespace, LeadingSpaces(s), |s|)
  }

  /** `s.strip()`: the part of `s` between its leading and its trailing whitespace. */
  function Strip(s: string): (r: string)
    ensures IsStripped(r)
  {
    s[LeadingSpaces(s)..TextEnd(s)]
  }

  /** `strip()` cuts a slice out of `s` and drops only whitespace on either side of it. */
  lemma StripSlice(s: string)
    ensures Strip(s) == s[LeadingSpaces(s)..TextEnd(s)]
    ensures AllSpace(s[..LeadingSpaces(s)])
    ensures AllSpace(s[TextEnd(s)..])
  {
    assert s[..LeadingSpaces(s)] == s[0..LeadingSpaces(s)];
  }

  /** A string with no whitespace at either end. */
  predicate IsStripped(s: string) {
    s != [] ==> !IsSpace(s[0]) && !IsSpace(s[|s| - 1])
  }

  predicate AllSpace(s: string) {
    AllIn(s, Whitespace)
  }

  lemma {:induction false} SkipForwardSpaces(ws: string, x: string, i: nat)
    requires i <= |ws| && AllSpace(ws)
    requires x != [] ==> !IsSpace(x[0])
    ensures SkipForward(ws + x, Whitespace, i) == |ws|
    decreases |ws| - i
  {
    var s := ws + x;
    if i < |ws| {
      assert s[i] == ws[i];
      SkipForwardSpaces(ws, x, i + 1);
    } else if x != [] {
      assert s[i] == x[0];
    }
  }

  lemma {:induction false} SkipBackwardSpaces(s: string, x: nat, lo: nat, j: nat)
    requires lo <= x <= j <= |s|
    requires AllSpace(s[x..])
    requires x > lo ==> !IsSpace(s[x - 1])
    ensures SkipBackward(s, Whitespace, lo, j) == x
    decreases j
  {
    if j > x {
      assert s[j - 1] == s[x..][j - 1 - x];
      SkipBackwardSpaces(s, x, lo, j - 1);
    }
  }

  /** `strip()` removes exactly the whitespace padding around a stripped string. */
  lemma StripPadded(lead: string, x: string, trail: string)
    requires AllSpace(lead) && AllSpace(trail) && IsStripped(x)
    ensures Strip(lead + x + trail) == x
  {
    var s := lead + x + trail;
    if x == [] {
      assert s == (lead + trail) + [];
      assert AllSpace(lead + trail);
      SkipForwardSpaces(lead + trail, [], 0);
    } else {
      assert s == lead + (x + trail);
      SkipForwardSpaces(lead, x + trail, 0);
      assert s[|lead| + |x|..] == trail;
      assert s[|lead| + |x| - 1] == x[|x| - 1];
      SkipBackwardSpaces(s, |lead| + |x|, |lead|, |s|);
      assert s[|lead|..|lead| + |x|] == x;
    }
  }

  /** `strip()` leaves a stripped string as it is. */
  lemma StripOfStripped(t: string)
    requires IsStripped(t)
    ensures Strip(t) == t
  {
    assert "" + t + "" == t;
    StripPadded("", t, "");
  }

  predicate IsUpper(c: char) {
    'A' <= c <= 'Z'
  }

  function LowerChar(c: char): (d: char)
    ensures !IsUpper(d)
    ensures IsUpper(c) ==> d as int == c as int + 32
    ensures !IsUpper(c) ==> d == c
  {
    if IsUpper(c) then (c as int + 32) as char else c
  }

  /** `s.lower()`, restricted to the ASCII letters. */
  function Lower(s: string): (r: string)
    ensures |r| == |s|
    ensures forall i :: 0 <= i < |s| ==> r[i] == LowerChar(s[i])
  {
    seq(|s|, i requires 0 <= i < |s| => LowerChar(s[i]))
  }

  /** `lower()` changes only letters, so it keeps whitespace and punctuation as they are. */
  lemma LowerKeepsClass(c: char, cs: CharClass)
    ensures InClass(LowerChar(c), cs) == InClass(c, cs)
    ensures InClass(c, cs) ==> LowerChar(c) == c
  {
  }

  /** Whitespace and punctuation are disjoint. */
  lemma PunctuationIsNotSpace(c: char)
    requires IsPunctuation(c)
    ensures !IsSpace(c)
  {
  }

  /** Lowering twice lowers once. */
  lemma LowerLower(s: string)
    ensures Lower(Lower(s)) == Lower(s)
  {
  }

  lemma LowerAppend(a: string, b: string)
    ensures Lower(a + b) == Lower(a) + Lower(b)
  {
  }

  lemma LowerSlice(s: string, i: nat, j: nat)
    requires i <= j <= |s|
    ensures Lower(s[i..j]) == Lower(s)[i..j]
  {
  }

  lemma {:induction false} SkipForwardLower(s: string, cs: CharClass, i: nat)
    requires i <= |s|
    ensures SkipForward(Lower(s), cs, i) == SkipForward(s, cs, i)
    decreases |s| - i
  {
    if i < |s| {
      LowerKeepsClass(s[i], cs);
      SkipForwardLower(s, cs, i + 1);
    }
  }

  lemma {:induction false} SkipBackwardLower(s: string, cs: CharClass, lo: nat, j: nat)
    requires lo <= j <= |s|
    ensures SkipBackward(Lower(s), cs, lo, j) == SkipBackward(s, cs, lo, j)
    decreases j
  {
    if j > lo {
      var l := Lower(s);
      assert l[j - 1] == LowerChar(s[j - 1]);
      LowerKeepsClass(s[j - 1], cs);
      assert InClass(l[j - 1], cs) == InClass(s[j - 1], cs);
      SkipBackwardLower(s, cs, lo, j - 1);
    }
  }

  /** `strip()` and `lower()` commute. */
  lemma StripLower(s: string)
    ensures Strip(Lower(s)) == Lower(Strip(s))
  {
    SkipForwardLower(s, Whitespace, 0);
    SkipBackwardLower(s, Whitespace, LeadingSpaces(s), |s|);
    LowerSlice(s, LeadingSpaces(s), TextEnd(s));
  }

  /** Scanning back over characters in `cs` ends where scanning back from before them does. */
  lemma {:induction false} SkipBackwardThrough(s: string, cs: CharClass, lo: nat, m: nat, j: nat)
    requires lo <= m <= j <= |s| && AllIn(s[m..j], cs)
    ensures SkipBackward(s, cs, lo, j) == SkipBackward(s, cs, lo, m)
    decreases j
  {
    if m < j {
      assert s[j - 1] == s[m..j][j - 1 - m];
      assert s[m..j - 1] == s[m..j][..j - 1 - m];
      SkipBackwardThrough(s, cs, lo, m, j - 1);
    }
  }

  /** What follows position `j` does not affect scanning back from `j`. */
  lemma {:induction false} SkipBackwardPrefix(s: string, t: string, cs: CharClass, lo: nat, j: nat)
    requires lo <= j <= |s|
    ensures SkipBackward(s + t, cs, lo, j) == SkipBackward(s, cs, lo, j)
    decreases j
  {
    if j > lo {
      assert (s + t)[j - 1] == s[j - 1];
      SkipBackwardPrefix(s, t, cs, lo, j - 1);
    }
  }

  /** `rstrip(cs)` drops any suffix made of characters in `cs`. */
  lemma TrimRightAppend(x: string, p: string, cs: CharClass)
    requires AllIn(p, cs)
    ensures TrimRight(x + p, cs) == TrimRight(x, cs)
  {
    var s := x + p;
    assert s[|x|..|s|] == p;
    SkipBackwardThrough(s, cs, 0, |x|, |s|);
    SkipBackwardPrefix(x, p, cs, 0, |x|);
    var k := SkipBackward(x, cs, 0, |x|);
    assert s[..k] == x[..k];
  }

  /** The length of the run of non-whitespace characters that starts `s`. */
  function WordLength(s: string): (n: nat)
    ensures n <= |s|
    ensures forall i :: 0 <= i < n ==> !IsSpace(s[i])
    ensures n < |s| ==> IsSpace(s[n])
  {
    if s == [] || IsSpace(s[0]) then 0 else 1 + WordLength(s[1..])
  }

  /** A word as `str.split()` produces it: non-empty and free of whitespace. */
  predicate IsWord(w: string) {
    w != [] && forall i :: 0 <= i < |w| ==> !IsSpace(w[i])
  }

  predicate AllWords(ws: seq<string>) {
    forall k :: 0 <= k < |ws| ==> IsWord(ws[k])
  }

  /** `s.split()`: the maximal runs of non-whitespace characters, in order. */
  function Words(s: string): (ws: seq<string>)
    ensures AllWords(ws)
    decreases |s|
  {
    if s == [] then []
    else if IsSpace(s[0]) then Words(s[1..])
    else
      var n := WordLength(s);
      [s[..n]] + Words(s[n..])
  }

  /** Whitespace in front of a text adds no word to its `split()`. */
  lemma {:induction false} WordsAfterSpace(sp: string, s: string)
    requires AllSpace(sp)
    ensures Words(sp + s) == Words(s)
    decreases |sp|
  {
    if sp == [] {
      assert sp + s == s;
    } else {
      assert IsSpace((sp + s)[0]) by {
        assert (sp + s)[0] == sp[0] && InClass(sp[0], Whitespace);
      }
      assert (sp + s)[1..] == sp[1..] + s;
      assert AllSpace(sp[1..]) by {
        forall i | 0 <= i < |sp| - 1 ensures InClass(sp[1..][i], Whitespace) {
          assert sp[1..][i] == sp[i + 1];
        }
      }
      WordsAfterSpace(sp[1..], s);
    }
  }

  /**
   * A word that ends at whitespace or at the end of the text is the first word of `split()`:
   * together with `WordsAfterSpace` and `Words("") == []` this pins `split()` down on every
   * text, the words being the maximal runs of non-whitespace characters.
   */
  lemma WordsOfWord(w: string, rest: string)
    requires IsWord(w)
    requires rest == [] || IsSpace(rest[0])
    ensures Words(w + rest) == [w] + Words(rest)
  {
    var s := w + rest;
    WordLengthOfWord(w, rest);
    assert s[0] == w[0];
    assert s[..|w|] == w && s[|w|..] == rest;
  }

  /**
   * The text `current_line` holds once the wrapper has added the words `ws`
   * to an empty line, one `" " + word` at a time after the first: it is empty
   * for no words and starts with the first word otherwise.
   */
  function JoinSpace(ws: seq<string>): (r: string)
    ensures ws == [] ==> r == ""
    ensures ws != [] ==> ws[0] <= r
  {
    if |ws| == 0 then ""
    else if |ws| == 1 then ws[0]
    else ws[0] + " " + JoinSpace(ws[1..])
  }

  /** Concatenation of a sequence of sequences. */
  function Flatten<T>(xss: seq<seq<T>>): seq<T> {
    if xss == [] then [] else xss[0] + Flatten(xss[1..])
  }

  lemma {:induction false} FlattenAppend<T>(a: seq<seq<T>>, b: seq<seq<T>>)
    ensures Flatten(a + b) == Flatten(a) + Flatten(b)
  {
    if a != [] {
      assert (a + b)[1..] == a[1..] + b;
      FlattenAppend(a[1..], b);
    } else {
      assert a + b == b;
    }
  }

  /** Joining words that are not empty gives the empty string only for no words. */
  lemma JoinSpaceEmpty(ws: seq<string>)
    requires AllWords(ws)
    ensures JoinSpace(ws) == "" <==> ws == []
  {
    if |ws| >= 1 {
      assert IsWord(ws[0]);
    }
  }

  /** Adding a word at the end of a non-empty join adds one space and the word. */
  lemma {:induction false} JoinSpaceSnoc(ws: seq<string>, w: string)
    requires ws != []
    ensures JoinSpace(ws + [w]) == JoinSpace(ws) + " " + w
  {
    if |ws| == 1 {
      assert (ws + [w])[1..] == [w];
    } else {
      assert (ws + [w])[1..] == ws[1..] + [w];
      JoinSpaceSnoc(ws[1..], w);
    }
  }

  /** A word followed by whitespace (or by nothing) is read whole. */
  lemma {:induction false} WordLengthOfWord(w: string, rest: string)
    requires IsWord(w)
    requires rest != [] ==> IsSpace(rest[0])
    ensures WordLength(w + rest) == |w|
  {
    if |w| > 1 {
      assert (w + rest)[1..] == w[1..] + rest;
      WordLengthOfWord(w[1..], rest);
    }
  }

  /** Splitting words joined by single spaces gives back those words. */
  lemma {:induction false} WordsOfJoin(ws: seq<string>)
    requires AllWords(ws)
    ensures Words(JoinSpace(ws)) == ws
  {
    if |ws| == 0 {
    } else if |ws| == 1 {
      var w := ws[0];
      assert IsWord(w);
      WordLengthOfWord(w, "");
      assert w[..|w|] == w;
      assert w[|w|..] == [];
    } else {
      var w, rest := ws[0], JoinSpace(ws[1..]);
      assert IsWord(w);
      var s := w + " " + rest;
      assert s == w + (" " + rest);
      WordLengthOfWord(w, " " + rest);
      assert s[..|w|] == w;
      assert s[|w|..] == " " + rest;
      assert IsSpace(' ');
      assert (" " + rest)[1..] == rest;
      WordsOfJoin(ws[1..]);
    }
  }

  /** The characters of `s` that are not whitespace, in order. */
  function NonSpace(s: string): string {
    if s == [] then [] else (if IsSpace(s[0]) then [] else [s[0]]) + NonSpace(s[1..])
  }

  lemma {:induction false} NonSpaceAppend(a: string, b: string)
    ensures NonSpace(a + b) == NonSpace(a) + NonSpace(b)
  {
    if a == [] {
      assert a + b == b;
    } else {
      assert (a + b)[1..] == a[1..] + b;
      NonSpaceAppend(a[1..], b);
    }
  }

  lemma {:induction false} NonSpaceOfWord(s: string, n: nat)
    requires n <= |s|
    requires forall i :: 0 <= i < n ==> !IsSpace(s[i])
    ensures NonSpace(s[..n]) == s[..n]
  {
    if n > 0 {
      assert s[..n][1..] == s[1..][..n - 1];
      NonSpaceOfWord(s[1..], n - 1);
    }
  }

  /** `split()` loses exactly the whitespace: its words put together are `s` without it. */
  lemma {:induction false} WordsKeepNonSpace(s: string)
    ensures Flatten(Words(s)) == NonSpace(s)
    decreases |s|
  {
    if s == [] {
    } else if IsSpace(s[0]) {
      WordsKeepNonSpace(s[1..]);
    } else {
      var n := WordLength(s);
      assert s == s[..n] + s[n..];
      NonSpaceAppend(s[..n], s[n..]);
      NonSpaceOfWord(s, n);
      WordsKeepNonSpace(s[n..]);
      assert ([s[..n]] + Words(s[n..]))[1..] == Words(s[n..]);
    }
  }
}
