/**
 * The greedy word wrapper that lays a question's prompt out on at most four lines
 * (`wrap_text`). Words are packed left to right; a word goes on the current line when
 * the current line, one space and the word fit in `maxChars`. The fit test always counts
 * the space, even before the first word of a line, so a first word of `maxChars`
 * characters or more is preceded by an empty line.
 */
module Wrap {
  import opened Text

  /** At most this many lines are returned. */
  const MaxLines := 4

  /** The lines emitted so far and the line being filled, each as its words. */
  datatype Packing = Packing(done: seq<seq<string>>, open: seq<string>)

  /** One step of the loop: the word joins the open line, or the open line is emitted. */
  function Place(p: Packing, word: string, maxChars: int): (q: Packing)
    ensures Flatten(q.done) + q.open == Flatten(p.done) + p.open + [word]
    ensures q.open != []
  {
    if |JoinSpace(p.open)| + 1 + |word| <= maxChars then Packing(p.done, p.open + [word])
    else
      FlattenAppend(p.done, [p.open]);
      assert Flatten([p.open]) == p.open + Flatten([]);
      Packing(p.done + [p.open], [word])
  }

  /** The packing after the loop has seen `words`. */
  function PackAll(words: seq<string>, maxChars: int): (p: Packing)
    ensures Flatten(p.done) + p.open == words
    ensures words != [] ==> p.open != []
  {
    if words == [] then Packing([], [])
    else
      assert words == words[..|words| - 1] + [words[|words| - 1]];
      Place(PackAll(words[..|words| - 1], maxChars), words[|words| - 1], maxChars)
  }

  /** Every line of the full wrap, as its words: the open line is emitted when it has any. */
  function Groups(words: seq<string>, maxChars: int): (g: seq<seq<string>>)
    ensures Flatten(g) == words
  {
    var p := PackAll(words, maxChars);
    if p.open != [] then
      FlattenAppend(p.done, [p.open]);
      assert Flatten([p.open]) == p.open + Flatten([]);
      p.done + [p.open]
    else
      assert Flatten(p.done) + [] == Flatten(p.done);
      p.done
  }

  function Lines(groups: seq<seq<string>>): (lines: seq<string>)
    ensures |lines| == |groups|
    ensures forall k :: 0 <= k < |groups| ==> lines[k] == JoinSpace(groups[k])
  {
    seq(|groups|, k requires 0 <= k < |groups| => JoinSpace(groups[k]))
  }

  lemma LinesSnoc(groups: seq<seq<string>>, g: seq<string>)
    ensures Lines(groups + [g]) == Lines(groups) + [JoinSpace(g)]
  {
  }

  /** The whole wrap of `text`, before it is cut to four lines. */
  function FullWrap(text: string, maxChars: int): (lines: seq<string>)
    ensures forall k :: 0 < k < |lines| ==> lines[k] != ""
    ensures forall k :: 0 <= k < |lines| ==> JoinSpace(Words(lines[k])) == lines[k]
  {
    var g := Groups(Words(text), maxChars);
    LinesReadBack(Words(text), maxChars);
    assert forall k :: 0 <= k < |g| ==> Words(Lines(g)[k]) == LineWords(Lines(g))[k] == g[k];
    Lines(g)
  }

  /** `lines[:4]`. */
  function FirstLines(lines: seq<string>): (r: seq<string>)
    ensures |r| <= MaxLines && r <= lines
    ensures |r| < MaxLines ==> r == lines
  {
    if |lines| <= MaxLines then lines else lines[..MaxLines]
  }

  /** `wrap_text(text, max_chars)`. */
  method WrapText(text: string, maxChars: int) returns (lines: seq<string>)
    ensures lines == FirstLines(FullWrap(text, maxChars))
  {
    var words := Words(text);
    lines := [];
    var current := "";
    ghost var packing := Packing([], []);
    for i := 0 to |words|
      invariant packing == PackAll(words[..i], maxChars)
      invariant lines == Lines(packing.done)
      invariant current == JoinSpace(packing.open)
      invariant current == "" <==> packing.open == []
    {
      var word := words[i];
      PackAllSnoc(words, i, maxChars);
      if |current + " " + word| <= maxChars {
        if current != "" {
          JoinSpaceSnoc(packing.open, word);
          current := current + " " + word;
        } else {
          current := word;
        }
      } else {
        LinesSnoc(packing.done, packing.open);
        lines := lines + [current];
        current := word;
      }
      packing := Place(packing, word, maxChars);
    }
    assert words[..|words|] == words;
    if current != "" {
      LinesSnoc(packing.done, packing.open);
      lines := lines + [current];
    }
    lines := if |lines| <= MaxLines then lines else lines[..MaxLines];
  }

  /** The words come out in order and none is lost; nothing is open or emitted before the first word. */
  ghost predicate Covers(words: seq<string>, p: Packing) {
    && Flatten(p.done) + p.open == words
    && (p.open == [] <==> words == [])
    && (words == [] ==> p.done == [])
  }

  /** Only the first emitted line can be empty, and it is exactly when the first word did not fit. */
  ghost predicate OnlyFirstEmpty(words: seq<string>, p: Packing, maxChars: int) {
    && (forall k :: 0 < k < |p.done| ==> p.done[k] != [])
    && (words != [] ==> (|p.done| > 0 && p.done[0] == [] <==> |words[0]| + 1 > maxChars))
  }

  /** A line of two or more words fits. */
  ghost predicate Fits(p: Packing, maxChars: int) {
    && (forall k :: 0 <= k < |p.done| && |p.done[k]| >= 2 ==> |JoinSpace(p.done[k])| <= maxChars)
    && (|p.open| >= 2 ==> |JoinSpace(p.open)| <= maxChars)
  }

  /** Greedy: the first word of each line did not fit on the line before it. */
  ghost predicate Greedy(p: Packing, maxChars: int)
    requires forall k :: 0 < k < |p.done| ==> p.done[k] != []
    requires p.done != [] ==> p.open != []
  {
    && (forall k :: 0 <= k < |p.done| - 1 ==> |JoinSpace(p.done[k])| + 1 + |p.done[k + 1][0]| > maxChars)
    && (p.done != [] ==> |JoinSpace(p.done[|p.done| - 1])| + 1 + |p.open[0]| > maxChars)
  }

  /** What the loop keeps true of its packing, for words as `split()` gives them. */
  ghost predicate WellPacked(words: seq<string>, p: Packing, maxChars: int) {
    && Covers(words, p)
    && OnlyFirstEmpty(words, p, maxChars)
    && Fits(p, maxChars)
    && Greedy(p, maxChars)
  }

  lemma PlaceCovers(front: seq<string>, w: string, p: Packing, maxChars: int)
    requires Covers(front, p)
    ensures Covers(front + [w], Place(p, w, maxChars))
  {
    var q := Place(p, w, maxChars);
    if |JoinSpace(p.open)| + 1 + |w| <= maxChars {
      assert Flatten(q.done) + q.open == front + [w];
    } else {
      FlattenAppend(p.done, [p.open]);
      assert Flatten([p.open]) == p.open + Flatten([]);
      assert Flatten(q.done) + q.open == front + [w];
    }
  }

  lemma PlaceOnlyFirstEmpty(front: seq<string>, w: string, p: Packing, maxChars: int)
    requires Covers(front, p) && OnlyFirstEmpty(front, p, maxChars)
    ensures OnlyFirstEmpty(front + [w], Place(p, w, maxChars), maxChars)
  {
    var words := front + [w];
    var q := Place(p, w, maxChars);
    if front == [] {
      assert words[0] == w;
    } else {
      assert words[0] == front[0];
      if |JoinSpace(p.open)| + 1 + |w| > maxChars {
        assert q.done[0] == (if p.done == [] then p.open else p.done[0]);
      }
    }
  }

  lemma PlaceFits(w: string, p: Packing, maxChars: int)
    requires Fits(p, maxChars)
    ensures Fits(Place(p, w, maxChars), maxChars)
  {
    if |JoinSpace(p.open)| + 1 + |w| <= maxChars && p.open != [] {
      JoinSpaceSnoc(p.open, w);
    }
  }

  lemma PlaceGreedy(front: seq<string>, w: string, p: Packing, maxChars: int)
    requires Covers(front, p) && OnlyFirstEmpty(front, p, maxChars) && Greedy(p, maxChars)
    requires Covers(front + [w], Place(p, w, maxChars))
    requires OnlyFirstEmpty(front + [w], Place(p, w, maxChars), maxChars)
    ensures Greedy(Place(p, w, maxChars), maxChars)
  {
    var q := Place(p, w, maxChars);
    if |JoinSpace(p.open)| + 1 + |w| <= maxChars {
      assert q.done == p.done;
      if p.open != [] {
        assert q.open[0] == p.open[0];
      }
    } else {
      forall k | 0 <= k < |q.done| - 1
        ensures |JoinSpace(q.done[k])| + 1 + |q.done[k + 1][0]| > maxChars
      {
        if k < |p.done| - 1 {
          assert q.done[k] == p.done[k] && q.done[k + 1] == p.done[k + 1];
        } else {
          assert q.done[k] == p.done[|p.done| - 1] && q.done[k + 1] == p.open;
        }
      }
    }
  }

  lemma PackAllSnoc(words: seq<string>, i: nat, maxChars: int)
    requires i < |words|
    ensures PackAll(words[..i + 1], maxChars) == Place(PackAll(words[..i], maxChars), words[i], maxChars)
  {
    assert words[..i + 1][..i] == words[..i];
  }

  /** The last step of `PackAll`, on the words before the last one. */
  lemma PackAllLast(words: seq<string>, maxChars: int)
    requires words != []
    ensures var n := |words| - 1;
            && words == words[..n] + [words[n]]
            && PackAll(words, maxChars) == Place(PackAll(words[..n], maxChars), words[n], maxChars)
  {
    assert words == words[..|words| - 1] + [words[|words| - 1]];
  }

  lemma {:induction false} PackAllCovers(words: seq<string>, maxChars: int)
    ensures Covers(words, PackAll(words, maxChars))
    decreases |words|
  {
    if words != [] {
      var n := |words| - 1;
      PackAllCovers(words[..n], maxChars);
      PackAllLast(words, maxChars);
      PlaceCovers(words[..n], words[n], PackAll(words[..n], maxChars), maxChars);
    }
  }

  lemma {:induction false} PackAllOnlyFirstEmpty(words: seq<string>, maxChars: int)
    ensures OnlyFirstEmpty(words, PackAll(words, maxChars), maxChars)
    decreases |words|
  {
    if words != [] {
      var n := |words| - 1;
      PackAllOnlyFirstEmpty(words[..n], maxChars);
      PackAllCovers(words[..n], maxChars);
      PackAllLast(words, maxChars);
      PlaceOnlyFirstEmpty(words[..n], words[n], PackAll(words[..n], maxChars), maxChars);
    }
  }

  lemma {:induction false} PackAllFits(words: seq<string>, maxChars: int)
    ensures Fits(PackAll(words, maxChars), maxChars)
    decreases |words|
  {
    if words != [] {
      var n := |words| - 1;
      PackAllFits(words[..n], maxChars);
      PlaceFits(words[n], PackAll(words[..n], maxChars), maxChars);
    }
  }

  lemma {:induction false} PackAllGreedy(words: seq<string>, maxChars: int)
    ensures OnlyFirstEmpty(words, PackAll(words, maxChars), maxChars)
    ensures Covers(words, PackAll(words, maxChars))
    ensures Greedy(PackAll(words, maxChars), maxChars)
    decreases |words|
  {
    PackAllCovers(words, maxChars);
    PackAllOnlyFirstEmpty(words, maxChars);
    if words != [] {
      var n := |words| - 1;
      PackAllGreedy(words[..n], maxChars);
      PackAllLast(words, maxChars);
      PlaceGreedy(words[..n], words[n], PackAll(words[..n], maxChars), maxChars);
    }
  }

  lemma PackAllWellPacked(words: seq<string>, maxChars: int)
    ensures WellPacked(words, PackAll(words, maxChars), maxChars)
  {
    PackAllGreedy(words, maxChars);
    PackAllFits(words, maxChars);
  }

  /**
   * The shape of every line of the full wrap: only the first line can be empty, and it is
   * exactly when the first word is `maxChars` characters or longer; a line of two or more
   * words fits in `maxChars`; and the first word of each line did not fit on the line before.
   */
  lemma WrapShape(words: seq<string>, maxChars: int)
    requires AllWords(words)
    ensures var g := Groups(words, maxChars);
            && (forall k :: 0 < k < |g| ==> g[k] != [])
            && (words != [] ==> (g[0] == [] <==> |words[0]| + 1 > maxChars))
            && (forall k :: 0 <= k < |g| && |g[k]| >= 2 ==> |JoinSpace(g[k])| <= maxChars)
            && (forall k :: 0 <= k < |g| - 1 ==> |JoinSpace(g[k])| + 1 + |g[k + 1][0]| > maxChars)
  {
    PackAllWellPacked(words, maxChars);
    var p := PackAll(words, maxChars);
    var g := Groups(words, maxChars);
    if p.open != [] {
      assert g == p.done + [p.open];
      forall k | 0 <= k < |g| - 1
        ensures |JoinSpace(g[k])| + 1 + |g[k + 1][0]| > maxChars
      {
        if k < |p.done| - 1 {
          assert g[k] == p.done[k] && g[k + 1] == p.done[k + 1];
        } else {
          assert g[k] == p.done[|p.done| - 1] && g[k + 1] == p.open;
        }
      }
      if words != [] && p.done == [] {
        assert g[0] == p.open;
      }
    } else {
      assert words == [] && g == p.done;
    }
  }

  lemma FlattenSplit<T>(xss: seq<seq<T>>, k: nat)
    requires k < |xss|
    ensures Flatten(xss) == Flatten(xss[..k]) + (xss[k] + Flatten(xss[k + 1..]))
  {
    var front, back := xss[..k], xss[k..];
    assert xss == front + back;
    FlattenAppend(front, back);
    assert back[0] == xss[k] && back[1..] == xss[k + 1..];
    assert Flatten(back) == back[0] + Flatten(back[1..]);
  }

  /** Each part of a list of words is itself a list of words. */
  lemma PartsAreWords(xss: seq<seq<string>>, k: nat)
    requires k < |xss| && AllWords(Flatten(xss))
    ensures AllWords(xss[k])
  {
    FlattenSplit(xss, k);
    var pre := Flatten(xss[..k]);
    forall j | 0 <= j < |xss[k]| ensures IsWord(xss[k][j]) {
      assert xss[k][j] == Flatten(xss)[|pre| + j];
    }
  }

  /** Every word of a line is a word of the text. */
  lemma GroupsAreWords(words: seq<string>, maxChars: int, k: nat)
    requires AllWords(words) && k < |Groups(words, maxChars)|
    ensures AllWords(Groups(words, maxChars)[k])
  {
    PartsAreWords(Groups(words, maxChars), k);
  }

  /** The words of each wrapped line, as `split()` reads them back. */
  function LineWords(lines: seq<string>): (r: seq<seq<string>>)
    ensures |r| == |lines|
  {
    seq(|lines|, k requires 0 <= k < |lines| => Words(lines[k]))
  }

  /**
   * What `wrap_text` promises of its lines: at most four, a prefix of the full wrap; a line
   * is empty only as the first line; and a line of several words fits in `maxChars`.
   */
  lemma WrapTextLines(text: string, maxChars: int)
    ensures var lines := FirstLines(FullWrap(text, maxChars));
            && |lines| <= MaxLines
            && lines == FullWrap(text, maxChars)[..|lines|]
            && (forall k :: 0 < k < |lines| ==> lines[k] != "")
            && (forall k :: 0 <= k < |lines| && |Words(lines[k])| >= 2 ==> |lines[k]| <= maxChars)
  {
    var words := Words(text);
    var g := Groups(words, maxChars);
    var full := FullWrap(text, maxChars);
    var lines := FirstLines(full);
    assert full == Lines(g);
    LinesReadBack(words, maxChars);
    WrapShape(words, maxChars);
    forall k | 0 <= k < |lines| && |Words(lines[k])| >= 2 ensures |lines[k]| <= maxChars {
      assert lines[k] == full[k] == JoinSpace(g[k]);
      assert Words(lines[k]) == LineWords(full)[k] == g[k];
    }
  }

  /**
   * The words of `wrap_text`'s lines: each line is its words joined by single spaces, and
   * read back in order they are the first words of the text.
   */
  lemma WrapTextWords(text: string, maxChars: int)
    ensures var lines := FirstLines(FullWrap(text, maxChars));
            && (forall k :: 0 <= k < |lines| ==> JoinSpace(Words(lines[k])) == lines[k])
            && Flatten(LineWords(lines)) <= Words(text)
  {
    var words := Words(text);
    var g := Groups(words, maxChars);
    var lines := FirstLines(FullWrap(text, maxChars));
    var n := |lines|;
    LinesReadBack(words, maxChars);
    assert LineWords(lines) == g[..n];
    FlattenAppend(g[..n], g[n..]);
    assert g == g[..n] + g[n..];
  }

  /** Each wrapped line reads back, through `split()`, as the words that were packed onto it. */
  lemma LinesReadBack(words: seq<string>, maxChars: int)
    requires AllWords(words)
    ensures var g := Groups(words, maxChars);
            && LineWords(Lines(g)) == g
            && (forall k :: 0 < k < |g| ==> JoinSpace(g[k]) != "")
  {
    var g := Groups(words, maxChars);
    WrapShape(words, maxChars);
    forall k | 0 <= k < |g| ensures Words(JoinSpace(g[k])) == g[k] && (k > 0 ==> JoinSpace(g[k]) != "") {
      GroupsAreWords(words, maxChars, k);
      WordsOfJoin(g[k]);
      JoinSpaceEmpty(g[k]);
    }
  }

  /**
   * A first word of `maxChars` characters or more does not fit even on the empty line: the
   * wrap starts with an empty line, then a line holding just that word.
   */
  lemma WrapLongFirstWord(words: seq<string>, maxChars: int)
    requires AllWords(words) && words != [] && |words[0]| + 1 > maxChars
    ensures var g := Groups(words, maxChars);
            |g| >= 2 && g[0] == [] && g[1] == [words[0]]
  {
    var g := Groups(words, maxChars);
    LongFirstWordShape(words, maxChars);
    FlattenSecond(g, words);
    JoinSpaceFirst(g[1]);
  }

  /** The facts of `WrapShape` that a first word too long for the empty line relies on. */
  lemma LongFirstWordShape(words: seq<string>, maxChars: int)
    requires AllWords(words) && words != [] && |words[0]| + 1 > maxChars
    ensures var g := Groups(words, maxChars);
            && |g| >= 2 && g[0] == [] && g[1] != []
            && (|g[1]| >= 2 ==> |JoinSpace(g[1])| <= maxChars)
  {
    WrapShape(words, maxChars);
  }

  /** When the first part is empty, the second part starts the concatenation. */
  lemma FlattenSecond<T>(xss: seq<seq<T>>, xs: seq<T>)
    requires Flatten(xss) == xs && |xss| >= 2 && xss[0] == [] && xss[1] != []
    ensures xs != [] && xss[1][0] == xs[0]
  {
    FlattenSplit(xss, 1);
    assert Flatten(xss[..1]) == xss[0] + Flatten([]);
  }

  /** A line of two or more words is longer than its first word and a space. */
  lemma JoinSpaceFirst(ws: seq<string>)
    requires ws != []
    ensures |JoinSpace(ws)| >= |ws[0]| + if |ws| >= 2 then 1 else 0
  {
  }
}
