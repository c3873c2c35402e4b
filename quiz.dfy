/**
 * One round of questioning (`quiz`): the keys pressed edit an answer buffer until Enter,
 * and Enter judges the buffer against the expected answer after normalising both.
 */
module Quiz {
  import opened Text
  import opened Grid

  /** A key as the canvas reports it: a printable character, or the name of a special key. */
  type Key = string

  const Enter: Key := "Enter"
  const Backspace: Key := "Backspace"

  /**
   * What a key other than Enter does to the answer buffer: Backspace drops the last
   * character (`answer[:-1]`, which leaves an empty buffer empty), a one-character key is
   * appended, any other key is ignored.
   */
  function Edit(answer: string, key: Key): (r: string)
    ensures key == Backspace ==> r <= answer && |r| == if answer == [] then 0 else |answer| - 1
    ensures key != Backspace && |key| == 1 ==> r == answer + key
    ensures key != Backspace && |key| != 1 ==> r == answer
  {
    if key == Backspace then (if answer == [] then [] else answer[..|answer| - 1])
    else if |key| == 1 then answer + key
    else answer
  }

  /** The buffer after the keys, starting from the empty buffer: each key adds at most one character. */
  function Typed(keys: seq<Key>): (answer: string)
    ensures |answer| <= |keys|
  {
    if keys == [] then "" else Edit(Typed(keys[..|keys| - 1]), keys[|keys| - 1])
  }

  lemma TypedSnoc(keys: seq<Key>, i: nat)
    requires i < |keys|
    ensures Typed(keys[..i + 1]) == Edit(Typed(keys[..i]), keys[i])
  {
    assert keys[..i + 1][..i] == keys[..i];
  }

  /** The position of the first Enter. */
  function FirstEnter(keys: seq<Key>): (n: nat)
    requires Enter in keys
    ensures n < |keys| && keys[n] == Enter
    ensures forall j :: 0 <= j < n ==> keys[j] != Enter
  {
    if keys[0] == Enter then 0 else 1 + FirstEnter(keys[1..])
  }

  /**
   * `answer.strip().lower().rstrip(string.punctuation)`: the result has no whitespace in
   * front, no capital letter and no punctuation at the end, and it is what is left of the
   * stripped, lowered text once trailing punctuation is dropped.
   */
  function Normalize(s: string): (r: string)
    ensures r <= Lower(Strip(s))
    ensures AllIn(Lower(Strip(s))[|r|..], Punctuation)
    ensures r != [] ==> !IsSpace(r[0]) && !IsPunctuation(r[|r| - 1])
    ensures forall i :: 0 <= i < |r| ==> !IsUpper(r[i])
  {
    var t := Strip(s);
    var r := TrimRight(Lower(t), Punctuation);
    if r == [] then r
    else
      LowerKeepsClass(t[0], Whitespace);
      r
  }

  /**
   * The comparison made on Enter. An answer that differs from the expected one only in
   * ASCII case and surrounding whitespace is accepted.
   */
  predicate IsCorrect(answer: string, expected: string)
    ensures Lower(Strip(answer)) == Lower(Strip(expected)) ==> IsCorrect(answer, expected)
  {
    Normalize(answer) == Normalize(expected)
  }

  datatype QuizOutcome =
    | Pending(answer: string)             // the keys ran out before Enter
    | Resolved(correct: bool, score: int) // Enter was pressed: the verdict and the new score

  /**
   * The key loop of `quiz`. The keys before the first Enter edit the buffer; the first
   * Enter judges it and moves the score by ten points, up or down, and nothing after it is
   * read. Without an Enter the round is still open, with the buffer the keys have typed.
   */
  method Quiz(keys: seq<Key>, expected: string, score: int) returns (outcome: QuizOutcome)
    ensures outcome.Resolved? <==> Enter in keys
    ensures outcome.Resolved? ==>
              var answer := Typed(keys[..FirstEnter(keys)]);
              && outcome.correct == IsCorrect(answer, expected)
              && outcome.score == if outcome.correct then score + Points else score - Points
    ensures outcome.Pending? ==> outcome.answer == Typed(keys)
  {
    var answer := "";
    var i := 0;
    while i < |keys|
      invariant i <= |keys|
      invariant answer == Typed(keys[..i])
      invariant Enter !in keys[..i]
    {
      var key := keys[i];
      if key == Enter {
        var userAnswer := Normalize(answer);
        var correctAnswer := Normalize(expected);
        if userAnswer == correctAnswer {
          outcome := Resolved(true, score + Points);
        } else {
          outcome := Resolved(false, score - Points);
        }
        assert FirstEnter(keys) == i by {
          assert forall j :: 0 <= j < i ==> keys[j] == keys[..i][j];
        }
        return;
      } else if key == Backspace {
        answer := if answer == [] then [] else answer[..|answer| - 1];
      } else if |key| == 1 {
        answer := answer + key;
      }
      TypedSnoc(keys, i);
      assert keys[..i + 1] == keys[..i] + [key];
      i := i + 1;
    }
    assert keys[..i] == keys;
    outcome := Pending(answer);
  }

  /** The keys that type `s` one character at a time. */
  function CharKeys(s: string): (keys: seq<Key>)
    ensures |keys| == |s|
  {
    seq(|s|, i requires 0 <= i < |s| => [s[i]])
  }

  /** Typing the characters of `s` fills the buffer with `s`, whatever they are. */
  lemma {:induction false} TypedCharKeys(s: string)
    ensures Typed(CharKeys(s)) == s
    decreases |s|
  {
    if s != [] {
      var n := |s| - 1;
      TypedCharKeys(s[..n]);
      assert CharKeys(s)[..n] == CharKeys(s[..n]);
      assert CharKeys(s)[n] == [s[n]];
      assert s[..n] + [s[n]] == s;
    }
  }

  /** Backspace takes back a character just typed. */
  lemma BackspaceUndoes(answer: string, c: char)
    ensures Edit(Edit(answer, [c]), Backspace) == answer
  {
    assert (answer + [c])[..|answer|] == answer;
  }

  /** Keys that are neither one character nor Backspace leave the buffer as it was. */
  lemma IgnoredKeys(keys: seq<Key>)
    requires forall j :: 0 <= j < |keys| ==> keys[j] != Backspace && |keys[j]| != 1
    ensures Typed(keys) == ""
  {
    if keys != [] {
      IgnoredKeys(keys[..|keys| - 1]);
    }
  }

  /** The comparison ignores capital letters. */
  lemma NormalizeIgnoresCase(s: string)
    ensures Normalize(Lower(s)) == Normalize(s)
  {
    StripLower(s);
    LowerLower(Strip(s));
  }

  /** Punctuation typed after a stripped answer does not change the verdict. */
  lemma NormalizeIgnoresTrailingPunctuation(s: string, p: string)
    requires s != [] && IsStripped(s) && AllIn(p, Punctuation)
    ensures Normalize(s + p) == Normalize(s)
  {
    StrippedAppend(s, p);
    StripOfStripped(s);
    StripOfStripped(s + p);
    LowerOfPunctuation(p);
    LowerAppend(s, p);
    TrimRightAppend(Lower(s), p, Punctuation);
  }

  /** A stripped text followed by punctuation is still stripped. */
  lemma StrippedAppend(s: string, p: string)
    requires s != [] && IsStripped(s) && AllIn(p, Punctuation)
    ensures IsStripped(s + p)
  {
    var t := s + p;
    assert t[0] == s[0];
    if p != [] {
      assert InClass(p[|p| - 1], Punctuation);
      PunctuationIsNotSpace(p[|p| - 1]);
      assert t[|t| - 1] == p[|p| - 1];
    } else {
      assert t == s;
    }
  }

  /** `lower()` leaves punctuation as it is. */
  lemma LowerOfPunctuation(p: string)
    requires AllIn(p, Punctuation)
    ensures Lower(p) == p
  {
    forall i | 0 <= i < |p| ensures Lower(p)[i] == p[i] {
      assert InClass(p[i], Punctuation);
      LowerKeepsClass(p[i], Punctuation);
    }
  }

  /** An empty buffer is judged correct exactly when the expected answer normalises to nothing. */
  lemma EmptyAnswer(expected: string)
    ensures IsCorrect("", expected) <==> Normalize(expected) == ""
  {
    assert Strip("") == "";
    assert Lower("") == "";
  }

  /** `"Paris!"` is accepted for `"paris"`. */
  lemma ParisExample()
    ensures IsCorrect("Paris!", "paris")
  {
    ParisFacts();
    NormalForm("paris");
    NormalizeIgnoresTrailingPunctuation("paris", "!");
    NormalizeIgnoresCase("Paris!");
  }

  lemma ParisFacts()
    ensures IsStripped("paris") && Lower("paris") == "paris" && !IsPunctuation("paris"[4])
    ensures AllIn("!", Punctuation) && Lower("Paris!") == "paris" + "!"
  {
    assert InClass("!"[0], Punctuation);
  }

  /** A text already in normal form normalises to itself. */
  lemma NormalForm(s: string)
    requires IsStripped(s) && Lower(s) == s && (s != [] ==> !IsPunctuation(s[|s| - 1]))
    ensures Normalize(s) == s
  {
    assert "" + s + "" == s;
    NormalizeOfPadded("", s, "");
  }

  /**
   * Normalising twice can differ from normalising once: `"paris !"` becomes `"paris "`,
   * whose trailing space only a second pass strips.
   */
  lemma NormalizeNotIdempotent()
    ensures Normalize("paris !") == "paris "
    ensures Normalize("paris ") == "paris"
  {
    PunctuationAfterSpace();
    SpaceAfterWord();
  }

  lemma PunctuationAfterSpace()
    ensures Normalize("paris !") == "paris "
  {
    var s := "paris !";
    assert IsStripped(s);
    StripOfStripped(s);
    assert Lower(s) == s;
    assert SkipBackward(s, Punctuation, 0, 6) == 6;
    assert SkipBackward(s, Punctuation, 0, 7) == 6;
  }

  lemma SpaceAfterWord()
    ensures Normalize("paris ") == "paris"
  {
    assert AllSpace(" ");
    assert "" + "paris" + " " == "paris ";
    NormalizeOfPadded("", "paris", " ");
  }

  /** Whitespace around a text already in normal form is all that normalising removes. */
  lemma NormalizeOfPadded(lead: string, s: string, trail: string)
    requires AllSpace(lead) && AllSpace(trail) && IsStripped(s)
    requires Lower(s) == s && (s != [] ==> !IsPunctuation(s[|s| - 1]))
    ensures Normalize(lead + s + trail) == s
  {
    StripPadded(lead, s, trail);
    assert SkipBackward(s, Punctuation, 0, |s|) == |s|;
    assert s[..|s|] == s;
  }
}
