/**
 * The question bank: a text file with one `prompt|answer` record per line,
 * parsed into questions and shuffled (`load_questions_from_file`).
 */
module QuestionBank {
  import opened Options
  import opened Text

  datatype Question = Question(prompt: string, answer: string)

  const Separator: char := '|'

  /** No character of `s` from position `i` up to `k` is `c`. */
  predicate Absent(s: string, c: char, i: nat, k: nat)
    requires i <= k <= |s|
  {
    forall j :: i <= j < k ==> s[j] != c
  }

  /** The position of the first `c` in `s` at or after `i`, or `|s|` when there is none. */
  function Find(s: string, c: char, i: nat): (k: nat)
    requires i <= |s|
    ensures i <= k <= |s|
    ensures k < |s| ==> s[k] == c
    ensures Absent(s, c, i, k)
    decreases |s| - i
  {
    if i == |s| || s[i] == c then i else Find(s, c, i + 1)
  }

  /**
   * One line of the file: skipped (None) when it is empty after stripping or has no
   * separator; otherwise split at the first separator and both halves stripped.
   */
  function ParseLine(line: string): (r: Option<Question>)
    ensures r.Some? <==> Separator in Strip(line)
    ensures r.Some? ==> IsStripped(r.value.prompt) && IsStripped(r.value.answer)
  {
    var t := Strip(line);
    var k := Find(t, Separator, 0);
    if t == "" || k == |t| then None
    else Some(Question(Strip(t[..k]), Strip(t[k + 1..])))
  }

  /**
   * A line is kept exactly when it contains a separator (a line that is empty after
   * stripping has none); the prompt then holds no separator, and both fields are stripped.
   */
  lemma ParseLineKept(line: string)
    ensures ParseLine(line).Some? <==> Separator in line
    ensures ParseLine(line).Some? ==> Separator !in ParseLine(line).value.prompt
    ensures ParseLine(line).Some? ==> IsStripped(ParseLine(line).value.prompt) && IsStripped(ParseLine(line).value.answer)
  {
    var t := Strip(line);
    StripSlice(line);
    var lo, hi := LeadingSpaces(line), TextEnd(line);
    var k := Find(t, Separator, 0);
    assert !IsSpace(Separator);
    if Separator in line {
      var j :| 0 <= j < |line| && line[j] == Separator;
      assert forall i :: 0 <= i < lo ==> IsSpace(line[i]) by {
        forall i | 0 <= i < lo ensures IsSpace(line[i]) {
          assert line[..lo][i] == line[i];
        }
      }
      assert forall i :: hi <= i < |line| ==> IsSpace(line[i]) by {
        forall i | hi <= i < |line| ensures IsSpace(line[i]) {
          assert line[hi..][i - hi] == line[i];
        }
      }
      assert t[j - lo] == Separator;
      assert k < |t|;
    }
    if k < |t| {
      assert t[k] == line[lo + k];
      var p := t[..k];
      var q := Strip(p);
      StripSlice(p);
      forall i | 0 <= i < |q| ensures q[i] != Separator {
        assert q[i] == p[LeadingSpaces(p) + i] == t[LeadingSpaces(p) + i];
      }
    }
  }

  lemma {:induction false} FindFirst(s: string, c: char, i: nat, k: nat)
    requires i <= k < |s| && s[k] == c && Absent(s, c, i, k)
    ensures Find(s, c, i) == k
    decreases k - i
  {
    if i < k {
      FindFirst(s, c, i + 1, k);
    }
  }

  /** The questions of the kept lines, in file order: one per line when every line is kept. */
  function Parsed(lines: seq<string>): (qs: seq<Question>)
    ensures |qs| <= |lines|
    ensures (forall i :: 0 <= i < |lines| ==> Separator in Strip(lines[i])) ==> |qs| == |lines|
  {
    Collect(ParseLine, lines)
  }

  /** The values `f` yields on the elements of `xs`, in order, skipping those it yields none for. */
  function Collect<T, U>(f: T -> Option<U>, xs: seq<T>): (r: seq<U>)
    ensures |r| <= |xs|
    ensures (forall i :: 0 <= i < |xs| ==> f(xs[i]).Some?) ==> |r| == |xs|
  {
    if xs == [] then []
    else Collect(f, xs[..|xs| - 1]) + Kept(f(xs[|xs| - 1]))
  }

  function Kept<U>(v: Option<U>): seq<U> {
    if v.Some? then [v.value] else []
  }

  /**
   * `load_questions_from_file` over the lines of the file: parses every line and
   * returns the questions in an arbitrary order (the `random.shuffle`).
   */
  method LoadQuestions(lines: seq<string>) returns (questions: seq<Question>)
    ensures multiset(questions) == multiset(Parsed(lines))
  {
    var parsed: seq<Question> := [];
    for i := 0 to |lines|
      invariant parsed == Parsed(lines[..i])
    {
      ParsedSnoc(lines, i);
      var line := Strip(lines[i]);
      var k := Find(line, Separator, 0);
      if line != "" && k < |line| {
        ParseSplit(lines[i], line, k);
        parsed := parsed + [Question(Strip(line[..k]), Strip(line[k + 1..]))];
      } else {
        assert ParseLine(lines[i]) == None;
      }
    }
    assert lines[..|lines|] == lines;
    questions :| multiset(questions) == multiset(parsed);
  }

  /** Parsing one more line adds that line's question, if it has one. */
  lemma ParsedSnoc(lines: seq<string>, i: nat)
    requires i < |lines|
    ensures Parsed(lines[..i + 1]) == Parsed(lines[..i]) + Kept(ParseLine(lines[i]))
  {
    assert lines[..i + 1][..i] == lines[..i];
  }

  /** Collecting from two parts collects each part and keeps the order. */
  lemma {:induction false} CollectAppend<T, U>(f: T -> Option<U>, a: seq<T>, b: seq<T>)
    ensures Collect(f, a + b) == Collect(f, a) + Collect(f, b)
    decreases |b|
  {
    if b == [] {
      assert a + b == a;
    } else {
      var n := |b| - 1;
      assert (a + b)[..|a + b| - 1] == a + b[..n];
      assert (a + b)[|a + b| - 1] == b[n];
      CollectAppend(f, a, b[..n]);
    }
  }

  /** Every element `f` yields a value for contributes that value. */
  lemma {:induction false} CollectComplete<T, U>(f: T -> Option<U>, xs: seq<T>, i: nat)
    requires i < |xs| && f(xs[i]).Some?
    ensures f(xs[i]).value in Collect(f, xs)
    decreases |xs|
  {
    var n := |xs| - 1;
    if i < n {
      assert xs[..n][i] == xs[i];
      CollectComplete(f, xs[..n], i);
    }
  }

  /** Every collected value comes from some element. */
  lemma {:induction false} CollectOrigin<T, U>(f: T -> Option<U>, xs: seq<T>, v: U) returns (i: nat)
    requires v in Collect(f, xs)
    ensures i < |xs| && f(xs[i]) == Some(v)
    decreases |xs|
  {
    var n := |xs| - 1;
    if v in Collect(f, xs[..n]) {
      i := CollectOrigin(f, xs[..n], v);
      assert xs[..n][i] == xs[i];
    } else {
      i := n;
    }
  }

  /** Parsing a file in two parts parses each part and keeps the file order. */
  lemma ParsedAppend(a: seq<string>, b: seq<string>)
    ensures Parsed(a + b) == Parsed(a) + Parsed(b)
  {
    CollectAppend(ParseLine, a, b);
  }

  /** A question is loaded exactly when some line of the file parses to it. */
  lemma ParsedMembers(lines: seq<string>, q: Question)
    ensures q in Parsed(lines) <==> exists i :: 0 <= i < |lines| && ParseLine(lines[i]) == Some(q)
  {
    if q in Parsed(lines) {
      var i := CollectOrigin(ParseLine, lines, q);
    }
    if exists i :: 0 <= i < |lines| && ParseLine(lines[i]) == Some(q) {
      var i :| 0 <= i < |lines| && ParseLine(lines[i]) == Some(q);
      CollectComplete(ParseLine, lines, i);
    }
  }

  /**
   * A record written as `prompt|answer`, with any whitespace around either field and
   * a prompt free of separators, parses back to exactly that question.
   */
  lemma ParseRecord(lead: string, prompt: string, before: string, after: string, answer: string, trail: string)
    requires AllSpace(lead) && AllSpace(before) && AllSpace(after) && AllSpace(trail)
    requires IsStripped(prompt) && IsStripped(answer) && Separator !in prompt
    ensures ParseLine(lead + prompt + before + [Separator] + after + answer + trail) == Some(Question(prompt, answer))
  {
    var line := lead + prompt + before + [Separator] + after + answer + trail;
    RecordStrip(lead, prompt, before, after, answer, trail);
    var p := PromptText(prompt, before);
    RecordFind(prompt, before, after, answer);
    RecordFields(prompt, before, after, answer);
    ParseSplit(line, p + [Separator] + AnswerText(after, answer), |p|);
  }

  /** What remains of the prompt and the whitespace after it inside the stripped line. */
  function PromptText(field: string, pad: string): string {
    if field == [] then [] else field + pad
  }

  /** What remains of the answer and the whitespace before it inside the stripped line. */
  function AnswerText(pad: string, field: string): string {
    if field == [] then [] else pad + field
  }

  /** The whitespace beside an empty field, which `strip()` removes with the line's own padding. */
  function Unused(field: string, pad: string): string {
    if field == [] then pad else []
  }

  lemma RecordStrip(lead: string, prompt: string, before: string, after: string, answer: string, trail: string)
    requires AllSpace(lead) && AllSpace(before) && AllSpace(after) && AllSpace(trail)
    requires IsStripped(prompt) && IsStripped(answer)
    ensures Strip(lead + prompt + before + [Separator] + after + answer + trail)
         == PromptText(prompt, before) + [Separator] + AnswerText(after, answer)
  {
    var t := PromptText(prompt, before) + [Separator] + AnswerText(after, answer);
    var front := lead + Unused(prompt, before);
    var back := Unused(answer, after) + trail;
    assert lead + prompt + before + [Separator] + after + answer + trail == front + t + back by {
      RecordShape(lead, prompt, before, after, answer, trail);
    }
    assert AllSpace(front) by {
      AllSpaceConcat(lead, Unused(prompt, before));
    }
    assert AllSpace(back) by {
      AllSpaceConcat(Unused(answer, after), trail);
    }
    assert IsStripped(t) by {
      assert t[0] == if prompt == [] then Separator else prompt[0];
      assert t[|t| - 1] == if answer == [] then Separator else answer[|answer| - 1];
    }
    StripPadded(front, t, back);
  }

  lemma RecordShape(lead: string, prompt: string, before: string, after: string, answer: string, trail: string)
    ensures lead + prompt + before + [Separator] + after + answer + trail
         == (lead + Unused(prompt, before)) + (PromptText(prompt, before) + [Separator] + AnswerText(after, answer))
            + (Unused(answer, after) + trail)
  {
    Regroup(lead, prompt, before, [Separator], after, answer, trail,
            Unused(prompt, before), PromptText(prompt, before), AnswerText(after, answer), Unused(answer, after));
  }

  lemma Regroup(l: string, x: string, y: string, s: string, z: string, w: string, t: string,
                u: string, p: string, a: string, v: string)
    requires x + y == u + p && z + w == a + v
    ensures l + x + y + s + z + w + t == (l + u) + (p + s + a) + (v + t)
  {
    calc {
      l + x + y + s + z + w + t;
      l + (x + y) + s + (z + w) + t;
      l + (u + p) + s + (a + v) + t;
      (l + u) + (p + s + a) + (v + t);
    }
  }

  lemma AllSpaceConcat(a: string, b: string)
    requires AllSpace(a) && AllSpace(b)
    ensures AllSpace(a + b)
  {
    forall i | 0 <= i < |a + b| ensures IsSpace((a + b)[i]) {
      if i < |a| {
        assert (a + b)[i] == a[i];
      } else {
        assert (a + b)[i] == b[i - |a|];
      }
    }
  }

  lemma RecordFind(prompt: string, before: string, after: string, answer: string)
    requires AllSpace(before) && Separator !in prompt
    ensures Find(PromptText(prompt, before) + [Separator] + AnswerText(after, answer), Separator, 0)
         == |PromptText(prompt, before)|
  {
    var p := PromptText(prompt, before);
    var t := p + [Separator] + AnswerText(after, answer);
    var k := |p|;
    assert t[k] == Separator;
    forall i | 0 <= i < k ensures t[i] != Separator {
      assert t[i] == p[i];
      if i >= |prompt| {
        assert p[i] == before[i - |prompt|];
      } else {
        assert p[i] == prompt[i];
      }
    }
    FindFirst(t, Separator, 0, k);
  }

  lemma RecordFields(prompt: string, before: string, after: string, answer: string)
    requires AllSpace(before) && AllSpace(after) && IsStripped(prompt) && IsStripped(answer)
    ensures var p := PromptText(prompt, before);
            var t := p + [Separator] + AnswerText(after, answer);
            Strip(t[..|p|]) == prompt && Strip(t[|p| + 1..]) == answer
  {
    var p := PromptText(prompt, before);
    var a := AnswerText(after, answer);
    var t := p + [Separator] + a;
    assert t[..|p|] == p;
    assert t[|p| + 1..] == a;
    FieldStrip(prompt, before);
    FieldStripBefore(answer, after);
  }

  lemma FieldStrip(field: string, pad: string)
    requires AllSpace(pad) && IsStripped(field)
    ensures Strip(PromptText(field, pad)) == field
  {
    if field != [] {
      StripPadded([], field, pad);
      assert [] + field + pad == field + pad;
    }
  }

  lemma FieldStripBefore(field: string, pad: string)
    requires AllSpace(pad) && IsStripped(field)
    ensures Strip(AnswerText(pad, field)) == field
  {
    if field != [] {
      StripPadded(pad, field, []);
      assert pad + field + [] == pad + field;
    }
  }

  /** How `ParseLine` reads a line once its stripped text and first separator are known. */
  lemma ParseSplit(line: string, t: string, k: nat)
    requires Strip(line) == t && k < |t| && Find(t, Separator, 0) == k
    ensures ParseLine(line) == Some(Question(Strip(t[..k]), Strip(t[k + 1..])))
  {
  }

  /** Only the first separator splits a line: later ones stay in the answer. */
  lemma ParseLineLaterSeparators()
    ensures ParseLine("a|b|c") == Some(Question("a", "b|c"))
  {
    ParseRecord("", "a", "", "", "b|c", "");
    assert "" + "a" + "" == "a";
    assert "a" + [Separator] == "a|";
    assert "a|" + "" + "b|c" + "" == "a|b|c";
  }
}
