/**
 * One game of `main`: the player starts on the top-left cell, answers a question popped
 * from the end of the pool on each cell in row-major order, and wins once all sixteen
 * cells are answered. The pool is never refilled: popping from an empty pool ends the game
 * with an error.
 */
module Session {
  import opened Grid
  import opened QuestionBank
  import opened Quiz

  /** The locals of `main` that carry over from round to round. */
  datatype Session = Session(
    answered: set<Cell>,   // `answered_cells`
    score: int,            // `score[0]`
    round: int,            // `round_num`
    pool: seq<Question>,   // `question_pool`, popped from the end
    player: Cell)          // `(player_row, player_col)`

  datatype RoundOutcome =
    | Answered(correct: bool)  // Enter was pressed on this cell
    | Waiting(answer: string)  // the keys ran out before Enter; `quiz` would still be polling
    | PoolEmpty                // `question_pool.pop()` on an empty list

  datatype SessionResult =
    | Won(score: int, answered: set<Cell>, round: int, pool: seq<Question>)
    | Crashed(round: int)                 // the round whose question could not be popped
    | Stalled(round: int, answer: string) // the round still waiting for Enter

  /** The keys typed in round `j` (counted from 0); a round with no keys never ends. */
  function KeysFor(rounds: seq<seq<Key>>, j: nat): seq<Key> {
    if j < |rounds| then rounds[j] else []
  }

  /** The question of round `j`: the pool is popped from its end. */
  function Asked(questions: seq<Question>, j: nat): Question
    requires j < |questions|
  {
    questions[|questions| - 1 - j]
  }

  /** Whether a round with these keys is judged correct: it must end with Enter. */
  predicate RoundCorrect(q: Question, keys: seq<Key>) {
    Enter in keys && IsCorrect(Typed(keys[..FirstEnter(keys)]), q.answer)
  }

  /** The score after the first `k` rounds, each worth ten points up or down. */
  function ScoreAfter(questions: seq<Question>, rounds: seq<seq<Key>>, k: nat): (score: int)
    requires k <= |questions|
    ensures SameParity(score, k)
  {
    if k == 0 then 0
    else
      var previous := ScoreAfter(questions, rounds, k - 1);
      var step := if RoundCorrect(Asked(questions, k - 1), KeysFor(rounds, k - 1)) then Points else -Points;
      ScoreStep(previous, k, step);
      previous + step
  }

  /** `score` differs from `-10 * k` by a multiple of 20: each round moves it by ten either way. */
  predicate SameParity(score: int, k: nat) {
    (score + 10 * k) % 20 == 0
  }

  lemma ScoreStep(previous: int, k: nat, step: int)
    requires k >= 1 && (step == Points || step == -Points)
    requires SameParity(previous, k - 1)
    ensures SameParity(previous + step, k)
  {
    var x := previous + 10 * (k - 1);
    assert previous + step + 10 * k == x + (step + 10);
    if step == Points {
      assert (x + 20) % 20 == x % 20;
    }
  }

  /** After `k` rounds the score is between -10k and 10k. */
  lemma {:induction false} ScoreBounds(questions: seq<Question>, rounds: seq<seq<Key>>, k: nat)
    requires k <= |questions|
    ensures -Points * k <= ScoreAfter(questions, rounds, k) <= Points * k
  {
    if k > 0 {
      ScoreBounds(questions, rounds, k - 1);
    }
  }

  /** Every one of the first `k` rounds ends with Enter. */
  predicate AllSubmitted(rounds: seq<seq<Key>>, k: nat) {
    forall j :: 0 <= j < k ==> Enter in KeysFor(rounds, j)
  }

  /**
   * One round on the player's cell: pop the last question, run the key loop on it, and on
   * Enter mark the cell answered, move the score and count the round.
   */
  method PlayRound(s: Session, keys: seq<Key>) returns (next: Session, outcome: RoundOutcome)
    ensures s.pool == [] ==> outcome == PoolEmpty && next == s
    ensures s.pool != [] ==>
              && next.pool == s.pool[..|s.pool| - 1]
              && next.player == s.player
              && (Enter in keys ==>
                    var correct := RoundCorrect(s.pool[|s.pool| - 1], keys);
                    && outcome == Answered(correct)
                    && next.answered == s.answered + {s.player}
                    && next.round == s.round + 1
                    && next.score == s.score + if correct then Points else -Points)
              && (Enter !in keys ==>
                    && outcome == Waiting(Typed(keys))
                    && next.answered == s.answered && next.round == s.round && next.score == s.score)
  {
    if s.pool == [] {
      return s, PoolEmpty;
    }
    var q := s.pool[|s.pool| - 1];
    var pool := s.pool[..|s.pool| - 1];
    var result := Quiz.Quiz(keys, q.answer, s.score);
    match result
    case Resolved(correct, score) =>
      next := Session(s.answered + {s.player}, score, s.round + 1, pool, s.player);
      outcome := Answered(correct);
    case Pending(answer) =>
      next := s.(pool := pool);
      outcome := Waiting(answer);
  }

  /** The state of the game after `k` answered rounds. */
  ghost predicate AfterRounds(questions: seq<Question>, rounds: seq<seq<Key>>, s: Session, k: nat) {
    && 1 <= k <= TotalCells
    && k <= |questions|
    && |s.answered| == k
    && s.answered == Prefix(k)
    && s.player == CellAt(k - 1)
    && s.round == k + 1
    && s.pool == questions[..|questions| - k]
    && AllSubmitted(rounds, k)
    && s.score == ScoreAfter(questions, rounds, k)
  }

  /** A round played from the state after `k` rounds on the next cell gives the state after `k + 1`. */
  lemma RoundStep(questions: seq<Question>, rounds: seq<seq<Key>>, s: Session, k: nat, t: Session)
    requires AfterRounds(questions, rounds, s, k) && k < TotalCells && k < |questions|
    requires Enter in KeysFor(rounds, k)
    requires t.answered == s.answered + {CellAt(k)} && t.player == CellAt(k)
    requires t.round == s.round + 1 && t.pool == s.pool[..|s.pool| - 1]
    requires t.score == s.score + if RoundCorrect(s.pool[|s.pool| - 1], KeysFor(rounds, k)) then Points else -Points
    ensures AfterRounds(questions, rounds, t, k + 1)
  {
    PrefixNext(k);
    PrefixSize(k + 1);
    assert s.pool[|s.pool| - 1] == Asked(questions, k);
    assert t.pool == questions[..|questions| - (k + 1)];
  }

  /** The first quiz of `main` (lines 162-168), asked on the top-left cell. */
  lemma FirstRound(questions: seq<Question>, rounds: seq<seq<Key>>, t: Session)
    requires |questions| >= 1 && Enter in KeysFor(rounds, 0)
    requires t.answered == {Cell(0, 0)} && t.player == Cell(0, 0) && t.round == 2
    requires t.pool == questions[..|questions| - 1]
    requires t.score == if RoundCorrect(questions[|questions| - 1], KeysFor(rounds, 0)) then Points else -Points
    ensures AfterRounds(questions, rounds, t, 1)
  {
    assert CellAt(0) == Cell(0, 0);
    PrefixNext(0);
    PrefixSize(1);
  }

  /** The first round, counting from 0, whose keys hold no Enter (or `n` if there is none). */
  function FirstUnsubmitted(rounds: seq<seq<Key>>, n: nat): (j: nat)
    ensures j <= n && AllSubmitted(rounds, j)
    ensures j < n ==> Enter !in KeysFor(rounds, j)
  {
    if n == 0 then 0
    else
      var j := FirstUnsubmitted(rounds, n - 1);
      if j < n - 1 then j
      else if Enter in KeysFor(rounds, n - 1) then n
      else n - 1
  }

  /**
   * What one game of `main` (lines 150-210) comes to, from the shuffled pool onwards. It is
   * won exactly when the pool holds sixteen questions and every round ends with Enter; the
   * winner has answered every cell once, in sixteen rounds, leaving all but the last sixteen
   * questions in the pool, with the score the verdicts add up to, which is within `MaxScore`
   * of zero. Otherwise the game crashes in the first round that finds the pool empty, or
   * stalls in the first round that never sees Enter, whichever comes first.
   */
  ghost predicate Describes(questions: seq<Question>, rounds: seq<seq<Key>>, result: SessionResult)
    ensures Describes(questions, rounds, result) && result.Won? ==> SameParity(result.score, TotalCells)
  {
    && (result.Won? <==> |questions| >= TotalCells && AllSubmitted(rounds, TotalCells))
    && (result.Won? ==>
          && result.answered == AllCells() && |result.answered| == TotalCells
          && result.round == TotalCells + 1
          && result.pool == questions[..|questions| - TotalCells]
          && result.score == ScoreAfter(questions, rounds, TotalCells)
          && -MaxScore <= result.score <= MaxScore)
    && (result.Crashed? ==>
          && |questions| < TotalCells && AllSubmitted(rounds, |questions|)
          && result.round == |questions| + 1)
    && (result.Stalled? ==>
          var j := FirstUnsubmitted(rounds, TotalCells);
          && j < TotalCells && j < |questions|
          && result.round == j + 1
          && result.answer == Typed(KeysFor(rounds, j)))
  }

  /** The main loop of `main`, from the first quiz to the end of one game. */
  method RunSession(questions: seq<Question>, rounds: seq<seq<Key>>) returns (result: SessionResult)
    ensures Describes(questions, rounds, result)
  {
    var s, outcome := FirstQuiz(questions, rounds);
    if outcome.PoolEmpty? {
      CrashedDescribed(questions, rounds, 0);
      return Crashed(1);
    } else if outcome.Waiting? {
      StalledDescribed(questions, rounds, 0, outcome.answer);
      return Stalled(1, outcome.answer);
    }
    var k := 1;
    while |s.answered| != TotalCells
      invariant AfterRounds(questions, rounds, s, k)
      decreases TotalCells - k
    {
      var next;
      next, outcome := PlayCell(questions, rounds, s, k);
      if outcome.PoolEmpty? {
        CrashedDescribed(questions, rounds, k);
        return Crashed(s.round);
      } else if outcome.Waiting? {
        StalledDescribed(questions, rounds, k, outcome.answer);
        return Stalled(s.round, outcome.answer);
      }
      s, k := next, k + 1;
    }
    WonDescribed(questions, rounds, s);
    return Won(s.score, s.answered, s.round, s.pool);
  }

  /**
   * The start of a game (lines 152-168): the player on the top-left cell, score 0, round 1
   * and the whole pool, then the first quiz on that cell.
   */
  method FirstQuiz(questions: seq<Question>, rounds: seq<seq<Key>>) returns (s: Session, outcome: RoundOutcome)
    ensures outcome.PoolEmpty? ==> |questions| == 0
    ensures outcome.Waiting? ==>
              && 0 < |questions| && Enter !in KeysFor(rounds, 0)
              && outcome.answer == Typed(KeysFor(rounds, 0))
    ensures outcome.Answered? ==> AfterRounds(questions, rounds, s, 1)
  {
    var start := Session({}, 0, 1, questions, Cell(0, 0));
    s, outcome := PlayRound(start, KeysFor(rounds, 0));
    if outcome.Answered? {
      FirstRound(questions, rounds, s);
    }
  }

  /**
   * One pass of the loop of `main` (lines 172-210) after `k` answered rounds, before the
   * board is complete: the scan moves the player to the cell at position `k`, and the round
   * there crashes when the pool is empty, waits when its keys hold no Enter, and otherwise
   * leads to the state after `k + 1` rounds.
   */
  method PlayCell(questions: seq<Question>, rounds: seq<seq<Key>>, s: Session, k: nat)
    returns (next: Session, outcome: RoundOutcome)
    requires AfterRounds(questions, rounds, s, k) && k < TotalCells
    ensures outcome.PoolEmpty? ==> k == |questions|
    ensures outcome.Waiting? ==>
              && k < |questions| && Enter !in KeysFor(rounds, k)
              && outcome.answer == Typed(KeysFor(rounds, k))
    ensures outcome.Answered? ==> AfterRounds(questions, rounds, next, k + 1)
  {
    var cell, found := NextUnanswered(s.answered, s.player);
    CompleteOfPrefix(k);
    NextOfPrefix(k, cell);
    var here := s.(player := cell);
    next, outcome := PlayRound(here, KeysFor(rounds, k));
    if outcome.Answered? {
      RoundStep(questions, rounds, s, k, next);
    }
  }

  lemma WonDescribed(questions: seq<Question>, rounds: seq<seq<Key>>, s: Session)
    requires AfterRounds(questions, rounds, s, TotalCells)
    ensures Describes(questions, rounds, Won(s.score, s.answered, s.round, s.pool))
  {
    ScoreBounds(questions, rounds, TotalCells);
  }

  lemma CrashedDescribed(questions: seq<Question>, rounds: seq<seq<Key>>, k: nat)
    requires k == |questions| < TotalCells && AllSubmitted(rounds, k)
    ensures Describes(questions, rounds, Crashed(k + 1))
  {
  }

  lemma StalledDescribed(questions: seq<Question>, rounds: seq<seq<Key>>, k: nat, answer: string)
    requires k < TotalCells && k < |questions| && AllSubmitted(rounds, k)
    requires Enter !in KeysFor(rounds, k) && answer == Typed(KeysFor(rounds, k))
    ensures Describes(questions, rounds, Stalled(k + 1, answer))
  {
    FirstUnsubmittedAt(rounds, k, TotalCells);
  }

  /** A round without Enter after only submitted rounds is the first such round. */
  lemma {:induction false} FirstUnsubmittedAt(rounds: seq<seq<Key>>, j: nat, n: nat)
    requires j < n && AllSubmitted(rounds, j) && Enter !in KeysFor(rounds, j)
    ensures FirstUnsubmitted(rounds, n) == j
  {
    if j < n - 1 {
      FirstUnsubmittedAt(rounds, j, n - 1);
    } else {
      var i := FirstUnsubmitted(rounds, n - 1);
      assert i < n - 1 ==> Enter in KeysFor(rounds, i);
    }
  }

  /**
   * The description leaves one outcome for each pool and key sequence: the game cannot both
   * crash and stall, and each outcome's fields are fixed.
   */
  lemma DescribesDeterministic(questions: seq<Question>, rounds: seq<seq<Key>>, a: SessionResult, b: SessionResult)
    requires Describes(questions, rounds, a) && Describes(questions, rounds, b)
    ensures a == b
  {
    var j := FirstUnsubmitted(rounds, TotalCells);
  }
}
