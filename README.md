# Adrik's Maze — a verified model of the quiz game's logic

Adrik's Maze is a single-player quiz game on a 4x4 board. A player token starts in the
top-left cell. On each cell the game pops a `prompt|answer` question from a shuffled pool.
The player types an answer and presses Enter. A correct answer is worth +10 points and a
wrong one -10. The token then moves to the next unanswered cell in row-major order. The
game is won once all sixteen cells are answered, and then it starts over.

This project models the logic under the drawing calls of `Adrik_Maze.py`, one module per
piece:

- `Text` (`text.dfy`): the Python string operations the game uses. These are `strip()`,
  `lower()` on ASCII letters, `rstrip(string.punctuation)` and `split()`, plus the
  single-space joining that `wrap_text` performs with `current_line += " " + word`.
  Whitespace is the set Python's `str.isspace()` accepts.
- `QuestionBank` (`question_bank.dfy`): the line parser of `load_questions_from_file`.
  The shuffle is modelled as an arbitrary permutation of the parsed list.
- `Wrap` (`wrap.dfy`): the greedy word wrapper `wrap_text`, including its fit test. That
  test always counts a leading space, so a first word of `max_chars` characters or more
  is preceded by an empty line.
- `Grid` (`grid.dfy`): the board constants, `get_cell_center`, and the row-major scan
  that picks the next unanswered cell.
- `Quiz` (`quiz.dfy`): the key loop of `quiz`. It edits an answer buffer, normalises the
  answer and the expected answer on Enter, compares them, and moves the score.
- `Session` (`session.dfy`): one game of `main`. It tracks the answered cells, the score,
  the round counter and the pool, which is popped from its end.
- `Options` (`options.dfy`): an optional value.

The loops of the source stay loops. `LoadQuestions`, `WrapText`, `Quiz`,
`NextUnanswered` and `RunSession` are methods with `while`/`for` loops:

- `LoadQuestions` is proved against the function `Parsed`.
- `WrapText` is proved against `FullWrap` and `FirstLines`.
- `Quiz` is proved against `Typed`, `FirstEnter` and `IsCorrect`.
- `NextUnanswered` states in its own contract that it finds the first unanswered cell in
  row-major order. `NextOfPrefix` then relates that cell to `Prefix` when `PlayCell` uses it.
- `RunSession` is proved against the predicate `Describes`. That predicate fixes the cells,
  the round, the pool and the score (through `ScoreAfter`) of a won game, as well as the
  round of a crashed or waiting game.

Lemmas prove the source's promises about these functions. The locals of `main` that live
across rounds form a `Session` value that each round takes and returns. The one-element
`score` list that `quiz` updates becomes an integer passed in and returned.

## Model

| member | source | states |
|---|---|---|
| `Text.IsSpace` | Adrik_Maze.py:23 | the whitespace of `str.isspace()`: space, tab, newline and carriage return are in it, and no visible ASCII character is |
| `Text.IsPunctuation` | Adrik_Maze.py:96-97 | `string.punctuation` is exactly the visible ASCII characters that are not letters or digits |
| `Text.Strip` | Adrik_Maze.py:23 | `strip()` returns a string with no whitespace at either end |
| `Text.StripSlice` | Adrik_Maze.py:23 | `strip()` cuts one slice out of the string and removes only whitespace before and after it |
| `Text.StripPadded` | Adrik_Maze.py:23 | stripping a stripped text padded with any whitespace gives back exactly that text |
| `Text.StripOfStripped` | Adrik_Maze.py:27 | `strip()` leaves an already stripped string unchanged |
| `Text.TrimRight` | Adrik_Maze.py:96-97 | `rstrip(chars)` returns a prefix of the string; every dropped character is in the set, and the last kept one is not |
| `Text.TrimRightAppend` | Adrik_Maze.py:96-97 | `rstrip(chars)` removes any suffix made only of characters from the set |
| `Text.Lower` | Adrik_Maze.py:96-97 | `lower()` keeps the length and lowers each ASCII capital, leaving every other character as it is |
| `Text.LowerKeepsClass` | Adrik_Maze.py:96-97 | `lower()` neither creates nor removes whitespace or punctuation |
| `Text.LowerLower` | Adrik_Maze.py:96-97 | lowering twice is the same as lowering once |
| `Text.StripLower` | Adrik_Maze.py:96-97 | `strip()` and `lower()` commute |
| `Text.PunctuationIsNotSpace` | Adrik_Maze.py:96-97 | no character of `string.punctuation` is whitespace |
| `Text.WordLength` | Adrik_Maze.py:35 | the first word of a string ends at the first whitespace character, or at the end of the string |
| `Text.Words` | Adrik_Maze.py:35 | every element of `split()` is non-empty and contains no whitespace |
| `Text.WordsAfterSpace` | Adrik_Maze.py:35 | whitespace in front of a text adds no word to `split()` |
| `Text.WordsOfWord` | Adrik_Maze.py:35 | a word ending at whitespace or at the end of the text is the first element of `split()`, followed by the words of the rest; with `WordsAfterSpace` this fixes `split()` on every text as the maximal runs of non-whitespace characters |
| `Text.WordsKeepNonSpace` | Adrik_Maze.py:35 | concatenating the words of `split()` gives the string's non-whitespace characters in order, so no character is lost |
| `Text.WordsOfJoin` | Adrik_Maze.py:35-40 | splitting words that were joined by single spaces gives back those words |
| `Text.JoinSpace` | Adrik_Maze.py:40 | the text `current_line` holds once line 40 has added these words to an empty line: empty for no words, and starting with the first word otherwise |
| `Text.JoinSpaceEmpty` | Adrik_Maze.py:40-44 | a join of words is empty exactly when there are no words |
| `Text.JoinSpaceSnoc` | Adrik_Maze.py:40 | `current_line += " " + word` appends one word to the joined line |
| `QuestionBank.ParseLine` | Adrik_Maze.py:23-27 | a stripped line is kept exactly when it contains the separator, and the kept prompt and answer are stripped |
| `QuestionBank.ParseLineKept` | Adrik_Maze.py:23-27 | a line is kept exactly when it contains the separator; its prompt then holds no separator, and both fields are stripped |
| `QuestionBank.ParseRecord` | Adrik_Maze.py:23-27 | a prompt, the separator and an answer, with any whitespace around either field, parse to exactly `(prompt, answer)` when the prompt holds no separator; later separators stay in the answer |
| `QuestionBank.ParseLineLaterSeparators` | Adrik_Maze.py:26 | for the one example line `a`, separator, `b`, separator, `c`: the prompt is `a` and the answer is `b`, separator, `c`, as a split at the first separator only gives |
| `QuestionBank.Parsed` | Adrik_Maze.py:22-27 | at most one question per line of the file, and exactly one per line when every line contains the separator |
| `QuestionBank.ParsedAppend` | Adrik_Maze.py:22-27 | parsing two parts of a file gives each part's questions in file order |
| `QuestionBank.ParsedMembers` | Adrik_Maze.py:22-27 | a question is in the parsed list exactly when some line of the file parses to it |
| `QuestionBank.LoadQuestions` | Adrik_Maze.py:19-29 | the loaded list is a permutation of the questions of the kept lines in file order |
| `Wrap.Place` | Adrik_Maze.py:39-43 | one step of the loop keeps the words in order: the lines emitted and the open line, put together, gain exactly the new word at the end, and the open line is never empty afterwards |
| `Wrap.PackAll` | Adrik_Maze.py:38-43 | after the loop the emitted lines and the open line hold exactly the text's words in order, and the open line is non-empty when there was any word |
| `Wrap.FullWrap` | Adrik_Maze.py:44-45 | every line after the first is non-empty, and every line is its own words joined by single spaces |
| `Wrap.FirstLines` | Adrik_Maze.py:46 | `lines[:4]`: a prefix of the lines holding at most four, and all of them when fewer than four remain |
| `Wrap.WrapText` | Adrik_Maze.py:34-46 | the append loop returns the first four lines of the greedy packing of `text.split()` |
| `Wrap.Groups` | Adrik_Maze.py:35-45 | the lines of the full wrap, as word lists, concatenate to `text.split()`, so no word is lost, added or reordered |
| `Wrap.WrapShape` | Adrik_Maze.py:38-45 | only the first line can be empty, exactly when the first word plus one space exceeds `max_chars`; a line of two or more words fits; each line's first word did not fit on the line before |
| `Wrap.PackAllWellPacked` | Adrik_Maze.py:38-45 | the loop's packing keeps every word in order, fits its multi-word lines, and is greedy |
| `Wrap.LinesReadBack` | Adrik_Maze.py:38-45 | each emitted line, split again, gives back the words packed onto it, and every line after the first is non-empty |
| `Wrap.WrapTextLines` | Adrik_Maze.py:34-46 | `wrap_text` returns at most 4 lines that are a prefix of the full wrap; only the first can be empty; a line of several words has at most `max_chars` characters |
| `Wrap.WrapTextWords` | Adrik_Maze.py:35-46 | every returned line is its words joined by single spaces, and those words, in order, are a prefix of `text.split()` |
| `Wrap.WrapLongFirstWord` | Adrik_Maze.py:39-45 | when the first word of a text has `max_chars` characters or more, the wrap starts with an empty line followed by a line holding just that word |
| `Grid.CellAt` | Adrik_Maze.py:184-186 | row-major position `i` names the board cell whose row-major index is `i` |
| `Grid.IndexOfCell` | Adrik_Maze.py:184-186 | row-major order numbers the sixteen cells one to one |
| `Grid.PrefixSize` | Adrik_Maze.py:160 | the first `k` cells in row-major order are `k` distinct cells |
| `Grid.AllCellsAreGrid` | Adrik_Maze.py:160 | the board is exactly the cells with both coordinates in `[0, 4)`, and it has 16 of them |
| `Grid.CellCenter` | Adrik_Maze.py:31-32 | for any row and column the centre lies in that cell's square: dividing by 150 gives the column and the row back, with 75 left over on each axis |
| `Grid.CellCenterInside` | Adrik_Maze.py:31-32 | for a board cell, `get_cell_center` is `(col*150+75, row*150+75)`, strictly inside the cell's square and on the board, and dividing by 150 recovers the cell |
| `Grid.CellCenterInjective` | Adrik_Maze.py:31-32 | distinct board cells have distinct centres |
| `Grid.NextUnanswered` | Adrik_Maze.py:183-191 | the nested scan finds the first row-major cell not answered, when one exists; otherwise nothing is found, every cell is answered, and the player stays where they were |
| `Grid.NextOfPrefix` | Adrik_Maze.py:184-191 | when the first `k` cells are answered, the scan picks the cell at row-major position `k` |
| `Grid.CompleteOfPrefix` | Adrik_Maze.py:172-191 | with the first `k` cells answered, every cell is answered exactly when `k == 16` |
| `Quiz.Edit` | Adrik_Maze.py:129-136 | Backspace drops the last character, or leaves an empty buffer empty; a one-character key is appended; any other key leaves the buffer unchanged |
| `Quiz.Typed` | Adrik_Maze.py:129-136 | the buffer after a key sequence holds at most one character per key |
| `Quiz.FirstEnter` | Adrik_Maze.py:94-95 | names the position of the first Enter key |
| `Quiz.Normalize` | Adrik_Maze.py:96-97 | the normalised answer is a prefix of the stripped, lowered text, and only punctuation follows it there; it has no leading whitespace, no capital letters and no trailing punctuation |
| `Quiz.IsCorrect` | Adrik_Maze.py:96-101 | an answer that differs from the expected one only in ASCII case and surrounding whitespace is accepted |
| `Quiz.Quiz` | Adrik_Maze.py:92-136 | the round ends exactly when an Enter arrives; the verdict is `normalize(buffer) == normalize(expected)` for the buffer typed before the first Enter, and the score moves by exactly +10 or -10; without Enter the buffer is what the keys typed and the score is unchanged |
| `Quiz.TypedCharKeys` | Adrik_Maze.py:133-134 | typing the characters of `s` one key at a time fills the buffer with `s` |
| `Quiz.BackspaceUndoes` | Adrik_Maze.py:129-134 | Backspace removes a character that was just typed |
| `Quiz.IgnoredKeys` | Adrik_Maze.py:129-136 | keys that are neither Backspace nor one character leave the buffer empty |
| `Quiz.NormalizeIgnoresCase` | Adrik_Maze.py:96-97 | the comparison ignores ASCII case |
| `Quiz.NormalizeIgnoresTrailingPunctuation` | Adrik_Maze.py:96-97 | punctuation typed after a non-empty stripped answer does not change the verdict |
| `Quiz.EmptyAnswer` | Adrik_Maze.py:96-101 | an empty buffer is correct exactly when the expected answer normalises to the empty string |
| `Quiz.ParisExample` | Adrik_Maze.py:96-102 | `"Paris!"` is accepted for `"paris"` |
| `Quiz.NormalizeNotIdempotent` | Adrik_Maze.py:96 | `"paris !"` normalises to `"paris "`, which normalises to `"paris"`, so normalising is not idempotent |
| `Quiz.NormalForm` | Adrik_Maze.py:96-97 | a stripped, lowered text that does not end in punctuation normalises to itself |
| `Session.ScoreAfter` | Adrik_Maze.py:101-116 | after `k` rounds starting from 0, the score differs from `-10k` by a multiple of 20, because each round moves it by exactly ten either way |
| `Session.ScoreBounds` | Adrik_Maze.py:101-116 | after `k` rounds that started from score 0, the score lies in `[-10k, 10k]` |
| `Session.PlayRound` | Adrik_Maze.py:163-168 | a round pops the last question, or reports an empty pool and changes nothing. On Enter it adds the player's cell to the answered cells, moves the score by ±10 by the verdict, and counts the round. Without Enter, only the pop happens |
| `Session.FirstRound` | Adrik_Maze.py:150-168 | the first quiz on the top-left cell, starting from score 0, gives the state after one round |
| `Session.RoundStep` | Adrik_Maze.py:206-210 | a resolved round on the next cell in row-major order adds exactly one new cell; the round counter stays at the number of answered cells plus one; the pool shrinks by one from its end |
| `Session.FirstQuiz` | Adrik_Maze.py:150-168 | the game's start crashes only on an empty pool, waits only when the first round has no Enter, and otherwise reaches the state after one round |
| `Session.PlayCell` | Adrik_Maze.py:172-210 | one pass of the loop moves to the cell at row-major position `k`, then crashes exactly on an empty pool, waits when there is no Enter, or reaches the state after `k + 1` rounds |
| `Session.Describes` | Adrik_Maze.py:150-210 | a won game ends with a score that differs from -160 by a multiple of 20, so the score is a multiple of 20 |
| `Session.DescribesDeterministic` | Adrik_Maze.py:150-210 | the description allows exactly one outcome for each pool and key sequence, so a game cannot both crash and stall |
| `Session.RunSession` | Adrik_Maze.py:150-210 | a game is won exactly when the pool holds at least 16 questions and every round ends with Enter. The winner has answered all 16 cells once, in 16 rounds, with the last 16 questions popped and a score in `[-160, 160]`. Otherwise it crashes when the pool runs out, or waits in the first round without Enter |
| `Session.WonDescribed` | Adrik_Maze.py:172-180 | the state after 16 rounds is a won game with every cell answered and the score within `MAX_SCORE` of zero |
| `Session.CrashedDescribed` | Adrik_Maze.py:203-206 | running out of questions after every question was answered is a crash in the next round |
| `Session.StalledDescribed` | Adrik_Maze.py:92-137 | the first round whose keys hold no Enter is where the game waits, holding the typed buffer |

## Left out

- Drawing is not modelled: the canvas, images, the token, text rendering, `moveto`, `delete`
  and `clear`. These are calls into a graphics library that is not part of this model
  (lines 48-84, 104-125, 141-149, 173-179, 194).
- Keyboard polling (`get_new_key_presses`, `wait_for_click`) is replaced by a given key
  sequence per round. Keys that arrive after the first Enter in a round are dropped, as the
  rest of a polled batch is dropped when `quiz` returns. A round whose keys hold no Enter
  is reported as a waiting game, where the source keeps polling forever.
- `time.sleep` pauses are left out because they are timing only.
- `random.shuffle` is modelled as an arbitrary permutation. The `random.choice` of avatar
  and praise images is left out.
- Opening and UTF-8 decoding of `questions.txt` are left out; the parser receives the
  file's lines. `lower()` is modelled for ASCII letters only.
- `preload_questions` is never defined. The refill at lines 203-204 would raise a
  `NameError`, and the first `pop()` on an empty pool raises an `IndexError`. Both are
  modelled as a crashed game; no refill is invented.
- The `feedback_map` clearing (lines 196-200) is left out because no cell is revisited
  during a game. The unused `call_gpt` import, the "-10 points!" label shown on a correct
  answer, and the values `quiz` returns besides its verdict are display-only or unused.
- The outer `while True` of `main` starts a fresh game after each win. `RunSession` models
  one game, because nothing carries over from one game to the next.
- The `score` list is shared between `main` and `quiz`. The model passes the score into
  `Quiz` and returns the new value, which has the same effect but does not model aliasing.
- `Grid.CellCenterInside` states the exact coordinates and the on-board bounds only for cells
  on the board. The source computes the centre for any row and column, but it only calls
  it on board cells. `Grid.CellCenter`'s own contract holds for every row and column.
- `load_questions_from_file` does not raise an error when no line survives filtering.
  The model follows the code: the empty list comes back, and the game crashes on its
  first `pop()`.
