# LLM crossword: a verified model of the builder, the solvers and the calibration loop

This project models the core of an LLM-driven crossword generator.

A language model proposes words one at a time. Each proposal is appended to the puzzle's word list, the whole grid is re-validated, and the word is popped again on a character conflict or an out-of-bounds cell.

Solving agents then guess the words of the finished puzzle through the same append/validate/rollback protocol. Their guesses are scored against the solution.

The share of agents that solved each word decides whether the puzzle matches the requested difficulty (EASY, MEDIUM or HARD). If it does not, the clues of the flagged words are rewritten and the round repeats.

The modules follow the program's structure:

- `Grid` (grid.dfy) covers grid validation. The specification is the function `Occupancy`, which scans the flattened cell list. The imperative walk `ComputeOccupancy`, with its in-place position map, is proved equal to it.
- `JsonText` (json_text.dfy) recovers the JSON object at the end of an oracle answer.
- `Proposals` (proposals.dfy) holds what the builder and the solvers share:
  - the mutable word list `WordList`, with append and pop;
  - the four kinds of oracle answer.
- `Generator` (generator.dfy) holds the word-proposal loop and the puzzle-building loop.
- `Solver` (solver.dfy) covers one guess, the solve loop, and scoring.
- `Calibration` (calibration.dfy) covers per-word accuracy, the bands and the rewrite decision.
- `Revision` (revision.dfy) covers the rewrite request, applying rewritten clues in place, and the revision loop.

The language model is an oracle. It appears in the model as a supplied answer stream `oracle: nat -> Response`, which makes every loop deterministic. A loop that starts reading at `pos` and returns `next` made exactly `next - pos` calls.

The two exceptions of the grid check are variants of `OccupancyResult`. Accuracies are pairs of counts. Thresholds are compared by cross-multiplication, and `ThresholdsByRatio` ties each comparison to the quotient itself as a `real`.

Two behaviours of the code are worth knowing. The model keeps both as written:

- The bounds check is `row > grid_size or column > grid_size` (helper.py:47). It applies only to a cell that is not yet occupied. So a cell at index `grid_size` passes, and so does any negative index, although a `grid_size` by `grid_size` grid has neither.
- For a MEDIUM target, the share of medium words must be strictly below three quarters (generator.py:187-189). So a puzzle whose words are all medium, for instance all at accuracy 0.6, does not match MEDIUM. Its decision is then a non-empty map whose flags are all false (`AllMediumStalls`). Only an empty map ends the revision loop (generator.py:276, 287), so that round sends an empty rewrite request and the loop goes on (`AllFalseRequestsNothing`, `NonEmptyDecisionContinues`).

## Model

| member | source | states |
|---|---|---|
| Grid.ComputeOccupancy | helper.py:26-63 | The word-by-word, letter-by-letter walk with its in-place position map returns exactly `Occupancy(ws, gridSize)`: the same cells and word list, or the same first violation. |
| Grid.Scan | helper.py:37-57 | Scanning cells either places them all or stops with a conflict or an out-of-bounds violation, never anything else. |
| Grid.WalkAt | helper.py:59-62 | Letter k of a word sits at (row, column + k) when across and at (row + k, column) when down. |
| Grid.WalkLength | helper.py:37 | A word contributes exactly one cell per letter. |
| Grid.CellsAppend | helper.py:31-57 | The cells of two consecutive word lists are the first list's cells followed by the second's, in placement order. |
| Grid.CellsCount | helper.py:55-57 | The position list has one entry per letter of every word; shared cells appear once per word. |
| Grid.CellsOfAppended | helper.py:31-57 | Appending a word appends exactly its cells. |
| Grid.WordsStep | helper.py:31-33 | The returned word list grows by the next entry's `word`, in input order. |
| Grid.ScanPlacedIff | helper.py:38-53 | A scan succeeds iff every cell agrees with the map's earlier character, all cells agree pairwise, and every cell not already in the map is in bounds. |
| Grid.OccupancyOkIff | helper.py:26-63 | A word list passes iff any two cells at the same position carry the same character and no cell lies beyond `gridSize` in row or column. |
| Grid.ScanConflictWitness | helper.py:38-46 | A conflict names a position where some cell carries a character other than `existing`, and `existing` is held there by the incoming map or by a cell at that position. |
| Grid.ScanOutOfBoundsWitness | helper.py:47-51 | An out-of-bounds result names a position beyond the bound that no earlier cell occupied, at the first cell with that position. |
| Grid.ScanKeepsPositions | helper.py:39-53 | The position map only grows: a recorded character is never overwritten. |
| Grid.ScanPrefix | helper.py:37-57 | If a cell list scans cleanly, so does every prefix of it. |
| Grid.OccupancyPrefix | helper.py:31-63 | Every prefix of a valid word list is valid. |
| Grid.OccupancyOfScan | helper.py:26-63 | The grid check's result is the scan's failure, or `Ok` with all cells and words when the scan places everything. |
| Grid.ScanAppend | helper.py:31-57 | Scanning two cell lists in turn is scanning the first, then, unless it failed, the second from the map the first left behind. |
| Grid.PlaceWord | helper.py:37-62 | The inner loop over one word's letters returns exactly the scan of that word's cells from the current map: the extended map, or the first violation. When the word is placed, it also returns exactly the word's cells. |
| JsonText.LastIndexOf | helper.py:82-83 | `rindex`: None iff the character is absent; otherwise an index holding it with no later occurrence. |
| JsonText.Candidate | helper.py:82-86 | No candidate iff either brace is missing. Otherwise the candidate runs from the last `{` through the last `}`, both included, and is empty exactly when the last `}` comes before the last `{`. A non-empty candidate starts with `{`, ends with `}` and holds no other `{`. |
| JsonText.ExtractJson | helper.py:76-95 | A missing brace gives the "No valid JSON found" string. An empty candidate, or one the parser rejects, gives the "Invalid JSON format" string. Otherwise the result is the parsed value of the candidate. |
| JsonText.BracesOutOfOrder | helper.py:82-93 | For the text `}{` the candidate is empty, and the result is the "Invalid JSON format" string. |
| JsonText.TrailingObject | helper.py:76-91 | An object without nested braces at the very end of any text is recovered exactly. |
| JsonText.NestedObjectLost | helper.py:82-86 | A nested object is cut at its inner `{`: `{"a":{}}` yields the candidate `{}}`. |
| Proposals.Interpret | generator.py:73 | Only a dict without a set `message` key becomes a proposal, carrying that dict; no extraction result is a raised call. |
| Proposals.AcceptedCells | generator.py:73-79 | An accepted proposal adds exactly its own cells after the old ones, the old list was valid, and its cells agree with every old cell at the same position. |
| Proposals.WordList.constructor | generator.py:96 | A new word list is empty. |
| Proposals.WordList.Append | generator.py:40-41 | The word is appended last. |
| Proposals.WordList.RemoveLast | generator.py:44-45 | The last word is removed. |
| Generator.WordAttempt | generator.py:56-88 | An attempt reads at least none and at most `retry_count` oracle answers. |
| Generator.WordAttemptFacts | generator.py:56-88 | An added word is the accepted proposal read last. A raised attempt ends on the failing call. An exhausted attempt read exactly `retry_count` answers. Every answer before the last one read was rejected. |
| Generator.Offer | generator.py:73-85 | The word stays appended iff the grid check accepts the longer list; otherwise the list is restored. Either way the list stays valid. |
| Generator.GenerateNextWord | generator.py:48-89 | The loop ends in the state `WordAttempt` describes for the same answers: the same calls made, the same added proposal appended last, or the list unchanged. The last answer read is returned. The list stays valid. |
| Generator.BuildFacts | generator.py:92-111 | One counted success per added word, never more than `word_count`. The budget stays in 0..3 and the puzzle stays valid. Unless a call raised, the loop ended at the target count or with an exhausted budget. |
| Generator.BuildExtends | generator.py:97-113 | The loop only appends, and every word it appends is a proposal the oracle made during the run. |
| Generator.Generate | generator.py:92-113 | The loop ends in the state `BuildRounds` describes for the same answers: the same words, count, budget, raised flag and calls made. Hence, by `BuildFacts` and `BuildExtends`, the puzzle holds `count <= word_count` valid words, all of them oracle proposals, and the stopping rule holds. |
| Solver.FilterClues | solver.py:74-78 | The kept clues are exactly those whose clue text differs from the answered one, and never more than before. |
| Solver.FilterCluesAppend | solver.py:76-78 | Filtering distributes over concatenation, so the kept clues keep their order. |
| Solver.FilterCluesIdempotent | solver.py:76-78 | Filtering again by the same clue changes nothing. |
| Solver.LowerChar | solver.py:144 | Upper-case ASCII letters shift to lower case; every other character is unchanged. |
| Solver.Lower | solver.py:144 | Lower-casing keeps the length. |
| Solver.Lookup | solver.py:143-144 | None iff no entry has the key; otherwise the answer of an entry with that key. |
| Solver.SolvedDistinct | solver.py:138-149 | The solved list has no duplicates and is no longer than the guess list. |
| Solver.SolvedMembers | solver.py:140-149 | A string is solved iff some guess at a solution key spells it and its lower-cased form is the stored answer. |
| Solver.UnsolvedAsWrittenFacts | solver.py:152-154 | As written, an answer is unsolved iff it does not occur verbatim among the solved strings. |
| Solver.UnsolvedFacts | solver.py:152-154 | As corrected, an answer is unsolved iff no solved word equals it once lower-cased. |
| Solver.ScoreDisjoint | solver.py:134-156 | With lower-case answers, the corrected solved and unsolved lists are disjoint, and every answer is either unsolved or matched by a solved word. |
| Solver.MixedCaseGuessCountedTwice | solver.py:144-154 | A correct guess "Bravo" for the answer "bravo" is listed as solved and, as written, also as unsolved; the corrected list omits it. |
| Solver.SolvePuzzleClue | solver.py:29-80 | It guesses iff the answer is a proposal that keeps the grid valid. On a guess the state gains that entry last and the clues are filtered by its clue. Otherwise, including a raised call, state and clues are unchanged. |
| Solver.Score | solver.py:134-156 | The scoring loops, with the `seen` set, return the solved list `Solved` and the unsolved list as written, `UnsolvedAsWritten`. The corrected `Unsolved` list is returned alongside. |
| Solver.SolveFacts | solver.py:94-113 | `unsolved_count` plus the number of kept guesses stays the puzzle size. The budget stays in 0..5 and the grid stays valid. The loop ends with nothing unsolved or no budget left, after at least one call per kept guess. |
| Solver.SolveExtends | solver.py:99-113 | The loop only appends oracle proposals. The clues still shown are original clues whose text no kept guess carried. |
| Solver.Solve | solver.py:83-156 | Below grid size 10 there is no result and no call. Otherwise the loop ends in the state `SolveRounds` describes for the same answers, one call per round: the same guesses, `unsolved_count`, budget and calls made. The result is the score as written of those guesses. Hence, by `SolveFacts` and `SolveExtends`, the counting, budget, stopping and validity facts hold. |
| Calibration.Count | generator.py:140-145 | A word's count in one list is zero iff the word is absent, and never more than the list's length. |
| Calibration.TallyAppend | generator.py:140-145 | Solved and unsolved tallies over two groups of reports add up. |
| Calibration.UnmentionedHasNoAttempts | generator.py:147-151 | A word that no report lists has zero attempts, which is the division by zero. |
| Calibration.FirstZeroAttempt | generator.py:147-151 | None iff every word has an attempt; otherwise the first word without one. |
| Calibration.WordAccuracy | generator.py:135-157 | One key per crossword word, holding its solved count and total count, with `0 < total` and `solved <= total`. Otherwise the first word in crossword order without attempts raises ZeroDivisionError. |
| Calibration.ThresholdsByRatio | generator.py:169-199 | The cross-multiplied bands and flags are exactly the comparisons of the accuracy ratio with 0.5 and 0.75. |
| Calibration.MatchesByRatio | generator.py:177-189 | The match test, per difficulty, is exactly the comparison of the number of words in the target band with 0.75 or 0.5 times the word count. |
| Calibration.FlagsAgainstBands | generator.py:169-199 | MEDIUM flags exactly the non-medium words. EASY flags every low word and no high one. HARD flags every high word and no low one. |
| Calibration.CountBand | generator.py:169-175 | A band never holds more words than the crossword. |
| Calibration.BandsPartition | generator.py:169-175 | Every word is in exactly one of the low, medium and high lists. |
| Calibration.AllInBand | generator.py:169-175 | When every word falls in one band, that band holds all of them. |
| Calibration.DecideUpdates | generator.py:160-201 | Empty when the puzzle matches the difficulty. Otherwise one key per crossword word, holding that word's rewrite flag. |
| Calibration.DecideUpdatesEmptyIff | generator.py:177-201 | The decision is empty iff the puzzle matches or has no words. |
| Calibration.UniformBandsMatch | generator.py:177-185 | An all-high puzzle matches EASY, and a non-empty all-low puzzle matches HARD. |
| Calibration.AllMediumStalls | generator.py:187-199 | A non-empty all-medium puzzle does not match MEDIUM: the decision is non-empty with every flag false. |
| Calibration.ThreeQuartersStallsEasy | generator.py:177-195 | A non-empty puzzle whose words all sit at exactly 0.75 does not match EASY, yet flags no word. |
| Calibration.CaseInsensitiveUnsolvedLeavesNoAttempts | generator.py:135-151 | For the answer "bravo" and one report that typed "Bravo", the report as written gives "bravo" one attempt and no solve. With the corrected unsolved list, no report names "bravo" verbatim, and get_word_perc divides by zero. |
| Revision.FlaggedDecision | generator.py:271-279 | When the puzzle matches, no word is flagged. Otherwise a word is flagged iff it is a crossword word whose accuracy misses the target (`NeedsRewrite`). |
| Revision.RequestMembers | generator.py:205-210 | The request holds exactly the word and current clue of each flagged crossword word, and no more entries than the crossword. |
| Revision.RequestAppend | generator.py:207-210 | Requests of consecutive parts concatenate, so the request is in crossword order. |
| Revision.NewClue | generator.py:224-228 | When no reply entry has the same word and a non-empty new clue, the clue is unchanged. When some entry has, the clue is the new clue of the last such entry. |
| Revision.ApplyAll | generator.py:224-228 | Every word keeps its position and gets its `NewClue`. |
| Revision.OccupancyIgnoresClues | generator.py:224-228 | Lists that differ only in clues get the same grid verdict. |
| Revision.ApplyAllKeepsPlacement | generator.py:224-228 | Applying a reply leaves every word, position and direction as it was. |
| Revision.WordsIgnoreClues | generator.py:224-228 | Lists that differ only in clues spell the same words in the same order. |
| Revision.ReviseKeepsGrid | generator.py:224-228 | Applying a reply changes only clues, so the grid verdict is unchanged. |
| Revision.ApplyClues | generator.py:224-228 | The nested in-place loops leave the crossword equal to `ApplyAll` of the old words and the reply. |
| Revision.UpdateCrossword | generator.py:204-228 | The request sent is `Request` of the crossword. A parsed reply is applied as `ApplyAll`. An unparseable one leaves the crossword untouched. |
| Revision.RevisionShape | generator.py:247-291 | At most `iterations` rounds are recorded, every one but the last with a non-empty decision. The run is matched iff it stopped without failure on an empty decision. Without failure or match it ran all rounds. A failure happens within the rounds. |
| Revision.RevisionExtends | generator.py:247-291 | Later rounds only append to the decisions recorded so far. |
| Revision.RevisionKeepsPlacement | generator.py:271-282 | The loop changes clues only. |
| Revision.RevisionDecisions | generator.py:271-274 | The decision recorded for round k is `DecideUpdates` of round k's reports, for the crossword's words. |
| Revision.RevisionFailure | generator.py:271-282 | A division-by-zero failure names a word that has no attempts in the failing round. An invalid-rewrite failure happens on a non-empty decision whose request the rewriter answered with text that does not parse. |
| Revision.AllFalseRequestsNothing | generator.py:276-282 | A decision whose flags are all false sends an empty rewrite request. |
| Revision.NonEmptyDecisionContinues | generator.py:276-291 | A non-empty decision, even one with every flag false, does not end the loop: when the reply parses, the round is recorded with that decision and the run does not match on it. |
| Revision.GenerateCrossword | generator.py:247-291 | The loop ends in the state `Revise` describes for the same reports and replies: the same clues, decisions per round, match and failure. Hence, by the lemmas above, it records at most `iterations` rounds, changes only clues, stops early only on an empty decision or a raised failure, and records `DecideUpdates` of each round's reports. |

## Left out

- Oracle transport (`llm.invoke`, prompt templates, `read_prompt_template`). The oracle is the supplied answer stream, or a supplied function for reports and rewrites.
- `json.loads` is an abstract parser. A parsed value is reduced to a proposal dict, a dict with a set `message`, or anything else. A present but falsy `message` counts as a proposal, as in the source.
- Dicts with missing keys (the source's `KeyError`) are not modelled. An entry always has `word`, `row`, `column`, `isAcross` and `clue`, with `isAcross` already a boolean.
- Solver.Lower: models Python's `str.lower` on ASCII letters only; other Unicode case mappings are not modelled.
- Accuracies are exact ratios. Python's float division rounds, which could only matter for counts near 2^53.
- `return_clue_metadata` and `Difficulty` are not part of this model.
  - The clue metadata and the solution are given. The solution is a sequence of keyed entries standing for the dict, with distinct keys and lower-case answers.
  - The difficulty is one of EASY, MEDIUM and HARD.
- `write_file`, reading the puzzle and crossword files, `print` and `queue.put` logging, and grid rendering are not modelled.
- The process pool and `Manager` queue of `generate_crossword`, and `solve_wrapper`, are not modelled. The per-round agent reports are a given function of the round.
- The command-line interface, `generator_gpt.py` and `configs/solver.py` are not part of this model.
- Generator.GenerateNextWord: requires the incoming list to pass the grid check. In the source, its first validation raises on an invalid list, but no caller passes one.
- Solver.SolvePuzzleClue: requires the incoming list to pass the grid check, for the same reason.

## Findings

| source | as written | input that shows it | evidently intended | confidence | as-written member | corrected member |
|---|---|---|---|---|---|---|
| solver.py:152-154 | Each lower-case answer is compared verbatim against the solved guesses. Those keep the agent's letter case. | Solution {(0, 1, across): "bravo"} and the single guess "Bravo" at (0, 1, across). | Possibly an answer matched case-insensitively by a solved guess is not also unsolved, as the solved test on line 144 compares lower-cased. This is not certain: get_word_perc (generator.py:140-151) looks up crossword words verbatim in both lists, so with the corrected list "bravo" would have no attempts and raise ZeroDivisionError. | not executed; low | Solver.UnsolvedAsWritten | Solver.Unsolved |

With the input above, the guess is counted as solved, and "bravo" is still listed as unsolved (`Solver.MixedCaseGuessCountedTwice`). `Solver.Score` returns the list as written, which `Solver.Solve` reports, and the corrected list alongside. `Solver.ScoreDisjoint` proves the corrected lists disjoint. `Calibration.CaseInsensitiveUnsolvedLeavesNoAttempts` shows the cost of the correction downstream: as written, the report gives "bravo" one attempt; with the corrected list, get_word_perc divides by zero.
