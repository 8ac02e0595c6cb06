/**
 * One solving agent: it guesses words for a fixed puzzle through the same
 * append/validate/rollback protocol as the builder, drops the clue it has
 * answered from the clues still shown to it, and finally scores its guesses
 * against the solution.
 */
module Solver {
  import opened Grid
  import opened JsonText
  import opened Proposals

  /** What an agent sees of a puzzle word: everything but the answer. */
  datatype ClueMetadata = ClueMetadata(row: int, column: int, isAcross: bool, length: nat, clue: string)

  /** The key under which the solution stores an answer. */
  datatype Key = Key(row: int, column: int, isAcross: bool)

  /** One entry of the solution dict, in the dict's insertion order; answers are lower case. */
  datatype SolutionEntry = SolutionEntry(key: Key, answer: string)

  /** The agent's report: words it solved and answers it left unsolved. */
  datatype SolveResponse = SolveResponse(solved: seq<string>, unsolved: seq<string>)

  /** The smallest grid size an agent accepts. */
  const MinGridSize: int := 10

  /** Both the initial budget and the budget restored after a correct-looking guess. */
  const InitialRetries: int := 5
  const RestoredRetries: int := 3

  // ---------------------------------------------------------------------------
  // Clue metadata

  /** The clues that remain once the clue text `answered` has been guessed. */
  function FilterClues(clues: seq<ClueMetadata>, answered: string): (r: seq<ClueMetadata>)
    ensures |r| <= |clues|
    ensures forall c :: c in r <==> c in clues && c.clue != answered
    decreases |clues|
  {
    if clues == [] then []
    else (if clues[0].clue != answered then [clues[0]] else []) + FilterClues(clues[1..], answered)
  }

  /** Filtering keeps the relative order of the clues it keeps. */
  lemma {:induction false} FilterCluesAppend(a: seq<ClueMetadata>, b: seq<ClueMetadata>, answered: string)
    ensures FilterClues(a + b, answered) == FilterClues(a, answered) + FilterClues(b, answered)
    decreases |a|
  {
    if a != [] {
      assert (a + b)[0] == a[0] && (a + b)[1..] == a[1..] + b;
      FilterCluesAppend(a[1..], b, answered);
    } else {
      assert a + b == b;
    }
  }

  /** A clue that has been removed stays removed. */
  lemma {:induction false} FilterCluesIdempotent(clues: seq<ClueMetadata>, answered: string)
    ensures FilterClues(FilterClues(clues, answered), answered) == FilterClues(clues, answered)
    decreases |clues|
  {
    if clues != [] {
      FilterCluesIdempotent(clues[1..], answered);
      var head := if clues[0].clue != answered then [clues[0]] else [];
      FilterCluesAppend(head, FilterClues(clues[1..], answered), answered);
      assert FilterClues(head, answered) == head by {
        if head != [] {
          assert head[1..] == [];
        }
      }
    }
  }

  // ---------------------------------------------------------------------------
  // Lower case and the solution lookup

  /** ASCII lower case of one character. */
  function LowerChar(c: char): (r: char)
    ensures 'A' <= c <= 'Z' ==> r as int == c as int + 32
    ensures !('A' <= c <= 'Z') ==> r == c
  {
    if 'A' <= c <= 'Z' then (c as int - 'A' as int + 'a' as int) as char else c
  }

  function Lower(s: string): (r: string)
    ensures |r| == |s|
  {
    seq(|s|, i requires 0 <= i < |s| => LowerChar(s[i]))
  }

  /** The answer stored under `key`, if the solution has one. */
  function Lookup(solution: seq<SolutionEntry>, key: Key): (r: Option<string>)
    ensures r.None? <==> forall i :: 0 <= i < |solution| ==> solution[i].key != key
    ensures r.Some? ==> exists i :: 0 <= i < |solution| && solution[i] == SolutionEntry(key, r.value)
    decreases |solution|
  {
    if solution == [] then None
    else if solution[0].key == key then Some(solution[0].answer)
    else
      var r := Lookup(solution[1..], key);
      if r.Some? then
        var i :| 0 <= i < |solution[1..]| && solution[1..][i] == SolutionEntry(key, r.value);
        assert solution[i + 1] == SolutionEntry(key, r.value);
        r
      else r
  }

  /** A guess is right when its position and direction hold an answer equal to the lower-cased guess. */
  predicate IsCorrect(guess: PlacedWord, solution: seq<SolutionEntry>) {
    Lookup(solution, Key(guess.row, guess.column, guess.isAcross)) == Some(Lower(guess.word))
  }

  predicate NoDuplicates(xs: seq<string>) {
    forall i, j :: 0 <= i < j < |xs| ==> xs[i] != xs[j]
  }

  // ---------------------------------------------------------------------------
  // Scoring: the specification

  /** The solved list: each correct guess's word, the first time that exact string is counted. */
  function Solved(guesses: seq<PlacedWord>, solution: seq<SolutionEntry>): seq<string>
    decreases |guesses|
  {
    if guesses == [] then []
    else
      var earlier := Solved(guesses[..|guesses| - 1], solution);
      var g := guesses[|guesses| - 1];
      if IsCorrect(g, solution) && g.word !in earlier then earlier + [g.word] else earlier
  }

  /** The unsolved list as the source computes it: answers that do not occur
      verbatim in the solved list, in solution order. */
  function UnsolvedAsWritten(solution: seq<SolutionEntry>, solved: seq<string>): seq<string>
    decreases |solution|
  {
    if solution == [] then []
    else
      var earlier := UnsolvedAsWritten(solution[..|solution| - 1], solved);
      var a := solution[|solution| - 1].answer;
      if a !in solved then earlier + [a] else earlier
  }

  /** The solved words, lower-cased as the scoring comparison sees them. */
  function LowerAll(words: seq<string>): (r: seq<string>)
    ensures |r| == |words|
    ensures forall i :: 0 <= i < |words| ==> r[i] == Lower(words[i])
  {
    seq(|words|, i requires 0 <= i < |words| => Lower(words[i]))
  }

  /** The unsolved list as corrected: answers that no solved word matches once lower-cased. */
  function Unsolved(solution: seq<SolutionEntry>, solved: seq<string>): seq<string>
    decreases |solution|
  {
    if solution == [] then []
    else
      var earlier := Unsolved(solution[..|solution| - 1], solved);
      var a := solution[|solution| - 1].answer;
      if a !in LowerAll(solved) then earlier + [a] else earlier
  }

  /** Some guess in the list is correct and spells `x`. */
  predicate GuessedCorrectly(guesses: seq<PlacedWord>, solution: seq<SolutionEntry>, x: string) {
    exists i :: 0 <= i < |guesses| && IsCorrect(guesses[i], solution) && guesses[i].word == x
  }

  /** The solved list has no duplicates and is no longer than the guess list. */
  lemma {:induction false} SolvedDistinct(guesses: seq<PlacedWord>, solution: seq<SolutionEntry>)
    ensures NoDuplicates(Solved(guesses, solution))
    ensures |Solved(guesses, solution)| <= |guesses|
    decreases |guesses|
  {
    if guesses != [] {
      SolvedDistinct(guesses[..|guesses| - 1], solution);
    }
  }

  /** The solved list holds exactly the words of the correct guesses. */
  lemma {:induction false} SolvedMembers(guesses: seq<PlacedWord>, solution: seq<SolutionEntry>)
    ensures forall x :: x in Solved(guesses, solution) <==> GuessedCorrectly(guesses, solution, x)
    decreases |guesses|
  {
    if guesses != [] {
      var front := guesses[..|guesses| - 1];
      var g := guesses[|guesses| - 1];
      SolvedMembers(front, solution);
      forall x ensures GuessedCorrectly(guesses, solution, x) <==> GuessedCorrectly(front, solution, x) || (IsCorrect(g, solution) && g.word == x)
      {
        if GuessedCorrectly(guesses, solution, x) {
          var i :| 0 <= i < |guesses| && IsCorrect(guesses[i], solution) && guesses[i].word == x;
          if i < |front| {
            assert front[i] == guesses[i];
          }
        }
        if GuessedCorrectly(front, solution, x) {
          var i :| 0 <= i < |front| && IsCorrect(front[i], solution) && front[i].word == x;
          assert guesses[i] == front[i];
        }
      }
    }
  }

  /** As corrected, an answer is unsolved exactly when no solved word matches it
      case-insensitively; so every answer is either matched or listed. */
  lemma {:induction false} UnsolvedFacts(solution: seq<SolutionEntry>, solved: seq<string>)
    ensures forall x :: x in Unsolved(solution, solved) <==>
      (exists i :: 0 <= i < |solution| && solution[i].answer == x) && forall w :: w in solved ==> Lower(w) != x
    decreases |solution|
  {
    if solution != [] {
      var front := solution[..|solution| - 1];
      UnsolvedFacts(front, solved);
      var a := solution[|solution| - 1].answer;
      forall x | x in Unsolved(solution, solved)
        ensures (exists i :: 0 <= i < |solution| && solution[i].answer == x) && forall w :: w in solved ==> Lower(w) != x
      {
        if x in Unsolved(front, solved) {
          var i :| 0 <= i < |front| && front[i].answer == x;
          assert solution[i] == front[i];
        } else {
          assert x == a && a !in LowerAll(solved);
          forall w | w in solved ensures Lower(w) != x {
            var k :| 0 <= k < |solved| && solved[k] == w;
            assert LowerAll(solved)[k] == Lower(w);
          }
        }
      }
      forall x | (exists i :: 0 <= i < |solution| && solution[i].answer == x) && forall w :: w in solved ==> Lower(w) != x
        ensures x in Unsolved(solution, solved)
      {
        var i :| 0 <= i < |solution| && solution[i].answer == x;
        if i < |front| {
          assert front[i] == solution[i];
        } else {
          assert x !in LowerAll(solved);
        }
      }
    }
  }

  /** As written, the unsolved list is disjoint from the solved list only as exact strings. */
  lemma {:induction false} UnsolvedAsWrittenFacts(solution: seq<SolutionEntry>, solved: seq<string>)
    ensures forall x :: x in UnsolvedAsWritten(solution, solved) <==>
      (exists i :: 0 <= i < |solution| && solution[i].answer == x) && x !in solved
    decreases |solution|
  {
    if solution != [] {
      var front := solution[..|solution| - 1];
      UnsolvedAsWrittenFacts(front, solved);
      forall x | x in UnsolvedAsWritten(solution, solved)
        ensures exists i :: 0 <= i < |solution| && solution[i].answer == x
      {
        if x in UnsolvedAsWritten(front, solved) {
          var i :| 0 <= i < |front| && front[i].answer == x;
          assert solution[i] == front[i];
        }
      }
      forall x | (exists i :: 0 <= i < |solution| && solution[i].answer == x) && x !in solved
        ensures x in UnsolvedAsWritten(solution, solved)
      {
        var i :| 0 <= i < |solution| && solution[i].answer == x;
        if i < |front| {
          assert front[i] == solution[i];
        }
      }
    }
  }

  /** With lower-case answers the corrected lists are disjoint, and every
      answer is either listed unsolved or matched by a solved word. */
  lemma ScoreDisjoint(guesses: seq<PlacedWord>, solution: seq<SolutionEntry>)
    requires forall i :: 0 <= i < |solution| ==> Lower(solution[i].answer) == solution[i].answer
    ensures forall x :: x in Unsolved(solution, Solved(guesses, solution)) ==> x !in Solved(guesses, solution)
    ensures forall i :: 0 <= i < |solution| ==>
      solution[i].answer in Unsolved(solution, Solved(guesses, solution)) ||
      exists w :: w in Solved(guesses, solution) && Lower(w) == solution[i].answer
  {
    var solved := Solved(guesses, solution);
    UnsolvedFacts(solution, solved);
    forall x | x in Unsolved(solution, solved) ensures x !in solved {
      var i :| 0 <= i < |solution| && solution[i].answer == x;
      assert Lower(x) == x;
    }
  }

  /** A correct guess typed with a capital letter is reported solved and, as
      written, unsolved as well; the corrected list leaves it out. */
  lemma MixedCaseGuessCountedTwice()
    ensures var solution := [SolutionEntry(Key(0, 1, true), "bravo")];
            var guesses := [PlacedWord("Bravo", 0, 1, true, "Alphabet letter")];
            && Solved(guesses, solution) == ["Bravo"]
            && UnsolvedAsWritten(solution, ["Bravo"]) == ["bravo"]
            && Unsolved(solution, ["Bravo"]) == []
  {
    var solution := [SolutionEntry(Key(0, 1, true), "bravo")];
    var g := PlacedWord("Bravo", 0, 1, true, "Alphabet letter");
    assert Lower("Bravo") == "bravo";
    assert IsCorrect(g, solution);
    assert [g][..0] == [];
    assert solution[..0] == [];
    assert "bravo" != "Bravo";
    assert LowerAll(["Bravo"]) == ["bravo"];
  }

  // ---------------------------------------------------------------------------
  // The agent's operations

  /**
   * solve_puzzle_clue: one oracle answer. An oracle failure changes nothing;
   * a proposal is appended, validated and popped again on a violation; a
   * guess that stays in place removes every clue with the guess's clue text.
   */
  method SolvePuzzleClue(response: Response, gridSize: int, clues: seq<ClueMetadata>, state: WordList)
    returns (guessed: bool, remaining: seq<ClueMetadata>)
    requires Occupancy(state.words, gridSize).Ok?
    modifies state
    ensures guessed <==> Accepts(old(state.words), gridSize, response)
    ensures guessed ==> state.words == old(state.words) + [response.entry]
    ensures guessed ==> remaining == FilterClues(clues, response.entry.clue)
    ensures !guessed ==> state.words == old(state.words) && remaining == clues
    ensures Occupancy(state.words, gridSize).Ok?
  {
    guessed := false;
    if response.InvokeError? {
      return guessed, clues;
    }
    if response.Proposal? {
      state.Append(response.entry);
      var occupancy := ComputeOccupancy(state.words, gridSize);
      if occupancy.Ok? {
        guessed := true;
      } else {
        state.RemoveLast();
        assert state.words == old(state.words);
      }
    }
    remaining := clues;
    if guessed {
      remaining := FilterClues(clues, response.entry.clue);
    }
  }

  /**
   * The scoring loop of solve: a guess counts when its key is in the
   * solution, the stored answer equals the lower-cased guess and the same
   * string was not counted before; then every answer that does not occur
   * verbatim in the solved list is listed unsolved. `corrected` is the
   * unsolved list under a case-insensitive comparison, alongside.
   */
  method Score(guesses: seq<PlacedWord>, solution: seq<SolutionEntry>) returns (response: SolveResponse, corrected: seq<string>)
    ensures response.solved == Solved(guesses, solution)
    ensures response.unsolved == UnsolvedAsWritten(solution, response.solved)
    ensures corrected == Unsolved(solution, response.solved)
  {
    var solved: seq<string> := [];
    var seen: set<string> := {};
    for i := 0 to |guesses|
      invariant solved == Solved(guesses[..i], solution)
      invariant seen == set w | w in solved
    {
      var g := guesses[i];
      assert guesses[..i + 1][..i] == guesses[..i];
      var key := Key(g.row, g.column, g.isAcross);
      var stored := Lookup(solution, key);
      if stored.Some? && stored.value == Lower(g.word) && g.word !in seen {
        seen := seen + {g.word};
        solved := solved + [g.word];
      }
    }
    assert guesses[..|guesses|] == guesses;
    var lowered := LowerAll(solved);
    var unsolved: seq<string> := [];
    corrected := [];
    for j := 0 to |solution|
      invariant unsolved == UnsolvedAsWritten(solution[..j], solved)
      invariant corrected == Unsolved(solution[..j], solved)
    {
      assert solution[..j + 1][..j] == solution[..j];
      if solution[j].answer !in solved {
        unsolved := unsolved + [solution[j].answer];
      }
      if solution[j].answer !in lowered {
        corrected := corrected + [solution[j].answer];
      }
    }
    assert solution[..|solution|] == solution;
    response := SolveResponse(solved, unsolved);
  }

  /** The state of solve's guessing loop once it stops. */
  datatype SolveRun = SolveRun(guesses: seq<PlacedWord>, clues: seq<ClueMetadata>, unsolvedCount: nat, budget: int, next: nat)

  /**
   * The reference for solve's guessing loop: each round reads one oracle
   * answer; an accepted proposal is kept, drops its clue text from the
   * clues, counts one word guessed and restores the budget to 3; anything
   * else costs one unit of budget.
   */
  function SolveRounds(oracle: nat -> Response, pos: nat, gridSize: int, ws: seq<PlacedWord>,
                       clues: seq<ClueMetadata>, unsolvedCount: nat, budget: int): SolveRun
    decreases unsolvedCount, budget
  {
    if unsolvedCount == 0 || budget <= 0 then SolveRun(ws, clues, unsolvedCount, budget, pos)
    else
      var r := oracle(pos);
      if Accepts(ws, gridSize, r) then
        SolveRounds(oracle, pos + 1, gridSize, ws + [r.entry], FilterClues(clues, r.entry.clue), unsolvedCount - 1, RestoredRetries)
      else SolveRounds(oracle, pos + 1, gridSize, ws, clues, unsolvedCount, budget - 1)
  }

  /**
   * What solve's guessing loop guarantees: one kept guess per word counted,
   * the budget within 0..5, a valid grid, at least one oracle call per kept
   * guess, and an end only when every word is counted or the budget is spent.
   */
  lemma {:induction false} SolveFacts(oracle: nat -> Response, pos: nat, gridSize: int, ws: seq<PlacedWord>,
                                      clues: seq<ClueMetadata>, unsolvedCount: nat, budget: int)
    requires 0 <= budget <= InitialRetries
    requires Occupancy(ws, gridSize).Ok?
    ensures var s := SolveRounds(oracle, pos, gridSize, ws, clues, unsolvedCount, budget);
      && s.unsolvedCount + |s.guesses| == unsolvedCount + |ws|
      && 0 <= s.budget <= InitialRetries
      && (s.unsolvedCount == 0 || s.budget == 0)
      && Occupancy(s.guesses, gridSize).Ok?
      && s.next >= pos + (|s.guesses| - |ws|)
    decreases unsolvedCount, budget
  {
    if unsolvedCount != 0 && budget > 0 {
      var r := oracle(pos);
      if Accepts(ws, gridSize, r) {
        SolveFacts(oracle, pos + 1, gridSize, ws + [r.entry], FilterClues(clues, r.entry.clue), unsolvedCount - 1, RestoredRetries);
      } else {
        SolveFacts(oracle, pos + 1, gridSize, ws, clues, unsolvedCount, budget - 1);
      }
    }
  }

  /**
   * solve's guessing loop only appends oracle proposals, and the clues
   * still shown at the end are original clues whose text no kept guess
   * carried.
   */
  lemma {:induction false} SolveExtends(oracle: nat -> Response, pos: nat, gridSize: int, ws: seq<PlacedWord>,
                                        clues: seq<ClueMetadata>, unsolvedCount: nat, budget: int)
    ensures var s := SolveRounds(oracle, pos, gridSize, ws, clues, unsolvedCount, budget);
      && s.next >= pos
      && |ws| <= |s.guesses|
      && s.guesses[..|ws|] == ws
      && (forall k :: |ws| <= k < |s.guesses| ==> exists j :: pos <= j < s.next && oracle(j) == Proposal(s.guesses[k]))
      && (forall c :: c in s.clues ==> c in clues)
      && (forall c, k :: c in s.clues && |ws| <= k < |s.guesses| ==> c.clue != s.guesses[k].clue)
    decreases unsolvedCount, budget
  {
    if unsolvedCount != 0 && budget > 0 {
      var r := oracle(pos);
      if Accepts(ws, gridSize, r) {
        var more, fewer := ws + [r.entry], FilterClues(clues, r.entry.clue);
        SolveExtends(oracle, pos + 1, gridSize, more, fewer, unsolvedCount - 1, RestoredRetries);
        var s := SolveRounds(oracle, pos + 1, gridSize, more, fewer, unsolvedCount - 1, RestoredRetries);
        assert s.guesses[..|ws|] == ws by {
          assert s.guesses[..|more|] == more;
          assert s.guesses[..|ws|] == s.guesses[..|more|][..|ws|];
        }
        assert s.guesses[|ws|] == r.entry by {
          assert s.guesses[..|more|][|ws|] == r.entry;
        }
        forall k | |ws| <= k < |s.guesses|
          ensures exists j :: pos <= j < s.next && oracle(j) == Proposal(s.guesses[k])
        {
          if k == |ws| {
            assert pos <= pos < s.next && oracle(pos) == Proposal(s.guesses[k]);
          }
        }
        forall c, k | c in s.clues && |ws| <= k < |s.guesses|
          ensures c.clue != s.guesses[k].clue
        {
          if k == |ws| {
            assert c in fewer;
          }
        }
      } else {
        SolveExtends(oracle, pos + 1, gridSize, ws, clues, unsolvedCount, budget - 1);
      }
    }
  }

  /**
   * solve: refuse grids below 10; otherwise guess until every word is
   * counted as guessed or the budget (5 at first, 3 after each guess that
   * stays in place, one less after each failure) runs out, then score.
   * The puzzle, its clue metadata and its solution are given.
   */
  method Solve(oracle: nat -> Response, pos: nat, gridSize: int, puzzle: seq<PlacedWord>,
               clues: seq<ClueMetadata>, solution: seq<SolutionEntry>)
    returns (result: Option<SolveResponse>, guesses: seq<PlacedWord>, unsolvedCount: nat, budget: int, next: nat)
    ensures gridSize < MinGridSize ==> result.None? && guesses == [] && next == pos
    ensures gridSize >= MinGridSize ==>
      var run := SolveRounds(oracle, pos, gridSize, [], clues, |puzzle|, InitialRetries);
      && guesses == run.guesses && unsolvedCount == run.unsolvedCount && budget == run.budget && next == run.next
      && result == Some(SolveResponse(Solved(guesses, solution), UnsolvedAsWritten(solution, Solved(guesses, solution))))
    ensures gridSize >= MinGridSize ==>
      && Occupancy(guesses, gridSize).Ok?
      && unsolvedCount + |guesses| == |puzzle|
      && 0 <= budget <= InitialRetries
      && (unsolvedCount == 0 || budget == 0)
      && next - pos >= |guesses|
      && (forall k :: 0 <= k < |guesses| ==> exists j :: pos <= j < next && oracle(j) == Proposal(guesses[k]))
  {
    next := pos;
    budget := InitialRetries;
    unsolvedCount := |puzzle|;
    if gridSize < MinGridSize {
      return None, [], unsolvedCount, budget, next;
    }
    var remaining := clues;
    var state := new WordList();
    ghost var goal := SolveRounds(oracle, pos, gridSize, [], clues, |puzzle|, InitialRetries);
    while unsolvedCount != 0 && budget > 0
      invariant Occupancy(state.words, gridSize).Ok?
      invariant goal == SolveRounds(oracle, next, gridSize, state.words, remaining, unsolvedCount, budget)
      decreases unsolvedCount, budget
    {
      var guessed;
      guessed, remaining := SolvePuzzleClue(oracle(next), gridSize, remaining, state);
      next := next + 1;
      if guessed {
        unsolvedCount := unsolvedCount - 1;
        budget := RestoredRetries;
      } else {
        budget := budget - 1;
      }
    }
    guesses := state.words;
    SolveFacts(oracle, pos, gridSize, [], clues, |puzzle|, InitialRetries);
    SolveExtends(oracle, pos, gridSize, [], clues, |puzzle|, InitialRetries);
    var response, _ := Score(guesses, solution);
    result := Some(response);
  }
}
