/**
 * Building the initial puzzle: the propose/validate/rollback loop that adds
 * one word under a per-word retry budget, and the counting loop that grows
 * the puzzle under a puzzle-level budget of 3.
 *
 * The oracle is a supplied response stream `oracle: nat -> Response`; a loop
 * that starts reading at position `pos` and stops at `next` made exactly
 * `next - pos` oracle calls.
 */
module Generator {
  import opened Grid
  import opened JsonText
  import opened Proposals

  /** The per-word retry budget `generate` hands to `generate_next_word`. */
  const WordRetries: int := 5

  /** The puzzle-level budget, restored after every added word. */
  const PuzzleRetries: int := 3

  function Max0(x: int): nat {
    if x < 0 then 0 else x
  }

  /** How one generate_next_word call ends: a proposal added, the retries used up, or a raised call. */
  datatype AttemptOutcome = Added(entry: PlacedWord) | Exhausted | Raised

  /** The outcome together with the position of the first oracle answer not read. */
  datatype Attempt = Attempt(outcome: AttemptOutcome, next: nat)

  /**
   * The reference for generate_next_word: read answers from `pos` on; an
   * accepted proposal or a raised call ends the attempt, and every other
   * answer uses up one of `retries`.
   */
  function WordAttempt(oracle: nat -> Response, pos: nat, ws: seq<PlacedWord>, gridSize: int, retries: int): (a: Attempt)
    ensures pos <= a.next <= pos + Max0(retries)
    decreases Max0(retries)
  {
    if retries <= 0 then Attempt(Exhausted, pos)
    else
      var r := oracle(pos);
      if r.InvokeError? then Attempt(Raised, pos + 1)
      else if Accepts(ws, gridSize, r) then Attempt(Added(r.entry), pos + 1)
      else WordAttempt(oracle, pos + 1, ws, gridSize, retries - 1)
  }

  /**
   * How a word attempt ends: an added word is the accepted proposal read
   * last, a raised attempt ends on the failing call, an exhausted one read
   * exactly `retries` answers, and every answer before the last was rejected.
   */
  lemma {:induction false} WordAttemptFacts(oracle: nat -> Response, pos: nat, ws: seq<PlacedWord>, gridSize: int, retries: int)
    ensures var a := WordAttempt(oracle, pos, ws, gridSize, retries);
      && (a.outcome.Added? ==>
            a.next > pos && Accepts(ws, gridSize, oracle(a.next - 1)) && a.outcome.entry == oracle(a.next - 1).entry)
      && (a.outcome.Raised? ==> a.next > pos && oracle(a.next - 1).InvokeError?)
      && (a.outcome.Exhausted? ==> a.next == pos + Max0(retries))
      && (forall j :: pos <= j < (if a.outcome.Exhausted? then a.next else a.next - 1) ==>
            Rejected(ws, gridSize, oracle(j)))
    decreases Max0(retries)
  {
    if retries > 0 {
      var r := oracle(pos);
      if !r.InvokeError? && !Accepts(ws, gridSize, r) {
        WordAttemptFacts(oracle, pos + 1, ws, gridSize, retries - 1);
      }
    }
  }

  /**
   * The validate-and-roll-back step of generate_next_word: append `w`,
   * recompute the occupancy, and pop `w` again unless the grid is valid.
   */
  method Offer(list: WordList, w: PlacedWord, gridSize: int) returns (accepted: bool)
    requires Occupancy(list.words, gridSize).Ok?
    modifies list
    ensures accepted == Accepts(old(list.words), gridSize, Proposal(w))
    ensures list.words == if accepted then old(list.words) + [w] else old(list.words)
    ensures Occupancy(list.words, gridSize).Ok?
  {
    list.Append(w);
    var occupancy := ComputeOccupancy(list.words, gridSize);
    accepted := occupancy.Ok?;
    if !accepted {
      list.RemoveLast();
    }
  }

  /**
   * generate_next_word: ask the oracle for a word, append it, validate the
   * grid, and pop it again on a conflict or out-of-bounds cell. Any answer
   * that is not an accepted proposal costs one unit of `retryCount`.
   * An oracle call that raises is not caught in the source: `raised` reports it.
   */
  method GenerateNextWord(oracle: nat -> Response, pos: nat, gridSize: int, list: WordList, retryCount: int)
    returns (generated: bool, raised: bool, last: Option<Response>, next: nat)
    requires Occupancy(list.words, gridSize).Ok?
    modifies list
    ensures var a := WordAttempt(oracle, pos, old(list.words), gridSize, retryCount);
      && next == a.next && generated == a.outcome.Added? && raised == a.outcome.Raised?
      && list.words == if generated then old(list.words) + [a.outcome.entry] else old(list.words)
    ensures last == (if next == pos then None else Some(oracle(next - 1)))
    ensures Occupancy(list.words, gridSize).Ok?
  {
    ghost var original := list.words;
    ghost var goal := WordAttempt(oracle, pos, original, gridSize, retryCount);
    generated, raised, last, next := false, false, None, pos;
    var retries := retryCount;
    while !generated && !raised && retries > 0
      invariant pos <= next
      invariant !(generated && raised)
      invariant generated ==>
        && next > pos && oracle(next - 1).Proposal?
        && goal == Attempt(Added(oracle(next - 1).entry), next)
        && list.words == original + [oracle(next - 1).entry]
      invariant raised ==> goal == Attempt(Raised, next) && list.words == original
      invariant !generated && !raised ==> goal == WordAttempt(oracle, next, original, gridSize, retries) && list.words == original
      invariant last == (if next == pos then None else Some(oracle(next - 1)))
      invariant Occupancy(list.words, gridSize).Ok?
      decreases retries, if generated || raised then 0 else 1
    {
      var response := oracle(next);
      ghost var step := WordAttempt(oracle, next, original, gridSize, retries);
      next := next + 1;
      last := Some(response);
      match response {
        case InvokeError =>
          raised := true;
        case Proposal(w) =>
          var accepted := Offer(list, w, gridSize);
          if accepted {
            generated := true;
          } else {
            assert step == WordAttempt(oracle, next, original, gridSize, retries - 1);
            retries := retries - 1;
          }
        case _ =>
          assert step == WordAttempt(oracle, next, original, gridSize, retries - 1);
          retries := retries - 1;
      }
    }
  }

  /** The state of generate's loop once it stops. */
  datatype Build = Build(words: seq<PlacedWord>, count: nat, budget: int, raised: bool, next: nat)

  /**
   * The reference for generate's loop, from a word list `ws` of `count`
   * words and a puzzle-level budget: each round is one word attempt with 5
   * retries; an added word restores the budget to 3, an exhausted attempt
   * costs one unit, and a raised call ends everything.
   */
  function BuildRounds(oracle: nat -> Response, pos: nat, gridSize: int, ws: seq<PlacedWord>,
                       count: nat, wordCount: int, budget: int): Build
    decreases wordCount - count, budget
  {
    if !(count < wordCount && budget > 0) then Build(ws, count, budget, false, pos)
    else
      var a := WordAttempt(oracle, pos, ws, gridSize, WordRetries);
      match a.outcome
      case Raised => Build(ws, count, budget, true, a.next)
      case Added(e) => BuildRounds(oracle, a.next, gridSize, ws + [e], count + 1, wordCount, PuzzleRetries)
      case Exhausted => BuildRounds(oracle, a.next, gridSize, ws, count, wordCount, budget - 1)
  }

  /**
   * What generate's loop guarantees about its counters: one counted success
   * per word, the budget within 0..3, a valid puzzle, and unless a call
   * raised, an end at the target count or with an exhausted budget.
   */
  lemma {:induction false} BuildFacts(oracle: nat -> Response, pos: nat, gridSize: int, ws: seq<PlacedWord>,
                                      count: nat, wordCount: int, budget: int)
    requires |ws| == count <= Max0(wordCount)
    requires 0 <= budget <= PuzzleRetries
    requires Occupancy(ws, gridSize).Ok?
    ensures var b := BuildRounds(oracle, pos, gridSize, ws, count, wordCount, budget);
      && |b.words| == b.count <= Max0(wordCount)
      && 0 <= b.budget <= PuzzleRetries
      && Occupancy(b.words, gridSize).Ok?
      && b.next >= pos
      && (!b.raised ==> b.count == Max0(wordCount) || b.budget == 0)
    decreases wordCount - count, budget
  {
    if count < wordCount && budget > 0 {
      var a := WordAttempt(oracle, pos, ws, gridSize, WordRetries);
      match a.outcome
      case Raised =>
      case Added(e) =>
        WordAttemptFacts(oracle, pos, ws, gridSize, WordRetries);
        BuildFacts(oracle, a.next, gridSize, ws + [e], count + 1, wordCount, PuzzleRetries);
      case Exhausted =>
        BuildFacts(oracle, a.next, gridSize, ws, count, wordCount, budget - 1);
    }
  }

  /**
   * generate's loop only appends: the old words stay in front, and every
   * word after them is a proposal the oracle made during the run.
   */
  lemma {:induction false} BuildExtends(oracle: nat -> Response, pos: nat, gridSize: int, ws: seq<PlacedWord>,
                                        count: nat, wordCount: int, budget: int)
    ensures var b := BuildRounds(oracle, pos, gridSize, ws, count, wordCount, budget);
      && b.next >= pos
      && |ws| <= |b.words|
      && b.words[..|ws|] == ws
      && (forall k :: |ws| <= k < |b.words| ==> exists j :: pos <= j < b.next && oracle(j) == Proposal(b.words[k]))
    decreases wordCount - count, budget
  {
    if count < wordCount && budget > 0 {
      var a := WordAttempt(oracle, pos, ws, gridSize, WordRetries);
      match a.outcome
      case Raised =>
      case Added(e) =>
        WordAttemptFacts(oracle, pos, ws, gridSize, WordRetries);
        var more := ws + [e];
        assert oracle(a.next - 1) == Proposal(e);
        BuildExtends(oracle, a.next, gridSize, more, count + 1, wordCount, PuzzleRetries);
        var b := BuildRounds(oracle, a.next, gridSize, more, count + 1, wordCount, PuzzleRetries);
        assert b.words[..|ws|] == ws by {
          assert b.words[..|more|] == more;
          assert b.words[..|ws|] == b.words[..|more|][..|ws|];
        }
        assert b.words[|ws|] == e by {
          assert b.words[..|more|][|ws|] == e;
        }
        forall k | |ws| <= k < |b.words|
          ensures exists j :: pos <= j < b.next && oracle(j) == Proposal(b.words[k])
        {
          if k == |ws| {
            assert pos <= a.next - 1 < b.next && oracle(a.next - 1) == Proposal(b.words[k]);
          }
        }
      case Exhausted =>
        BuildExtends(oracle, a.next, gridSize, ws, count, wordCount, budget - 1);
    }
  }

  /**
   * generate: grow an empty puzzle one word at a time until it holds
   * `wordCount` words or the puzzle-level budget (3, restored after each
   * success, reduced by one after each failure) runs out.
   */
  method Generate(oracle: nat -> Response, pos: nat, gridSize: int, wordCount: int)
    returns (words: seq<PlacedWord>, count: nat, budget: int, raised: bool, next: nat)
    ensures Build(words, count, budget, raised, next) == BuildRounds(oracle, pos, gridSize, [], 0, wordCount, PuzzleRetries)
    ensures |words| == count
    ensures count <= Max0(wordCount)
    ensures 0 <= budget <= PuzzleRetries
    ensures Occupancy(words, gridSize).Ok?
    ensures next >= pos
    // every word of the puzzle is a proposal the oracle made during the run
    ensures forall k :: 0 <= k < |words| ==> exists j :: pos <= j < next && oracle(j) == Proposal(words[k])
    // the loop ends only on the target count or an exhausted budget
    ensures !raised ==> count == Max0(wordCount) || budget == 0
  {
    count, budget, raised, next := 0, PuzzleRetries, false, pos;
    var crossword := new WordList();
    ghost var goal := BuildRounds(oracle, pos, gridSize, [], 0, wordCount, PuzzleRetries);
    while !raised && count < wordCount && budget > 0
      invariant |crossword.words| == count
      invariant Occupancy(crossword.words, gridSize).Ok?
      invariant !raised ==> goal == BuildRounds(oracle, next, gridSize, crossword.words, count, wordCount, budget)
      invariant raised ==> goal == Build(crossword.words, count, budget, true, next)
      decreases if raised then 0 else 1, wordCount - count, budget
    {
      var generated, failed, _, after := GenerateNextWord(oracle, next, gridSize, crossword, WordRetries);
      next := after;
      if failed {
        raised := true;
      } else if generated {
        count := count + 1;
        budget := PuzzleRetries;
      } else {
        budget := budget - 1;
      }
    }
    words := crossword.words;
    BuildFacts(oracle, pos, gridSize, [], 0, wordCount, PuzzleRetries);
    BuildExtends(oracle, pos, gridSize, [], 0, wordCount, PuzzleRetries);
  }
}
