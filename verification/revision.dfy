/**
 * The revision loop: each round the agents' reports are scored, the
 * decision map is computed, the clues of the flagged words are sent for
 * rewriting and the rewritten clues are written into the crossword in place;
 * the loop stops early only on an empty decision map.
 *
 * The agents' reports for round `k` and the rewriting oracle's reply are
 * supplied functions of the round; a reply that is not valid JSON is
 * `Unparseable`.
 */
module Revision {
  import opened Grid
  import opened JsonText
  import opened Proposals
  import opened Generator
  import opened Solver
  import opened Calibration

  /** One entry of the rewrite request. */
  datatype ClueRequest = ClueRequest(word: string, clue: string)

  /** One entry of the rewriter's reply; an empty `updatedClue` is falsy. */
  datatype ClueUpdate = ClueUpdate(word: string, updatedClue: string)

  datatype RewriteReply = Rewritten(entries: seq<ClueUpdate>) | Unparseable

  /** Why a revision round raised instead of finishing. */
  datatype Failure = NoAttempts(word: string) | InvalidRewrite

  // ---------------------------------------------------------------------------
  // The rewrite request

  /** The words a decision map flags (the keys whose value is true). */
  function Flagged(decision: map<string, bool>): (r: set<string>)
    ensures forall w :: w in r <==> w in decision && decision[w]
  {
    set w | w in decision && decision[w]
  }

  /** The words sent for rewriting are those whose band misses the target,
      and none when the puzzle matches. */
  lemma FlaggedDecision(d: Difficulty, words: seq<string>, perc: map<string, Accuracy>)
    requires Covers(words, perc)
    ensures Matches(d, words, perc) ==> Flagged(DecideUpdates(d, words, perc)) == {}
    ensures !Matches(d, words, perc) ==>
      forall w :: w in Flagged(DecideUpdates(d, words, perc)) <==> w in words && NeedsRewrite(d, perc[w])
  {
  }

  /** The request: word and current clue of every flagged crossword word, in crossword order. */
  function Request(ws: seq<PlacedWord>, flagged: set<string>): seq<ClueRequest>
    decreases |ws|
  {
    if ws == [] then []
    else
      var front := Request(ws[..|ws| - 1], flagged);
      var w := ws[|ws| - 1];
      if w.word in flagged then front + [ClueRequest(w.word, w.clue)] else front
  }

  /** The request holds exactly the flagged words' entries, and no more than the crossword does. */
  lemma {:induction false} RequestMembers(ws: seq<PlacedWord>, flagged: set<string>)
    ensures |Request(ws, flagged)| <= |ws|
    ensures forall q :: q in Request(ws, flagged) <==>
      exists i :: 0 <= i < |ws| && ws[i].word in flagged && q == ClueRequest(ws[i].word, ws[i].clue)
    decreases |ws|
  {
    if ws != [] {
      var front := ws[..|ws| - 1];
      RequestMembers(front, flagged);
      forall q | q in Request(ws, flagged)
        ensures exists i :: 0 <= i < |ws| && ws[i].word in flagged && q == ClueRequest(ws[i].word, ws[i].clue)
      {
        if q in Request(front, flagged) {
          var i :| 0 <= i < |front| && front[i].word in flagged && q == ClueRequest(front[i].word, front[i].clue);
          assert ws[i] == front[i];
        } else {
          assert ws[|ws| - 1].word in flagged;
        }
      }
      forall q | exists i :: 0 <= i < |ws| && ws[i].word in flagged && q == ClueRequest(ws[i].word, ws[i].clue)
        ensures q in Request(ws, flagged)
      {
        var i :| 0 <= i < |ws| && ws[i].word in flagged && q == ClueRequest(ws[i].word, ws[i].clue);
        if i < |front| {
          assert front[i] == ws[i];
        }
      }
    }
  }

  /** Requests of consecutive parts of the crossword concatenate, so crossword order is kept. */
  lemma {:induction false} RequestAppend(a: seq<PlacedWord>, b: seq<PlacedWord>, flagged: set<string>)
    ensures Request(a + b, flagged) == Request(a, flagged) + Request(b, flagged)
    decreases |b|
  {
    if b == [] {
      assert a + b == a;
    } else {
      var front := b[..|b| - 1];
      RequestAppend(a, front, flagged);
      assert (a + b)[..|a + b| - 1] == a + front;
      assert (a + b)[|a + b| - 1] == b[|b| - 1];
    }
  }

  // ---------------------------------------------------------------------------
  // Applying the rewritten clues

  /** Reply entry `e` rewrites `word`: same word and a non-empty new clue. */
  predicate Rewrites(e: ClueUpdate, word: string) {
    e.word == word && e.updatedClue != []
  }

  /** The clue `word` ends with after the reply entries are applied in order. */
  function NewClue(word: string, clue: string, es: seq<ClueUpdate>): (r: string)
    ensures (forall i :: 0 <= i < |es| ==> !Rewrites(es[i], word)) ==> r == clue
    ensures (exists i :: 0 <= i < |es| && Rewrites(es[i], word)) ==> LastRewrite(word, es, r)
    decreases |es|
  {
    if es == [] then clue
    else
      var e := es[|es| - 1];
      if Rewrites(e, word) then
        assert LastRewrite(word, es, e.updatedClue) by {
          assert Rewrites(es[|es| - 1], word);
        }
        e.updatedClue
      else
        var front := es[..|es| - 1];
        assert forall i :: 0 <= i < |front| ==> front[i] == es[i];
        var r := NewClue(word, clue, front);
        if exists i :: 0 <= i < |front| && Rewrites(front[i], word) then
          var i :| 0 <= i < |front| && Rewrites(front[i], word) && r == front[i].updatedClue &&
            forall j :: i < j < |front| ==> !Rewrites(front[j], word);
          assert LastRewrite(word, es, r) by {
            assert Rewrites(es[i], word) && r == es[i].updatedClue;
          }
          r
        else
          r
  }

  /** `r` is the clue of the last entry that rewrites `word`. */
  predicate LastRewrite(word: string, es: seq<ClueUpdate>, r: string) {
    exists i :: 0 <= i < |es| && Rewrites(es[i], word) && r == es[i].updatedClue &&
      forall j :: i < j < |es| ==> !Rewrites(es[j], word)
  }

  /** A placed word after the reply is applied: only its clue may differ. */
  function Revised(w: PlacedWord, es: seq<ClueUpdate>): PlacedWord {
    w.(clue := NewClue(w.word, w.clue, es))
  }

  function ApplyAll(ws: seq<PlacedWord>, es: seq<ClueUpdate>): (r: seq<PlacedWord>)
    ensures |r| == |ws|
    ensures forall i :: 0 <= i < |ws| ==> r[i] == Revised(ws[i], es)
  {
    seq(|ws|, i requires 0 <= i < |ws| => Revised(ws[i], es))
  }

  /** Two word lists that differ at most in their clues. */
  predicate SameExceptClues(a: seq<PlacedWord>, b: seq<PlacedWord>) {
    |a| == |b| && forall i :: 0 <= i < |a| ==> a[i].(clue := b[i].clue) == b[i]
  }

  /** The grid check never looks at clues. */
  lemma {:induction false} OccupancyIgnoresClues(a: seq<PlacedWord>, b: seq<PlacedWord>, gridSize: int)
    requires SameExceptClues(a, b)
    ensures Occupancy(a, gridSize) == Occupancy(b, gridSize)
  {
    CellsIgnoreClues(a, b);
    assert Words(a) == Words(b);
  }

  lemma {:induction false} CellsIgnoreClues(a: seq<PlacedWord>, b: seq<PlacedWord>)
    requires SameExceptClues(a, b)
    ensures Cells(a) == Cells(b)
    decreases |a|
  {
    if a != [] {
      assert SameExceptClues(a[1..], b[1..]) by {
        assert forall i :: 0 <= i < |a[1..]| ==> a[1..][i] == a[i + 1] && b[1..][i] == b[i + 1];
      }
      CellsIgnoreClues(a[1..], b[1..]);
      assert a[0].(clue := b[0].clue) == b[0];
      assert WordCells(a[0]) == WordCells(b[0]);
    }
  }

  /** Applying a reply changes clues only. */
  lemma ApplyAllKeepsPlacement(ws: seq<PlacedWord>, es: seq<ClueUpdate>)
    ensures SameExceptClues(ws, ApplyAll(ws, es))
  {
  }

  /** Word lists that differ only in clues spell the same words. */
  lemma WordsIgnoreClues(a: seq<PlacedWord>, b: seq<PlacedWord>)
    requires SameExceptClues(a, b)
    ensures Words(a) == Words(b)
  {
    assert forall i :: 0 <= i < |a| ==> a[i].word == a[i].(clue := b[i].clue).word;
  }

  /** So the grid check gives the same verdict before and after a reply is applied. */
  lemma ReviseKeepsGrid(ws: seq<PlacedWord>, es: seq<ClueUpdate>, gridSize: int)
    ensures Occupancy(ApplyAll(ws, es), gridSize) == Occupancy(ws, gridSize)
  {
    ApplyAllKeepsPlacement(ws, es);
    OccupancyIgnoresClues(ws, ApplyAll(ws, es), gridSize);
  }

  /**
   * The application step of update_crossword: for every crossword word, in
   * order, every reply entry with the same word and a non-empty new clue
   * overwrites that word's clue.
   */
  method ApplyClues(crossword: WordList, es: seq<ClueUpdate>)
    modifies crossword
    ensures crossword.words == ApplyAll(old(crossword.words), es)
  {
    ghost var original := crossword.words;
    var i := 0;
    while i < |crossword.words|
      invariant 0 <= i <= |crossword.words| == |original|
      invariant forall k :: 0 <= k < i ==> crossword.words[k] == Revised(original[k], es)
      invariant forall k :: i <= k < |original| ==> crossword.words[k] == original[k]
    {
      var word := crossword.words[i].word;
      for j := 0 to |es|
        invariant |crossword.words| == |original|
        invariant crossword.words[i] == original[i].(clue := NewClue(word, original[i].clue, es[..j]))
        invariant forall k :: 0 <= k < i ==> crossword.words[k] == Revised(original[k], es)
        invariant forall k :: i < k < |original| ==> crossword.words[k] == original[k]
      {
        assert es[..j + 1][..j] == es[..j];
        if word == es[j].word && es[j].updatedClue != [] {
          crossword.words := crossword.words[i := crossword.words[i].(clue := es[j].updatedClue)];
        }
      }
      assert es[..|es|] == es;
      i := i + 1;
    }
  }

  /**
   * update_crossword: build the request for the flagged words, ask the
   * rewriter, and apply its reply; an unparseable reply raises before any
   * clue is touched.
   */
  method UpdateCrossword(crossword: WordList, flagged: set<string>, rewrite: seq<ClueRequest> -> RewriteReply)
    returns (request: seq<ClueRequest>, parsed: bool)
    modifies crossword
    ensures request == Request(old(crossword.words), flagged)
    ensures parsed <==> rewrite(request).Rewritten?
    ensures parsed ==> crossword.words == ApplyAll(old(crossword.words), rewrite(request).entries)
    ensures !parsed ==> crossword.words == old(crossword.words)
  {
    request := [];
    for i := 0 to |crossword.words|
      invariant request == Request(crossword.words[..i], flagged)
    {
      assert crossword.words[..i + 1][..i] == crossword.words[..i];
      var w := crossword.words[i];
      if w.word in flagged {
        request := request + [ClueRequest(w.word, w.clue)];
      }
    }
    assert crossword.words[..|crossword.words|] == crossword.words;
    match rewrite(request)
    case Unparseable =>
      parsed := false;
    case Rewritten(es) =>
      parsed := true;
      ApplyClues(crossword, es);
  }

  /** The state of generate_crossword's loop once it stops. */
  datatype RevisionRun = RevisionRun(words: seq<PlacedWord>, history: seq<map<string, bool>>, matched: bool, failure: Option<Failure>)

  /**
   * The reference for generate_crossword's loop, continuing with the
   * crossword `ws` after the rounds whose decision maps are `history`
   * (round `k` is scored on `reports(k)`): score the next round's reports
   * against the crossword's words, decide, stop on an empty decision map,
   * and otherwise send the flagged words' clues to the rewriter and go on
   * with the rewritten crossword. A word without reports or an unparseable
   * reply ends the loop with a failure; so does nothing else.
   */
  function Revise(ws: seq<PlacedWord>, history: seq<map<string, bool>>, reports: nat -> seq<SolveResponse>,
                  rewriter: (nat, seq<ClueRequest>) -> RewriteReply, d: Difficulty, iterations: int): RevisionRun
    decreases iterations - |history|
  {
    var round := |history|;
    if round >= iterations then RevisionRun(ws, history, false, None)
    else
      match WordAccuracy(Words(ws), reports(round))
      case ZeroDivision(w) => RevisionRun(ws, history, false, Some(NoAttempts(w)))
      case Perc(perc) =>
        var decision := DecideUpdates(d, Words(ws), perc);
        if decision == map[] then RevisionRun(ws, history + [decision], true, None)
        else
          match rewriter(round, Request(ws, Flagged(decision)))
          case Unparseable => RevisionRun(ws, history, false, Some(InvalidRewrite))
          case Rewritten(es) => Revise(ApplyAll(ws, es), history + [decision], reports, rewriter, d, iterations)
  }

  /**
   * How a run of the revision loop over at most `n` rounds ends: every
   * decision map but the last is non-empty; it matched exactly when it
   * stopped on an empty map; without a failure or a match it ran all `n`
   * rounds; and a failure cuts it short.
   */
  predicate Shaped(r: RevisionRun, n: nat) {
    && |r.history| <= n
    && (forall k :: 0 <= k < |r.history| - 1 ==> r.history[k] != map[])
    && (r.matched <==> r.failure.None? && |r.history| > 0 && r.history[|r.history| - 1] == map[])
    && (r.failure.None? && !r.matched ==> |r.history| == n)
    && (r.failure.Some? ==> |r.history| < n)
  }

  /** The three ways a run stops, each shaped and each keeping the earlier rounds: all rounds used, a failure, or a match. */
  lemma ShapedStops(ws: seq<PlacedWord>, history: seq<map<string, bool>>, n: nat)
    requires |history| <= n
    requires forall k :: 0 <= k < |history| ==> history[k] != map[]
    ensures history[..|history|] == history && (history + [map[]])[..|history|] == history
    ensures |history| == n ==> Shaped(RevisionRun(ws, history, false, None), n)
    ensures |history| < n ==> forall f :: Shaped(RevisionRun(ws, history, false, Some(f)), n)
    ensures |history| < n ==> Shaped(RevisionRun(ws, history + [map[]], true, None), n)
  {
    var more := history + [map[]];
    assert forall k :: 0 <= k < |more| - 1 ==> more[k] == history[k];
  }

  /** Later rounds only append to the decision maps recorded so far. */
  lemma {:induction false} RevisionExtends(ws: seq<PlacedWord>, history: seq<map<string, bool>>, reports: nat -> seq<SolveResponse>,
                                           rewriter: (nat, seq<ClueRequest>) -> RewriteReply, d: Difficulty, iterations: int)
    ensures var r := Revise(ws, history, reports, rewriter, d, iterations);
      |history| <= |r.history| && r.history[..|history|] == history
    decreases iterations - |history|
  {
    var round := |history|;
    if round < iterations {
      match WordAccuracy(Words(ws), reports(round))
      case ZeroDivision(w) =>
      case Perc(perc) =>
        var decision := DecideUpdates(d, Words(ws), perc);
        var more := history + [decision];
        assert more[..|history|] == history;
        if decision != map[] {
          match rewriter(round, Request(ws, Flagged(decision)))
          case Unparseable =>
          case Rewritten(es) =>
            var r := Revise(ApplyAll(ws, es), more, reports, rewriter, d, iterations);
            RevisionExtends(ApplyAll(ws, es), more, reports, rewriter, d, iterations);
            assert r.history[..|history|] == r.history[..|more|][..|history|];
        }
    }
  }

  /** From rounds that all rewrote clues, the loop ends shaped. */
  lemma {:induction false} RevisionShape(ws: seq<PlacedWord>, history: seq<map<string, bool>>, reports: nat -> seq<SolveResponse>,
                                         rewriter: (nat, seq<ClueRequest>) -> RewriteReply, d: Difficulty, iterations: int)
    requires |history| <= Max0(iterations)
    requires forall k :: 0 <= k < |history| ==> history[k] != map[]
    ensures Shaped(Revise(ws, history, reports, rewriter, d, iterations), Max0(iterations))
    decreases iterations - |history|
  {
    var round := |history|;
    ShapedStops(ws, history, Max0(iterations));
    if round < iterations {
      match WordAccuracy(Words(ws), reports(round))
      case ZeroDivision(w) =>
      case Perc(perc) =>
        var decision := DecideUpdates(d, Words(ws), perc);
        if decision != map[] {
          match rewriter(round, Request(ws, Flagged(decision)))
          case Unparseable =>
          case Rewritten(es) =>
            var more := history + [decision];
            assert forall k :: 0 <= k < |more| ==> more[k] != map[];
            RevisionShape(ApplyAll(ws, es), more, reports, rewriter, d, iterations);
        }
    }
  }

  /** The loop changes clues only. */
  lemma {:induction false} RevisionKeepsPlacement(ws: seq<PlacedWord>, history: seq<map<string, bool>>, reports: nat -> seq<SolveResponse>,
                                                  rewriter: (nat, seq<ClueRequest>) -> RewriteReply, d: Difficulty, iterations: int)
    ensures SameExceptClues(ws, Revise(ws, history, reports, rewriter, d, iterations).words)
    decreases iterations - |history|
  {
    var round := |history|;
    if round < iterations {
      match WordAccuracy(Words(ws), reports(round))
      case ZeroDivision(w) =>
      case Perc(perc) =>
        var decision := DecideUpdates(d, Words(ws), perc);
        if decision != map[] {
          match rewriter(round, Request(ws, Flagged(decision)))
          case Unparseable =>
          case Rewritten(es) =>
            var next := ApplyAll(ws, es);
            ApplyAllKeepsPlacement(ws, es);
            RevisionKeepsPlacement(next, history + [decision], reports, rewriter, d, iterations);
            var final := Revise(next, history + [decision], reports, rewriter, d, iterations).words;
            forall i | 0 <= i < |ws| ensures ws[i].(clue := final[i].clue) == final[i] {
              assert ws[i].(clue := next[i].clue) == next[i];
              assert next[i].(clue := final[i].clue) == final[i];
            }
        }
    }
  }

  /** The decision map a round's reports give for `words`, or None when a word has no reports. */
  function Decision(d: Difficulty, words: seq<string>, responses: seq<SolveResponse>): Option<map<string, bool>> {
    match WordAccuracy(words, responses)
    case ZeroDivision(_) => None
    case Perc(perc) => Some(DecideUpdates(d, words, perc))
  }

  /** One more round's decision map, in order. */
  lemma DecidedAppend(d: Difficulty, words: seq<string>, reports: nat -> seq<SolveResponse>,
                      history: seq<map<string, bool>>, decision: map<string, bool>)
    requires forall k :: 0 <= k < |history| ==> Decision(d, words, reports(k)) == Some(history[k])
    requires Decision(d, words, reports(|history|)) == Some(decision)
    ensures forall k :: 0 <= k < |history| + 1 ==> Decision(d, words, reports(k)) == Some((history + [decision])[k])
  {
    assert forall k :: 0 <= k < |history| ==> (history + [decision])[k] == history[k];
  }

  /**
   * Every round scores the same words (only clues change), so the decision
   * map of round `k` is the one computed from `reports(k)` for the
   * crossword's words.
   */
  lemma {:induction false} RevisionDecisions(ws: seq<PlacedWord>, history: seq<map<string, bool>>, reports: nat -> seq<SolveResponse>,
                                             rewriter: (nat, seq<ClueRequest>) -> RewriteReply, d: Difficulty, iterations: int)
    requires forall k :: 0 <= k < |history| ==> Decision(d, Words(ws), reports(k)) == Some(history[k])
    ensures var r := Revise(ws, history, reports, rewriter, d, iterations);
      forall k :: 0 <= k < |r.history| ==> Decision(d, Words(ws), reports(k)) == Some(r.history[k])
    decreases iterations - |history|
  {
    var round := |history|;
    if round < iterations {
      match WordAccuracy(Words(ws), reports(round))
      case ZeroDivision(w) =>
      case Perc(perc) =>
        var decision := DecideUpdates(d, Words(ws), perc);
        DecidedAppend(d, Words(ws), reports, history, decision);
        if decision != map[] {
          match rewriter(round, Request(ws, Flagged(decision)))
          case Unparseable =>
          case Rewritten(es) =>
            var next := ApplyAll(ws, es);
            ApplyAllKeepsPlacement(ws, es);
            WordsIgnoreClues(ws, next);
            RevisionDecisions(next, history + [decision], reports, rewriter, d, iterations);
        }
    }
  }

  /**
   * Why a run failed in round `failed`: a division by zero names a word
   * without reports in that round; an invalid rewrite happened on a
   * non-empty decision map whose request the rewriter answered with text
   * that does not parse.
   */
  predicate FailureExplained(failure: Option<Failure>, ws: seq<PlacedWord>, reports: nat -> seq<SolveResponse>,
                             rewriter: (nat, seq<ClueRequest>) -> RewriteReply, d: Difficulty, failed: nat) {
    && (failure.Some? && failure.value.NoAttempts? ==>
          WordAccuracy(Words(ws), reports(failed)) == ZeroDivision(failure.value.word))
    && (failure == Some(InvalidRewrite) ==>
          var decision := Decision(d, Words(ws), reports(failed));
          && decision.Some? && decision.value != map[]
          && rewriter(failed, Request(ws, Flagged(decision.value))) == Unparseable)
  }

  /** A failed run failed in the round after its last recorded one, for the reason it gives. */
  lemma {:induction false} RevisionFailure(ws: seq<PlacedWord>, history: seq<map<string, bool>>, reports: nat -> seq<SolveResponse>,
                                           rewriter: (nat, seq<ClueRequest>) -> RewriteReply, d: Difficulty, iterations: int)
    ensures var r := Revise(ws, history, reports, rewriter, d, iterations);
      FailureExplained(r.failure, r.words, reports, rewriter, d, |r.history|)
    decreases iterations - |history|
  {
    var round := |history|;
    if round < iterations {
      match WordAccuracy(Words(ws), reports(round))
      case ZeroDivision(w) =>
      case Perc(perc) =>
        var decision := DecideUpdates(d, Words(ws), perc);
        if decision != map[] {
          assert Decision(d, Words(ws), reports(round)) == Some(decision);
          match rewriter(round, Request(ws, Flagged(decision)))
          case Unparseable =>
          case Rewritten(es) =>
            RevisionFailure(ApplyAll(ws, es), history + [decision], reports, rewriter, d, iterations);
        }
    }
  }

  /** A decision map whose flags are all false sends an empty request. */
  lemma AllFalseRequestsNothing(ws: seq<PlacedWord>, decision: map<string, bool>)
    requires forall w :: w in decision ==> !decision[w]
    ensures Request(ws, Flagged(decision)) == []
  {
    assert Flagged(decision) == {};
    RequestMembers(ws, {});
  }

  /**
   * A non-empty decision map never ends the loop by itself, even when every
   * flag is false: unless the rewriter's reply fails to parse, the round is
   * recorded, the run is not matched there, and it goes on.
   */
  lemma NonEmptyDecisionContinues(ws: seq<PlacedWord>, history: seq<map<string, bool>>, reports: nat -> seq<SolveResponse>,
                                  rewriter: (nat, seq<ClueRequest>) -> RewriteReply, d: Difficulty, iterations: int)
    requires |history| < iterations
    requires forall k :: 0 <= k < |history| ==> history[k] != map[]
    requires Decision(d, Words(ws), reports(|history|)).Some?
    requires Decision(d, Words(ws), reports(|history|)).value != map[]
    ensures var decision := Decision(d, Words(ws), reports(|history|)).value;
      var r := Revise(ws, history, reports, rewriter, d, iterations);
      rewriter(|history|, Request(ws, Flagged(decision))).Rewritten? ==>
        && |r.history| > |history| && r.history[|history|] == decision
        && (|r.history| == |history| + 1 ==> !r.matched)
  {
    var decision := Decision(d, Words(ws), reports(|history|)).value;
    var reply := rewriter(|history|, Request(ws, Flagged(decision)));
    if reply.Rewritten? {
      var more := history + [decision];
      var next := ApplyAll(ws, reply.entries);
      assert Revise(ws, history, reports, rewriter, d, iterations) == Revise(next, more, reports, rewriter, d, iterations);
      RevisionShape(next, more, reports, rewriter, d, iterations);
      RevisionExtends(next, more, reports, rewriter, d, iterations);
      RecordedRound(Revise(next, more, reports, rewriter, d, iterations), more, Max0(iterations));
    }
  }

  /** A run that went past a non-empty decision map recorded it and did not match on it. */
  lemma RecordedRound(r: RevisionRun, more: seq<map<string, bool>>, n: nat)
    requires Shaped(r, n) && |more| <= |r.history| && r.history[..|more|] == more
    requires |more| > 0 && more[|more| - 1] != map[]
    ensures r.history[|more| - 1] == more[|more| - 1]
    ensures |r.history| == |more| ==> !r.matched
  {
    assert r.history[|more| - 1] == r.history[..|more|][|more| - 1];
  }

  /**
   * generate_crossword's loop over at most `iterations` rounds: score the
   * round's reports, decide, rewrite the flagged clues when the decision map
   * is non-empty, and stop after a round whose decision map is empty. A
   * division by zero or an unparseable reply raises out of the loop.
   * `history` holds the decision map of every round that finished.
   */
  method GenerateCrossword(crossword: WordList, reports: nat -> seq<SolveResponse>,
                           rewriter: (nat, seq<ClueRequest>) -> RewriteReply,
                           d: Difficulty, iterations: int)
    returns (history: seq<map<string, bool>>, matched: bool, failure: Option<Failure>)
    modifies crossword
    ensures RevisionRun(crossword.words, history, matched, failure) == Revise(old(crossword.words), [], reports, rewriter, d, iterations)
    ensures Shaped(RevisionRun(crossword.words, history, matched, failure), Max0(iterations))
    ensures SameExceptClues(old(crossword.words), crossword.words)
    ensures forall k :: 0 <= k < |history| ==> Decision(d, Words(old(crossword.words)), reports(k)) == Some(history[k])
    ensures FailureExplained(failure, crossword.words, reports, rewriter, d, |history|)
  {
    history, matched, failure := [], false, None;
    ghost var original := crossword.words;
    ghost var goal := Revise(original, [], reports, rewriter, d, iterations);
    var i := 0;
    while i < iterations
      invariant i == |history|
      invariant !matched && failure.None?
      invariant goal == Revise(crossword.words, history, reports, rewriter, d, iterations)
    {
      var words := Words(crossword.words);
      var perc := WordAccuracy(words, reports(i));
      if perc.ZeroDivision? {
        failure := Some(NoAttempts(perc.word));
        break;
      }
      var decision := DecideUpdates(d, words, perc.perc);
      if decision != map[] {
        var _, parsed := UpdateCrossword(crossword, Flagged(decision), q => rewriter(i, q));
        if !parsed {
          failure := Some(InvalidRewrite);
          break;
        }
      }
      history := history + [decision];
      i := i + 1;
      if decision == map[] {
        matched := true;
        break;
      }
    }
    assert goal == RevisionRun(crossword.words, history, matched, failure);
    RevisionShape(original, [], reports, rewriter, d, iterations);
    RevisionKeepsPlacement(original, [], reports, rewriter, d, iterations);
    RevisionDecisions(original, [], reports, rewriter, d, iterations);
    RevisionFailure(original, [], reports, rewriter, d, iterations);
  }
}
