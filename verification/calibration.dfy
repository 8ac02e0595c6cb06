/**
 * Calibrating difficulty from the agents' reports: each crossword word's
 * accuracy is the share of reports listing it as solved; words fall into a
 * low (below 0.5), high (above 0.75) or medium band; the puzzle matches the
 * requested difficulty when enough words sit in the right band, and
 * otherwise every word gets a rewrite flag.
 *
 * An accuracy is the pair of counts it is the ratio of, and every threshold
 * is compared by cross-multiplication; `Ratio` and `ThresholdsByRatio` tie the
 * comparisons to the quotient itself.
 */
module Calibration {
  import opened JsonText
  import opened Solver

  datatype Difficulty = Easy | Medium | Hard

  /** `solved` out of `attempts` reports. */
  datatype Accuracy = Accuracy(solved: nat, attempts: nat)

  /** get_word_perc's result: the accuracy of each word, or the word whose
      division by zero raised. */
  datatype PercResult = Perc(perc: map<string, Accuracy>) | ZeroDivision(word: string)

  datatype Band = Low | Mid | High

  // ---------------------------------------------------------------------------
  // Accuracy aggregation

  /** How often `w` occurs in `xs` (what a Counter adds up for one list). */
  function Count(xs: seq<string>, w: string): (r: nat)
    ensures r <= |xs|
    ensures r == 0 <==> w !in xs
    decreases |xs|
  {
    if xs == [] then 0
    else Count(xs[..|xs| - 1], w) + (if xs[|xs| - 1] == w then 1 else 0)
  }

  /** How many times all reports together list `w` as solved. */
  function SolvedTally(responses: seq<SolveResponse>, w: string): nat
    decreases |responses|
  {
    if responses == [] then 0
    else SolvedTally(responses[..|responses| - 1], w) + Count(responses[|responses| - 1].solved, w)
  }

  /** How many times all reports together list `w` as unsolved. */
  function UnsolvedTally(responses: seq<SolveResponse>, w: string): nat
    decreases |responses|
  {
    if responses == [] then 0
    else UnsolvedTally(responses[..|responses| - 1], w) + Count(responses[|responses| - 1].unsolved, w)
  }

  function Attempts(responses: seq<SolveResponse>, w: string): nat {
    SolvedTally(responses, w) + UnsolvedTally(responses, w)
  }

  /** The tallies over two groups of reports add up. */
  lemma {:induction false} TallyAppend(a: seq<SolveResponse>, b: seq<SolveResponse>, w: string)
    ensures SolvedTally(a + b, w) == SolvedTally(a, w) + SolvedTally(b, w)
    ensures UnsolvedTally(a + b, w) == UnsolvedTally(a, w) + UnsolvedTally(b, w)
    decreases |b|
  {
    if b == [] {
      assert a + b == a;
    } else {
      var front := b[..|b| - 1];
      TallyAppend(a, front, w);
      assert (a + b)[..|a + b| - 1] == a + front;
      assert (a + b)[|a + b| - 1] == b[|b| - 1];
      assert SolvedTally(a + b, w) == SolvedTally(a + front, w) + Count(b[|b| - 1].solved, w);
      assert UnsolvedTally(a + b, w) == UnsolvedTally(a + front, w) + Count(b[|b| - 1].unsolved, w);
    }
  }

  /** A word that no report mentions has no attempts: this is the division by zero. */
  lemma {:induction false} UnmentionedHasNoAttempts(responses: seq<SolveResponse>, w: string)
    requires forall k :: 0 <= k < |responses| ==> w !in responses[k].solved && w !in responses[k].unsolved
    ensures Attempts(responses, w) == 0
    decreases |responses|
  {
    if responses != [] {
      UnmentionedHasNoAttempts(responses[..|responses| - 1], w);
    }
  }

  /** Position `i` holds the first word of `words` that no report mentions. */
  predicate FirstUnmentioned(words: seq<string>, responses: seq<SolveResponse>, i: int) {
    && 0 <= i < |words|
    && Attempts(responses, words[i]) == 0
    && forall j :: 0 <= j < i ==> Attempts(responses, words[j]) > 0
  }

  /** Every key of `perc` maps to its word's counts, with at least one attempt. */
  predicate Tallied(perc: map<string, Accuracy>, responses: seq<SolveResponse>) {
    forall w :: w in perc ==>
      && perc[w] == Accuracy(SolvedTally(responses, w), Attempts(responses, w))
      && 0 < perc[w].attempts
      && perc[w].solved <= perc[w].attempts
  }

  /** The position of the first word that no report mentions, if any. */
  function FirstZeroAttempt(words: seq<string>, responses: seq<SolveResponse>): (r: Option<nat>)
    ensures r.None? <==> forall i :: 0 <= i < |words| ==> Attempts(responses, words[i]) > 0
    ensures r.Some? ==> FirstUnmentioned(words, responses, r.value)
    decreases |words|
  {
    if words == [] then None
    else if Attempts(responses, words[0]) == 0 then Some(0)
    else
      match FirstZeroAttempt(words[1..], responses)
      case None =>
        assert forall i :: 1 <= i < |words| ==> words[i] == words[1..][i - 1];
        None
      case Some(i) =>
        assert forall j :: 1 <= j <= i + 1 ==> words[j] == words[1..][j - 1];
        Some(i + 1)
  }

  /**
   * get_word_perc: one key per crossword word holding its solved and total
   * counts; the first word (in crossword order) that no report mentions
   * raises ZeroDivisionError instead.
   */
  function WordAccuracy(words: seq<string>, responses: seq<SolveResponse>): (r: PercResult)
    ensures r.Perc? <==> forall i :: 0 <= i < |words| ==> Attempts(responses, words[i]) > 0
    ensures r.Perc? ==> (forall w :: w in r.perc <==> w in words) && Tallied(r.perc, responses)
    ensures r.ZeroDivision? ==> exists i :: FirstUnmentioned(words, responses, i) && words[i] == r.word
  {
    match FirstZeroAttempt(words, responses)
    case Some(i) => ZeroDivision(words[i])
    case None => Perc(map w | w in words :: Accuracy(SolvedTally(responses, w), Attempts(responses, w)))
  }

  // ---------------------------------------------------------------------------
  // Bands and the rewrite decision

  /** The accuracy as a number, for a word with at least one report. */
  function Ratio(a: Accuracy): real
    requires a.attempts > 0
  {
    a.solved as real / a.attempts as real
  }

  /** Comparing a quotient with `c` is comparing the dividend with `c` times the divisor. */
  lemma CompareQuotient(s: real, t: real, c: real)
    requires t > 0.0
    ensures s / t < c <==> s < c * t
    ensures s / t > c <==> s > c * t
  {
  }

  /** Below 0.5 is low, above 0.75 is high, anything else (both ends included) is medium. */
  function BandOf(a: Accuracy): Band {
    if 2 * a.solved < a.attempts then Low
    else if 4 * a.solved > 3 * a.attempts then High
    else Mid
  }

  /**
   * The per-word flag once the puzzle does not match: EASY rewrites a word
   * whose accuracy is below 0.75, HARD one above 0.5, MEDIUM one outside
   * [0.5, 0.75].
   */
  function NeedsRewrite(d: Difficulty, a: Accuracy): bool {
    match d
    case Easy => 4 * a.solved < 3 * a.attempts
    case Hard => 2 * a.solved > a.attempts
    case Medium => !(2 * a.solved >= a.attempts && 4 * a.solved <= 3 * a.attempts)
  }

  /** The cross-multiplied bands and flags are the comparisons of the accuracy
      itself with 0.5 and 0.75. */
  lemma {:induction false} ThresholdsByRatio(d: Difficulty, a: Accuracy)
    requires a.attempts > 0
    ensures BandOf(a) == Low <==> Ratio(a) < 0.5
    ensures BandOf(a) == High <==> Ratio(a) > 0.75
    ensures BandOf(a) == Mid <==> 0.5 <= Ratio(a) <= 0.75
    ensures d == Easy ==> (NeedsRewrite(d, a) <==> Ratio(a) < 0.75)
    ensures d == Hard ==> (NeedsRewrite(d, a) <==> Ratio(a) > 0.5)
    ensures d == Medium ==> (NeedsRewrite(d, a) <==> !(0.5 <= Ratio(a) <= 0.75))
  {
    CompareQuotient(a.solved as real, a.attempts as real, 0.5);
    CompareQuotient(a.solved as real, a.attempts as real, 0.75);
  }

  /** How the flags sit against the bands: MEDIUM flags exactly the words
      outside the medium band; EASY flags every low word and no high one;
      HARD flags every high word and no low one. */
  lemma FlagsAgainstBands(d: Difficulty, a: Accuracy)
    ensures d == Medium ==> (NeedsRewrite(d, a) <==> BandOf(a) != Mid)
    ensures d == Easy ==> (BandOf(a) == Low ==> NeedsRewrite(d, a)) && (BandOf(a) == High ==> !NeedsRewrite(d, a))
    ensures d == Hard ==> (BandOf(a) == High ==> NeedsRewrite(d, a)) && (BandOf(a) == Low ==> !NeedsRewrite(d, a))
  {
  }

  predicate Covers(words: seq<string>, perc: map<string, Accuracy>) {
    forall i :: 0 <= i < |words| ==> words[i] in perc
  }

  /** How many of the (possibly repeated) crossword words fall into band `b`. */
  function CountBand(words: seq<string>, perc: map<string, Accuracy>, b: Band): (r: nat)
    requires Covers(words, perc)
    ensures r <= |words|
    decreases |words|
  {
    if words == [] then 0
    else
      var front := words[..|words| - 1];
      assert Covers(front, perc);
      CountBand(front, perc, b) + (if BandOf(perc[words[|words| - 1]]) == b then 1 else 0)
  }

  /** Every word is in exactly one band. */
  lemma {:induction false} BandsPartition(words: seq<string>, perc: map<string, Accuracy>)
    requires Covers(words, perc)
    ensures CountBand(words, perc, Low) + CountBand(words, perc, Mid) + CountBand(words, perc, High) == |words|
    decreases |words|
  {
    if words != [] {
      var front := words[..|words| - 1];
      assert Covers(front, perc);
      BandsPartition(front, perc);
    }
  }

  /** When every word is in band `b`, the band holds all of them. */
  lemma {:induction false} AllInBand(words: seq<string>, perc: map<string, Accuracy>, b: Band)
    requires Covers(words, perc)
    requires forall i :: 0 <= i < |words| ==> BandOf(perc[words[i]]) == b
    ensures CountBand(words, perc, b) == |words|
    decreases |words|
  {
    if words != [] {
      var front := words[..|words| - 1];
      assert Covers(front, perc);
      assert forall i :: 0 <= i < |front| ==> front[i] == words[i];
      AllInBand(front, perc, b);
    }
  }

  /**
   * The three early exits: EASY with at least three quarters of the words
   * high, HARD with more than half low, MEDIUM with at least half but fewer
   * than three quarters medium.
   */
  predicate Matches(d: Difficulty, words: seq<string>, perc: map<string, Accuracy>)
    requires Covers(words, perc)
  {
    match d
    case Easy => 4 * CountBand(words, perc, High) >= 3 * |words|
    case Hard => 2 * CountBand(words, perc, Low) > |words|
    case Medium => |words| <= 2 * CountBand(words, perc, Mid) && 4 * CountBand(words, perc, Mid) < 3 * |words|
  }

  /** Each early exit, stated with the fractions the comparison is written with. */
  lemma MatchesByRatio(d: Difficulty, words: seq<string>, perc: map<string, Accuracy>)
    requires Covers(words, perc)
    ensures d == Easy ==> (Matches(d, words, perc) <==> CountBand(words, perc, High) as real >= 0.75 * |words| as real)
    ensures d == Hard ==> (Matches(d, words, perc) <==> CountBand(words, perc, Low) as real > 0.5 * |words| as real)
    ensures d == Medium ==> (Matches(d, words, perc) <==>
      0.5 * |words| as real <= CountBand(words, perc, Mid) as real < 0.75 * |words| as real)
  {
  }

  /** determine_clue_updates_needed: empty when the puzzle matches, else a flag for every word. */
  function DecideUpdates(d: Difficulty, words: seq<string>, perc: map<string, Accuracy>): (r: map<string, bool>)
    requires Covers(words, perc)
    ensures Matches(d, words, perc) ==> r == map[]
    ensures !Matches(d, words, perc) ==>
      (forall w :: w in r <==> w in words) && forall w :: w in r ==> r[w] == NeedsRewrite(d, perc[w])
  {
    if Matches(d, words, perc) then map[]
    else map w | w in words :: NeedsRewrite(d, perc[w])
  }

  /** The decision is empty exactly when the puzzle matches or has no words. */
  lemma DecideUpdatesEmptyIff(d: Difficulty, words: seq<string>, perc: map<string, Accuracy>)
    requires Covers(words, perc)
    ensures DecideUpdates(d, words, perc) == map[] <==> Matches(d, words, perc) || words == []
  {
  }

  /** An all-high puzzle matches EASY, an all-low non-empty puzzle matches HARD. */
  lemma UniformBandsMatch(words: seq<string>, perc: map<string, Accuracy>)
    requires Covers(words, perc)
    ensures (forall i :: 0 <= i < |words| ==> BandOf(perc[words[i]]) == High) ==> DecideUpdates(Easy, words, perc) == map[]
    ensures (words != [] && forall i :: 0 <= i < |words| ==> BandOf(perc[words[i]]) == Low) ==> DecideUpdates(Hard, words, perc) == map[]
  {
    if forall i :: 0 <= i < |words| ==> BandOf(perc[words[i]]) == High {
      AllInBand(words, perc, High);
    }
    if forall i :: 0 <= i < |words| ==> BandOf(perc[words[i]]) == Low {
      AllInBand(words, perc, Low);
    }
  }

  /** A puzzle whose words are all medium does not match MEDIUM (all of them is
      not fewer than three quarters): the decision is non-empty, every flag false. */
  lemma AllMediumStalls(words: seq<string>, perc: map<string, Accuracy>)
    requires Covers(words, perc) && words != []
    requires forall i :: 0 <= i < |words| ==> BandOf(perc[words[i]]) == Mid
    ensures DecideUpdates(Medium, words, perc) != map[]
    ensures forall w :: w in DecideUpdates(Medium, words, perc) ==> !DecideUpdates(Medium, words, perc)[w]
  {
    AllInBand(words, perc, Mid);
    DecideUpdatesEmptyIff(Medium, words, perc);
  }

  /** A puzzle whose words all sit at exactly 0.75 does not match EASY (none is
      above 0.75) and yet no word is flagged for rewriting. */
  lemma ThreeQuartersStallsEasy(words: seq<string>, perc: map<string, Accuracy>)
    requires Covers(words, perc) && words != []
    requires forall i :: 0 <= i < |words| ==> 4 * perc[words[i]].solved == 3 * perc[words[i]].attempts
    ensures DecideUpdates(Easy, words, perc) != map[]
    ensures forall w :: w in DecideUpdates(Easy, words, perc) ==> !DecideUpdates(Easy, words, perc)[w]
  {
    AllInBand(words, perc, Mid);
    BandsPartition(words, perc);
    DecideUpdatesEmptyIff(Easy, words, perc);
  }

  /** The report as written lists "Bravo" as solved and "bravo" as unsolved:
      "bravo" has one attempt and no solve. */
  lemma BravoReportAsWritten()
    ensures WordAccuracy(["bravo"], [SolveResponse(["Bravo"], ["bravo"])]) == Perc(map["bravo" := Accuracy(0, 1)])
  {
    var written := [SolveResponse(["Bravo"], ["bravo"])];
    assert written[..0] == [];
    assert ["Bravo"][..0] == [] && ["bravo"][..0] == [];
    assert "Bravo" != "bravo";
    assert Attempts(written, "bravo") == 1;
    assert SolvedTally(written, "bravo") == 0;
  }

  /** With the unsolved list empty, no report mentions "bravo" verbatim. */
  lemma BravoReportCorrected()
    ensures WordAccuracy(["bravo"], [SolveResponse(["Bravo"], [])]) == ZeroDivision("bravo")
  {
    var corrected := [SolveResponse(["Bravo"], [])];
    assert corrected[..0] == [];
    assert ["Bravo"][..0] == [];
    assert "Bravo" != "bravo";
    assert Attempts(corrected, "bravo") == 0;
    assert FirstZeroAttempt(["bravo"], corrected) == Some(0);
  }

  /** One report of a puzzle whose single answer is "bravo", from an agent that
      typed "Bravo": as written the word has one attempt and accuracy 0; with
      the case-insensitive unsolved list it has none, and get_word_perc divides
      by zero. */
  lemma CaseInsensitiveUnsolvedLeavesNoAttempts()
    ensures var solution := [SolutionEntry(Key(0, 1, true), "bravo")];
            && WordAccuracy(["bravo"], [SolveResponse(["Bravo"], UnsolvedAsWritten(solution, ["Bravo"]))])
               == Perc(map["bravo" := Accuracy(0, 1)])
            && WordAccuracy(["bravo"], [SolveResponse(["Bravo"], Unsolved(solution, ["Bravo"]))])
               == ZeroDivision("bravo")
  {
    MixedCaseGuessCountedTwice();
    BravoReportAsWritten();
    BravoReportCorrected();
  }
}
