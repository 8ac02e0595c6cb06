/**
 * What the word-proposing and word-guessing loops share: the mutable word
 * list they extend and roll back, and the oracle's answers, already reduced
 * to the four cases the loops distinguish.
 */
module Proposals {
  import opened Grid
  import opened JsonText

  /** How a parsed JSON value looks to the loops: a dict carrying a placement,
      a dict whose `message` key is set, or any other value. */
  datatype ParsedJson = ProposalObject(entry: PlacedWord) | MessageObject | OtherValue

  /** One oracle answer. `InvokeError` is the oracle call itself raising. */
  datatype Response = Proposal(entry: PlacedWord) | Message | ParseError | InvokeError

  /** The test `isinstance(d, dict) and not d.get("message")` on an extracted value. */
  function Interpret(e: Extracted<ParsedJson>): (r: Response)
    ensures r.Proposal? <==> e.Value? && e.value.ProposalObject?
    ensures r.Proposal? ==> r.entry == e.value.entry
    ensures r.Message? <==> e == Value(MessageObject)
    ensures !r.InvokeError?
  {
    match e
    case Value(ProposalObject(w)) => Proposal(w)
    case Value(MessageObject) => Message
    case _ => ParseError
  }

  /** A proposal is accepted when the word list with it appended passes the grid check. */
  predicate Accepts(ws: seq<PlacedWord>, gridSize: int, r: Response) {
    r.Proposal? && Occupancy(ws + [r.entry], gridSize).Ok?
  }

  /** An answer the loops retry on: anything but an acceptance or a raised call. */
  predicate Rejected(ws: seq<PlacedWord>, gridSize: int, r: Response) {
    !r.InvokeError? && !Accepts(ws, gridSize, r)
  }

  /** An accepted word adds exactly its own cells after the existing ones, and
      those cells agree with every earlier cell at the same position. */
  lemma AcceptedCells(ws: seq<PlacedWord>, gridSize: int, r: Response)
    requires Accepts(ws, gridSize, r)
    ensures Occupancy(ws + [r.entry], gridSize).charPositions == Cells(ws) + WordCells(r.entry)
    ensures Occupancy(ws, gridSize).Ok?
    ensures forall i, j ::
      (0 <= i < |Cells(ws)| && 0 <= j < |WordCells(r.entry)| && SamePlace(Cells(ws)[i], WordCells(r.entry)[j])) ==>
        Cells(ws)[i].character == WordCells(r.entry)[j].character
  {
    var all := ws + [r.entry];
    CellsOfAppended(ws, r.entry);
    OccupancyPrefix(all, |ws|, gridSize);
    assert all[..|ws|] == ws;
    OccupancyOkIff(all, gridSize);
    var before := Cells(ws);
    var added := WordCells(r.entry);
    forall i, j | 0 <= i < |before| && 0 <= j < |added| && SamePlace(before[i], added[j])
      ensures before[i].character == added[j].character
    {
      assert Cells(all)[i] == before[i] && Cells(all)[|before| + j] == added[j];
    }
  }

  /** The words dict shared by a build or solve attempt, updated in place. */
  class WordList {
    var words: seq<PlacedWord>

    constructor ()
      ensures words == []
    {
      words := [];
    }

    /** append_new_word */
    method Append(w: PlacedWord)
      modifies this
      ensures words == old(words) + [w]
    {
      words := words + [w];
    }

    /** remove_last_word: list.pop() on a non-empty list */
    method RemoveLast()
      requires words != []
      modifies this
      ensures words == old(words)[..|old(words)| - 1]
    {
      words := words[..|words| - 1];
    }
  }
}
