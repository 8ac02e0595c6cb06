/**
 * The grid model of the crossword builder: from an ordered list of placed
 * words, compute every occupied cell and detect the two placement
 * violations, a character conflict and an out-of-bounds cell.
 *
 * The specification is the function `Occupancy`, which scans the flattened
 * cell list `Cells(ws)` with `Scan`; the method `ComputeOccupancy` is the
 * imperative word-by-word, character-by-character walk, proved equal to it.
 */
module Grid {

  /** One entry of the puzzle's `words` list. */
  datatype PlacedWord = PlacedWord(word: string, row: int, column: int, isAcross: bool, clue: string)

  /** One entry of the returned character-position list. */
  datatype CharPosition = CharPosition(row: int, column: int, character: char)

  /** The outcome of validating a word list: the two exceptions become variants. */
  datatype OccupancyResult =
    | Ok(charPositions: seq<CharPosition>, words: seq<string>)
    | Conflict(row: int, column: int, existing: char)
    | OutOfBounds(row: int, column: int)

  /** Outcome of scanning cells: the final position map, or the violation met first. */
  datatype ScanResult = Placed(positions: map<(int, int), char>) | Failed(violation: OccupancyResult)

  /** The cells of a word of letters `s` whose first letter sits at (row, column). */
  function Walk(s: string, row: int, column: int, isAcross: bool): seq<CharPosition>
    decreases |s|
  {
    if s == [] then []
    else if isAcross then [CharPosition(row, column, s[0])] + Walk(s[1..], row, column + 1, isAcross)
    else [CharPosition(row, column, s[0])] + Walk(s[1..], row + 1, column, isAcross)
  }

  function WordCells(w: PlacedWord): seq<CharPosition> {
    Walk(w.word, w.row, w.column, w.isAcross)
  }

  /** All cells of all words, word after word, in placement order. */
  function Cells(ws: seq<PlacedWord>): seq<CharPosition>
    decreases |ws|
  {
    if ws == [] then [] else WordCells(ws[0]) + Cells(ws[1..])
  }

  /** The `word` fields of the entries, in input order. */
  function Words(ws: seq<PlacedWord>): seq<string> {
    seq(|ws|, i requires 0 <= i < |ws| => ws[i].word)
  }

  /** Total number of letters over all words. */
  function Letters(ws: seq<PlacedWord>): nat
    decreases |ws|
  {
    if ws == [] then 0 else |ws[0].word| + Letters(ws[1..])
  }

  /** The bounds test of the source, applied only to a cell not seen before. */
  predicate Outside(row: int, column: int, gridSize: int) {
    row > gridSize || column > gridSize
  }

  /** Scan cells left to right, extending the position map `positions`. */
  function Scan(cells: seq<CharPosition>, positions: map<(int, int), char>, gridSize: int): (r: ScanResult)
    ensures r.Failed? ==> r.violation.Conflict? || r.violation.OutOfBounds?
    decreases |cells|
  {
    if cells == [] then Placed(positions)
    else
      var c := cells[0];
      var key := (c.row, c.column);
      if key in positions then
        if positions[key] != c.character then Failed(Conflict(c.row, c.column, positions[key]))
        else Scan(cells[1..], positions, gridSize)
      else if Outside(c.row, c.column, gridSize) then Failed(OutOfBounds(c.row, c.column))
      else Scan(cells[1..], positions[key := c.character], gridSize)
  }

  /** The specification of get_character_positions_and_words. */
  function Occupancy(ws: seq<PlacedWord>, gridSize: int): OccupancyResult {
    match Scan(Cells(ws), map[], gridSize)
    case Placed(_) => Ok(Cells(ws), Words(ws))
    case Failed(v) => v
  }

  /** Two cells name the same grid position. */
  predicate SamePlace(a: CharPosition, b: CharPosition) {
    a.row == b.row && a.column == b.column
  }

  /** No two cells at the same position carry different characters. */
  ghost predicate Consistent(cells: seq<CharPosition>) {
    forall i, j :: 0 <= i < j < |cells| && SamePlace(cells[i], cells[j]) ==> cells[i].character == cells[j].character
  }

  /** Every cell passes the bounds test. */
  ghost predicate Inside(cells: seq<CharPosition>, gridSize: int) {
    forall i :: 0 <= i < |cells| ==> !Outside(cells[i].row, cells[i].column, gridSize)
  }

  /** Every cell whose position is already mapped carries the mapped character. */
  ghost predicate AgreesWith(cells: seq<CharPosition>, positions: map<(int, int), char>) {
    forall i :: 0 <= i < |cells| && (cells[i].row, cells[i].column) in positions ==>
      positions[(cells[i].row, cells[i].column)] == cells[i].character
  }

  /** Every cell whose position is not yet mapped passes the bounds test. */
  ghost predicate NewInside(cells: seq<CharPosition>, positions: map<(int, int), char>, gridSize: int) {
    forall i :: 0 <= i < |cells| && (cells[i].row, cells[i].column) !in positions ==>
      !Outside(cells[i].row, cells[i].column, gridSize)
  }

  /** Cell j is at (row, column) and no earlier cell is. */
  ghost predicate FirstAt(cells: seq<CharPosition>, j: int, row: int, column: int) {
    0 <= j < |cells| && cells[j].row == row && cells[j].column == column &&
    forall i :: 0 <= i < j ==> !(cells[i].row == row && cells[i].column == column)
  }

  // ---------------------------------------------------------------------------
  // Where the letters go

  /** Letter k of a word lands at (row, column + k) across and (row + k, column) down. */
  lemma {:induction false} WalkAt(s: string, row: int, column: int, isAcross: bool, k: nat)
    requires k < |s|
    ensures |Walk(s, row, column, isAcross)| == |s|
    ensures Walk(s, row, column, isAcross)[k] ==
      if isAcross then CharPosition(row, column + k, s[k]) else CharPosition(row + k, column, s[k])
    decreases |s|
  {
    WalkLength(s, row, column, isAcross);
    if k > 0 {
      if isAcross {
        WalkAt(s[1..], row, column + 1, isAcross, k - 1);
      } else {
        WalkAt(s[1..], row + 1, column, isAcross, k - 1);
      }
    }
  }

  lemma {:induction false} WalkLength(s: string, row: int, column: int, isAcross: bool)
    ensures |Walk(s, row, column, isAcross)| == |s|
    decreases |s|
  {
    if s != [] {
      if isAcross {
        WalkLength(s[1..], row, column + 1, isAcross);
      } else {
        WalkLength(s[1..], row + 1, column, isAcross);
      }
    }
  }

  /** The cells of a concatenation are the cells of the parts, in order. */
  lemma {:induction false} CellsAppend(a: seq<PlacedWord>, b: seq<PlacedWord>)
    ensures Cells(a + b) == Cells(a) + Cells(b)
    decreases |a|
  {
    if a != [] {
      assert (a + b)[0] == a[0];
      assert (a + b)[1..] == a[1..] + b;
      CellsAppend(a[1..], b);
    } else {
      assert a + b == b;
    }
  }

  /** One cell per letter of every word. */
  lemma {:induction false} CellsCount(ws: seq<PlacedWord>)
    ensures |Cells(ws)| == Letters(ws)
    decreases |ws|
  {
    if ws != [] {
      WalkLength(ws[0].word, ws[0].row, ws[0].column, ws[0].isAcross);
      CellsCount(ws[1..]);
    }
  }

  /** Appending a word appends exactly its cells, after all earlier ones. */
  lemma CellsOfAppended(ws: seq<PlacedWord>, w: PlacedWord)
    ensures Cells(ws + [w]) == Cells(ws) + WordCells(w)
  {
    CellsAppend(ws, [w]);
    assert Cells([w]) == WordCells(w) + Cells([]);
  }

  // ---------------------------------------------------------------------------
  // What the scan accepts and rejects

  /** The scan succeeds exactly when cells agree with the map and among themselves,
      and every cell not already mapped is inside the bounds. */
  lemma {:induction false} ScanPlacedIff(cells: seq<CharPosition>, positions: map<(int, int), char>, gridSize: int)
    ensures Scan(cells, positions, gridSize).Placed? <==>
      AgreesWith(cells, positions) && Consistent(cells) && NewInside(cells, positions, gridSize)
    decreases |cells|
  {
    if cells != [] {
      var c := cells[0];
      var key := (c.row, c.column);
      var rest := cells[1..];
      if key in positions {
        if positions[key] == c.character {
          ScanPlacedIff(rest, positions, gridSize);
          if AgreesWith(rest, positions) && Consistent(rest) && NewInside(rest, positions, gridSize) {
            forall i, j | 0 <= i < j < |cells| && SamePlace(cells[i], cells[j])
              ensures cells[i].character == cells[j].character
            {
              if i == 0 {
                assert rest[j - 1] == cells[j];
              } else {
                assert rest[i - 1] == cells[i] && rest[j - 1] == cells[j];
              }
            }
            forall i | 0 <= i < |cells| && (cells[i].row, cells[i].column) !in positions
              ensures !Outside(cells[i].row, cells[i].column, gridSize)
            {
              assert i > 0 && rest[i - 1] == cells[i];
            }
            forall i | 0 <= i < |cells| && (cells[i].row, cells[i].column) in positions
              ensures positions[(cells[i].row, cells[i].column)] == cells[i].character
            {
              if i > 0 { assert rest[i - 1] == cells[i]; }
            }
          }
          if AgreesWith(cells, positions) && Consistent(cells) && NewInside(cells, positions, gridSize) {
            forall i | 0 <= i < |rest| && (rest[i].row, rest[i].column) in positions
              ensures positions[(rest[i].row, rest[i].column)] == rest[i].character
            {
              assert cells[i + 1] == rest[i];
            }
            forall i, j | 0 <= i < j < |rest| && SamePlace(rest[i], rest[j])
              ensures rest[i].character == rest[j].character
            {
              assert cells[i + 1] == rest[i] && cells[j + 1] == rest[j];
            }
            forall i | 0 <= i < |rest| && (rest[i].row, rest[i].column) !in positions
              ensures !Outside(rest[i].row, rest[i].column, gridSize)
            {
              assert cells[i + 1] == rest[i];
            }
          }
        } else {
          assert !AgreesWith(cells, positions) by {
            assert (cells[0].row, cells[0].column) in positions;
          }
        }
      } else if Outside(c.row, c.column, gridSize) {
        assert !NewInside(cells, positions, gridSize) by {
          assert (cells[0].row, cells[0].column) !in positions;
        }
      } else {
        var next := positions[key := c.character];
        ScanPlacedIff(rest, next, gridSize);
        if AgreesWith(rest, next) && Consistent(rest) && NewInside(rest, next, gridSize) {
          forall i, j | 0 <= i < j < |cells| && SamePlace(cells[i], cells[j])
            ensures cells[i].character == cells[j].character
          {
            if i == 0 {
              assert rest[j - 1] == cells[j];
              assert (rest[j - 1].row, rest[j - 1].column) == key;
            } else {
              assert rest[i - 1] == cells[i] && rest[j - 1] == cells[j];
            }
          }
          forall i | 0 <= i < |cells| && (cells[i].row, cells[i].column) !in positions
            ensures !Outside(cells[i].row, cells[i].column, gridSize)
          {
            if i > 0 {
              assert rest[i - 1] == cells[i];
            }
          }
          forall i | 0 <= i < |cells| && (cells[i].row, cells[i].column) in positions
            ensures positions[(cells[i].row, cells[i].column)] == cells[i].character
          {
            assert i > 0;
            assert rest[i - 1] == cells[i];
            assert (rest[i - 1].row, rest[i - 1].column) in next;
          }
        }
        if AgreesWith(cells, positions) && Consistent(cells) && NewInside(cells, positions, gridSize) {
          forall i | 0 <= i < |rest| && (rest[i].row, rest[i].column) in next
            ensures next[(rest[i].row, rest[i].column)] == rest[i].character
          {
            assert cells[i + 1] == rest[i];
            if (rest[i].row, rest[i].column) == key {
              assert SamePlace(cells[0], cells[i + 1]);
            }
          }
          forall i, j | 0 <= i < j < |rest| && SamePlace(rest[i], rest[j])
            ensures rest[i].character == rest[j].character
          {
            assert cells[i + 1] == rest[i] && cells[j + 1] == rest[j];
          }
          forall i | 0 <= i < |rest| && (rest[i].row, rest[i].column) !in next
            ensures !Outside(rest[i].row, rest[i].column, gridSize)
          {
            assert cells[i + 1] == rest[i];
          }
        }
      }
    }
  }

  /** A word list is accepted exactly when no two of its cells at the same
      position disagree and no cell has a row or column above `gridSize`. */
  lemma OccupancyOkIff(ws: seq<PlacedWord>, gridSize: int)
    ensures Occupancy(ws, gridSize).Ok? <==> Consistent(Cells(ws)) && Inside(Cells(ws), gridSize)
  {
    var cells := Cells(ws);
    ScanPlacedIff(cells, map[], gridSize);
    assert AgreesWith(cells, map[]);
    assert NewInside(cells, map[], gridSize) <==> Inside(cells, gridSize);
  }

  /** A reported conflict names a cell held by an earlier cell (or the map) with
      the reported character and claimed later by a different character. */
  lemma {:induction false} ScanConflictWitness(cells: seq<CharPosition>, positions: map<(int, int), char>, gridSize: int,
                                               row: int, column: int, existing: char)
    requires Scan(cells, positions, gridSize) == Failed(Conflict(row, column, existing))
    ensures exists j :: 0 <= j < |cells| && cells[j].row == row && cells[j].column == column && cells[j].character != existing
    ensures ((row, column) in positions && positions[(row, column)] == existing) ||
            exists i :: 0 <= i < |cells| && cells[i] == CharPosition(row, column, existing)
    decreases |cells|
  {
    var c := cells[0];
    var key := (c.row, c.column);
    var rest := cells[1..];
    if key in positions && positions[key] != c.character {
      assert cells[0].row == row && cells[0].column == column && cells[0].character != existing;
    } else if key in positions {
      ScanConflictWitness(rest, positions, gridSize, row, column, existing);
      var j :| 0 <= j < |rest| && rest[j].row == row && rest[j].column == column && rest[j].character != existing;
      assert cells[j + 1] == rest[j];
      if !((row, column) in positions && positions[(row, column)] == existing) {
        var i :| 0 <= i < |rest| && rest[i] == CharPosition(row, column, existing);
        assert cells[i + 1] == rest[i];
      }
    } else {
      var next := positions[key := c.character];
      ScanConflictWitness(rest, next, gridSize, row, column, existing);
      var j :| 0 <= j < |rest| && rest[j].row == row && rest[j].column == column && rest[j].character != existing;
      assert cells[j + 1] == rest[j];
      if (row, column) in next && next[(row, column)] == existing {
        if (row, column) == key {
          assert cells[0] == CharPosition(row, column, existing);
        }
      } else {
        var i :| 0 <= i < |rest| && rest[i] == CharPosition(row, column, existing);
        assert cells[i + 1] == rest[i];
      }
    }
  }

  /** A reported out-of-bounds cell fails the bounds test, was not mapped
      before, and is the first cell at that position. */
  lemma {:induction false} ScanOutOfBoundsWitness(cells: seq<CharPosition>, positions: map<(int, int), char>,
                                                  gridSize: int, row: int, column: int)
    requires Scan(cells, positions, gridSize) == Failed(OutOfBounds(row, column))
    ensures Outside(row, column, gridSize) && (row, column) !in positions
    ensures exists j :: FirstAt(cells, j, row, column)
    decreases |cells|
  {
    var c := cells[0];
    var key := (c.row, c.column);
    var rest := cells[1..];
    if key !in positions && Outside(c.row, c.column, gridSize) {
      assert FirstAt(cells, 0, row, column);
    } else {
      var next := if key in positions then positions else positions[key := c.character];
      ScanOutOfBoundsWitness(rest, next, gridSize, row, column);
      var j :| FirstAt(rest, j, row, column);
      assert cells[j + 1] == rest[j];
      forall i | 0 <= i < j + 1
        ensures !(cells[i].row == row && cells[i].column == column)
      {
        if i > 0 { assert cells[i] == rest[i - 1]; }
      }
      assert FirstAt(cells, j + 1, row, column);
    }
  }

  /** The first character written to a cell is never overwritten: the final
      position map extends the starting one. */
  lemma {:induction false} ScanKeepsPositions(cells: seq<CharPosition>, positions: map<(int, int), char>, gridSize: int)
    requires Scan(cells, positions, gridSize).Placed?
    ensures forall key :: key in positions ==>
      key in Scan(cells, positions, gridSize).positions && Scan(cells, positions, gridSize).positions[key] == positions[key]
    decreases |cells|
  {
    if cells != [] {
      var c := cells[0];
      var key := (c.row, c.column);
      if key in positions {
        ScanKeepsPositions(cells[1..], positions, gridSize);
      } else {
        ScanKeepsPositions(cells[1..], positions[key := c.character], gridSize);
      }
    }
  }

  /** If a cell list is accepted, so is every prefix of it. */
  lemma {:induction false} ScanPrefix(a: seq<CharPosition>, b: seq<CharPosition>, positions: map<(int, int), char>, gridSize: int)
    requires Scan(a + b, positions, gridSize).Placed?
    ensures Scan(a, positions, gridSize).Placed?
    decreases |a|
  {
    if a != [] {
      assert (a + b)[0] == a[0] && (a + b)[1..] == a[1..] + b;
      var key := (a[0].row, a[0].column);
      if key in positions {
        ScanPrefix(a[1..], b, positions, gridSize);
      } else {
        ScanPrefix(a[1..], b, positions[key := a[0].character], gridSize);
      }
    }
  }

  /** Every prefix of an accepted word list is accepted: a word list that was
      grown by validated appends stays valid under rollback. */
  lemma OccupancyPrefix(ws: seq<PlacedWord>, k: nat, gridSize: int)
    requires k <= |ws|
    requires Occupancy(ws, gridSize).Ok?
    ensures Occupancy(ws[..k], gridSize).Ok?
  {
    assert ws == ws[..k] + ws[k..];
    CellsAppend(ws[..k], ws[k..]);
    assert Scan(Cells(ws), map[], gridSize).Placed?;
    ScanPrefix(Cells(ws[..k]), Cells(ws[k..]), map[], gridSize);
  }

  // ---------------------------------------------------------------------------
  // The imperative walk

  /** Scanning two cell lists one after the other: the second continues from the first's map. */
  lemma {:induction false} ScanAppend(a: seq<CharPosition>, b: seq<CharPosition>, positions: map<(int, int), char>, gridSize: int)
    ensures Scan(a + b, positions, gridSize) ==
      match Scan(a, positions, gridSize)
      case Failed(v) => Failed(v)
      case Placed(after) => Scan(b, after, gridSize)
    decreases |a|
  {
    if a == [] {
      assert a + b == b;
    } else {
      assert (a + b)[0] == a[0] && (a + b)[1..] == a[1..] + b;
      var key := (a[0].row, a[0].column);
      if key in positions {
        ScanAppend(a[1..], b, positions, gridSize);
      } else {
        ScanAppend(a[1..], b, positions[key := a[0].character], gridSize);
      }
    }
  }

  lemma WalkStep(s: string, k: nat, row: int, column: int, isAcross: bool)
    requires k < |s|
    ensures Walk(s[k..], row, column, isAcross) ==
      [CharPosition(row, column, s[k])] +
      Walk(s[k + 1..], if isAcross then row else row + 1, if isAcross then column + 1 else column, isAcross)
  {
    assert s[k..][0] == s[k] && s[k..][1..] == s[k + 1..];
  }

  lemma OccupancyOfScan(ws: seq<PlacedWord>, gridSize: int, target: ScanResult)
    requires target == Scan(Cells(ws), map[], gridSize)
    ensures target.Failed? ==> Occupancy(ws, gridSize) == target.violation
    ensures target.Placed? ==> Occupancy(ws, gridSize) == Ok(Cells(ws), Words(ws))
  {
  }

  lemma ScanHead(cells: seq<CharPosition>, positions: map<(int, int), char>, gridSize: int)
    requires cells != []
    ensures var c := cells[0]; var key := (c.row, c.column);
      && (key in positions && positions[key] != c.character ==>
            Scan(cells, positions, gridSize) == Failed(Conflict(c.row, c.column, positions[key])))
      && (key in positions && positions[key] == c.character ==>
            Scan(cells, positions, gridSize) == Scan(cells[1..], positions, gridSize))
      && (key !in positions && Outside(c.row, c.column, gridSize) ==>
            Scan(cells, positions, gridSize) == Failed(OutOfBounds(c.row, c.column)))
      && (key !in positions && !Outside(c.row, c.column, gridSize) ==>
            Scan(cells, positions, gridSize) == Scan(cells[1..], positions[key := c.character], gridSize))
  {
  }

  lemma AppendCell(done: seq<CharPosition>, c: CharPosition, tail: seq<CharPosition>)
    ensures (done + [c]) + tail == done + ([c] + tail)
  {
  }

  lemma WordsStep(ws: seq<PlacedWord>, i: nat)
    requires i < |ws|
    ensures Words(ws[..i + 1]) == Words(ws[..i]) + [ws[i].word]
  {
  }

  lemma CellsStep(ws: seq<PlacedWord>, i: nat)
    requires i < |ws|
    ensures Cells(ws[i..]) == WordCells(ws[i]) + Cells(ws[i + 1..])
  {
    assert ws[i..][0] == ws[i] && ws[i..][1..] == ws[i + 1..];
  }

  /** The inner loop of get_character_positions_and_words: walk one word's
      cells from the map built so far, stopping at the first violation. */
  method PlaceWord(w: PlacedWord, positionMap: map<(int, int), char>, gridSize: int)
    returns (cells: seq<CharPosition>, outcome: ScanResult)
    ensures outcome == Scan(WordCells(w), positionMap, gridSize)
    ensures outcome.Placed? ==> cells == WordCells(w)
  {
    ghost var target := Scan(WordCells(w), positionMap, gridSize);
    ghost var rest := WordCells(w);
    assert w.word[0..] == w.word;
    var positions := positionMap;
    var row, column := w.row, w.column;
    cells := [];
    var k := 0;
    while k < |w.word|
      invariant 0 <= k <= |w.word|
      invariant rest == Walk(w.word[k..], row, column, w.isAcross)
      invariant cells + rest == WordCells(w)
      invariant target == Scan(rest, positions, gridSize)
    {
      var ch := w.word[k];
      var cell := CharPosition(row, column, ch);
      ghost var tail := Walk(w.word[k + 1..], if w.isAcross then row else row + 1,
                             if w.isAcross then column + 1 else column, w.isAcross);
      WalkStep(w.word, k, row, column, w.isAcross);
      assert rest[0] == cell && rest[1..] == tail;
      ScanHead(rest, positions, gridSize);
      var key := (row, column);
      if key in positions {
        if positions[key] != ch {
          return cells, Failed(Conflict(row, column, positions[key]));
        }
      } else if row > gridSize || column > gridSize {
        return cells, Failed(OutOfBounds(row, column));
      } else {
        positions := positions[key := ch];
      }
      AppendCell(cells, cell, tail);
      cells := cells + [cell];
      rest := tail;
      if w.isAcross {
        column := column + 1;
      } else {
        row := row + 1;
      }
      k := k + 1;
    }
    assert w.word[k..] == [];
    return cells, Placed(positions);
  }

  /** get_character_positions_and_words: walk each word cell by cell, keep a
      cell-to-character map, and stop at the first conflict or out-of-bounds cell. */
  method ComputeOccupancy(ws: seq<PlacedWord>, gridSize: int) returns (r: OccupancyResult)
    ensures r == Occupancy(ws, gridSize)
  {
    ghost var all := Cells(ws);
    ghost var target := Scan(all, map[], gridSize);
    var charPositions: seq<CharPosition> := [];
    var words: seq<string> := [];
    var positionMap: map<(int, int), char> := map[];
    assert ws[0..] == ws;
    var i := 0;
    while i < |ws|
      invariant 0 <= i <= |ws|
      invariant charPositions + Cells(ws[i..]) == all
      invariant words == Words(ws[..i])
      invariant target == Scan(Cells(ws[i..]), positionMap, gridSize)
    {
      var w := ws[i];
      var cells, outcome := PlaceWord(w, positionMap, gridSize);
      assert target == if outcome.Failed? then outcome else Scan(Cells(ws[i + 1..]), outcome.positions, gridSize) by {
        CellsStep(ws, i);
        ScanAppend(WordCells(w), Cells(ws[i + 1..]), positionMap, gridSize);
      }
      if outcome.Failed? {
        OccupancyOfScan(ws, gridSize, target);
        return outcome.violation;
      }
      assert (charPositions + cells) + Cells(ws[i + 1..]) == all by {
        CellsStep(ws, i);
        assert (charPositions + cells) + Cells(ws[i + 1..]) == charPositions + (cells + Cells(ws[i + 1..]));
      }
      assert words + [w.word] == Words(ws[..i + 1]) by {
        WordsStep(ws, i);
      }
      words := words + [w.word];
      charPositions := charPositions + cells;
      positionMap := outcome.positions;
      i := i + 1;
    }
    assert ws[..i] == ws;
    OccupancyOfScan(ws, gridSize, target);
    return Ok(charPositions, words);
  }
}
