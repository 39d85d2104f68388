/**
 The rules engine of a 3x3 noughts-and-crosses board.

 A board is nine cells in row-major order: 0,1,2 is the top row, 3,4,5 the
 middle row and 6,7,8 the bottom row. `Process` classifies a snapshot of the
 nine cells from one player's perspective; the `Board` class owns the live
 cell array that placements write and that a new game clears.
 */
module Board {

  /** The contents of one cell. */
  datatype Marker = None | Cross | Nought

  /** The state of a game as seen from one perspective. */
  datatype GameState = None | Tie | Lose | Win

  /** A cell index. */
  type Cell = i: int | 0 <= i < 9

  /** A marker that belongs to a player. */
  predicate Occupied(m: Marker) {
    m == Marker.Cross || m == Marker.Nought
  }

  // ---------------------------------------------------------------------------
  // Process, as the code scans the board

  /** The owner of the first complete row at or below row start `i`
      (i = 0, 3, 6), or `Marker.None` if there is none. */
  function RowWinner(s: seq<Marker>, i: nat): Marker
    requires |s| == 9
    decreases 9 - i
  {
    if i >= 7 then Marker.None
    else if Occupied(s[i]) && s[i] == s[i + 1] && s[i + 1] == s[i + 2] then s[i]
    else RowWinner(s, i + 3)
  }

  /** The owner of the first complete column at or right of column `i`,
      or `Marker.None` if there is none. */
  function ColumnWinner(s: seq<Marker>, i: nat): Marker
    requires |s| == 9
    decreases 3 - i
  {
    if i >= 3 then Marker.None
    else if Occupied(s[i]) && s[i] == s[i + 3] && s[i + 3] == s[i + 6] then s[i]
    else ColumnWinner(s, i + 1)
  }

  /** The owner of a complete diagonal (both run through the centre),
      or `Marker.None` if there is none. */
  function DiagonalWinner(s: seq<Marker>): Marker
    requires |s| == 9
  {
    if Occupied(s[4]) && ((s[0] == s[4] && s[4] == s[8]) || (s[2] == s[4] && s[4] == s[6]))
    then s[4]
    else Marker.None
  }

  /** Rows first, then columns, then diagonals: the owner of the first
      complete line found, or `Marker.None`. */
  function Winner(s: seq<Marker>): Marker
    requires |s| == 9
  {
    var h := RowWinner(s, 0);
    if h != Marker.None then h
    else
      var v := ColumnWinner(s, 0);
      if v != Marker.None then v
      else DiagonalWinner(s)
  }

  /** The number of occupied cells. */
  function OccupiedCount(s: seq<Marker>): (r: nat)
    ensures r <= |s|
  {
    if s == [] then 0
    else (if Occupied(s[0]) then 1 else 0) + OccupiedCount(s[1..])
  }

  /** The state of the game on `s` seen from `perspective`: a complete line
      decides Win or Lose; otherwise nine occupied cells are a Tie and
      anything less is still going on. */
  function Process(s: seq<Marker>, perspective: Marker): GameState
    requires |s| == 9
  {
    var w := Winner(s);
    if w != Marker.None then
      (if w == perspective then GameState.Win else GameState.Lose)
    else if OccupiedCount(s) == 9 then GameState.Tie
    else GameState.None
  }

  // ---------------------------------------------------------------------------
  // The reference definition: the eight lines of the board

  const Lines: seq<(Cell, Cell, Cell)> :=
    [(0, 1, 2), (3, 4, 5), (6, 7, 8),
     (0, 3, 6), (1, 4, 7), (2, 5, 8),
     (0, 4, 8), (2, 4, 6)]

  /** All three cells of `line` hold `m`. */
  predicate Held(s: seq<Marker>, line: (Cell, Cell, Cell), m: Marker)
    requires |s| == 9
  {
    s[line.0] == m && s[line.1] == m && s[line.2] == m
  }

  /** Some row, column or diagonal is held entirely by the player `m`. */
  ghost predicate HasLine(s: seq<Marker>, m: Marker)
    requires |s| == 9
  {
    Occupied(m) && exists k :: 0 <= k < |Lines| && Held(s, Lines[k], m)
  }

  /** Every cell is occupied. */
  ghost predicate Full(s: seq<Marker>) {
    forall i :: 0 <= i < |s| ==> Occupied(s[i])
  }

  /** The state with Win and Lose exchanged. */
  function Swapped(g: GameState): GameState {
    match g
    case Win => GameState.Lose
    case Lose => GameState.Win
    case _ => g
  }

  // ---------------------------------------------------------------------------
  // Lemmas about the scan

  /** The scan reports a marker exactly when some line is complete, and what
      it reports is the owner of a complete line. */
  lemma WinnerIsLineOwner(s: seq<Marker>)
    requires |s| == 9
    ensures Winner(s) != Marker.None ==> HasLine(s, Winner(s))
    ensures Winner(s) == Marker.None <==> !HasLine(s, Marker.Cross) && !HasLine(s, Marker.Nought)
  {
    assert RowWinner(s, 0) == (if Occupied(s[0]) && s[0] == s[1] && s[1] == s[2] then s[0] else RowWinner(s, 3));
    assert RowWinner(s, 3) == (if Occupied(s[3]) && s[3] == s[4] && s[4] == s[5] then s[3] else RowWinner(s, 6));
    assert RowWinner(s, 6) == (if Occupied(s[6]) && s[6] == s[7] && s[7] == s[8] then s[6] else RowWinner(s, 9));
    assert ColumnWinner(s, 0) == (if Occupied(s[0]) && s[0] == s[3] && s[3] == s[6] then s[0] else ColumnWinner(s, 1));
    assert ColumnWinner(s, 1) == (if Occupied(s[1]) && s[1] == s[4] && s[4] == s[7] then s[1] else ColumnWinner(s, 2));
    assert ColumnWinner(s, 2) == (if Occupied(s[2]) && s[2] == s[5] && s[5] == s[8] then s[2] else ColumnWinner(s, 3));
    var w := Winner(s);
    if w != Marker.None {
      var k :| 0 <= k < |Lines| && Held(s, Lines[k], w) by {
        if RowWinner(s, 0) != Marker.None {
          if Held(s, Lines[0], w) {} else if Held(s, Lines[1], w) {} else { assert Held(s, Lines[2], w); }
        } else if ColumnWinner(s, 0) != Marker.None {
          if Held(s, Lines[3], w) {} else if Held(s, Lines[4], w) {} else { assert Held(s, Lines[5], w); }
        } else {
          if Held(s, Lines[6], w) {} else { assert Held(s, Lines[7], w); }
        }
      }
    } else {
      forall m, k | 0 <= k < |Lines| && Occupied(m) ensures !Held(s, Lines[k], m) {
        assert Lines[k] in Lines;
      }
    }
  }

  /** The occupied count reaches nine exactly on a full board. */
  lemma {:induction false} CountNineIffFull(s: seq<Marker>)
    ensures OccupiedCount(s) == |s| <==> Full(s)
  {
    if s != [] {
      CountNineIffFull(s[1..]);
      if Occupied(s[0]) && Full(s[1..]) {
        forall i | 0 <= i < |s| ensures Occupied(s[i]) {
          if i > 0 { assert s[i] == s[1..][i - 1]; }
        }
      }
      if Full(s) {
        forall i | 0 <= i < |s[1..]| ensures Occupied(s[1..][i]) { assert s[1..][i] == s[i + 1]; }
      }
    }
  }

  /** Writing a player's marker into an empty cell occupies one more cell. */
  lemma {:induction false} PlaceOccupiesOneMore(s: seq<Marker>, i: int, m: Marker)
    requires 0 <= i < |s| && s[i] == Marker.None && Occupied(m)
    ensures OccupiedCount(s[i := m]) == OccupiedCount(s) + 1
  {
    if i == 0 {
      assert s[i := m][1..] == s[1..];
    } else {
      assert s[i := m][1..] == s[1..][i - 1 := m];
      PlaceOccupiesOneMore(s[1..], i - 1, m);
    }
  }

  /** A board with fewer than nine occupied cells has an empty cell. */
  lemma NotFullHasEmpty(s: seq<Marker>)
    requires |s| == 9 && OccupiedCount(s) < 9
    ensures exists i :: 0 <= i < 9 && s[i] == Marker.None
  {
    CountNineIffFull(s);
    var i :| 0 <= i < |s| && !Occupied(s[i]);
  }

  // ---------------------------------------------------------------------------
  // What Process promises

  /** Process yields Win or Lose exactly when a line is complete, Tie exactly
      when the board is full with no line, and None exactly when it is not
      full and has no line. */
  lemma ProcessClassifies(s: seq<Marker>, perspective: Marker)
    requires |s| == 9
    ensures (Process(s, perspective) == GameState.Win || Process(s, perspective) == GameState.Lose)
            <==> HasLine(s, Marker.Cross) || HasLine(s, Marker.Nought)
    ensures Process(s, perspective) == GameState.Tie
            <==> Full(s) && !HasLine(s, Marker.Cross) && !HasLine(s, Marker.Nought)
    ensures Process(s, perspective) == GameState.None
            <==> !Full(s) && !HasLine(s, Marker.Cross) && !HasLine(s, Marker.Nought)
  {
    WinnerIsLineOwner(s);
    CountNineIffFull(s);
  }

  /** A complete line of `m`, with no complete line of the other player,
      decides the game for or against the perspective, whatever the other
      cells hold. */
  lemma LineDecides(s: seq<Marker>, m: Marker, perspective: Marker)
    requires |s| == 9 && HasLine(s, m)
    requires !HasLine(s, if m == Marker.Cross then Marker.Nought else Marker.Cross)
    ensures Process(s, perspective) == (if m == perspective then GameState.Win else GameState.Lose)
  {
    WinnerIsLineOwner(s);
  }

  /** A complete line takes precedence over a full board. */
  lemma LineBeatsFullBoard(s: seq<Marker>, perspective: Marker)
    requires |s| == 9 && Full(s)
    requires HasLine(s, Marker.Cross) || HasLine(s, Marker.Nought)
    ensures Process(s, perspective) == GameState.Win || Process(s, perspective) == GameState.Lose
  {
    ProcessClassifies(s, perspective);
  }

  /** A full board without a complete line is a tie. */
  lemma FullBoardTies(s: seq<Marker>, perspective: Marker)
    requires |s| == 9 && Full(s)
    requires !HasLine(s, Marker.Cross) && !HasLine(s, Marker.Nought)
    ensures Process(s, perspective) == GameState.Tie
  {
    ProcessClassifies(s, perspective);
  }

  /** A board with an empty cell and no complete line is still going on;
      in particular the empty board is. */
  lemma OpenBoardContinues(s: seq<Marker>, perspective: Marker)
    requires |s| == 9 && Marker.None in s
    requires !HasLine(s, Marker.Cross) && !HasLine(s, Marker.Nought)
    ensures Process(s, perspective) == GameState.None
  {
    ProcessClassifies(s, perspective);
  }

  /** Seeing the board from the other player's side exchanges Win and Lose
      and leaves Tie and None alone. */
  lemma PerspectiveSwap(s: seq<Marker>)
    requires |s| == 9
    ensures Process(s, Marker.Cross) == Swapped(Process(s, Marker.Nought))
  {
    WinnerIsLineOwner(s);
  }

  // ---------------------------------------------------------------------------
  // The live board

  /** The game board: the nine cells that placements write. Whether a cell is
      occupied is read off the cell itself. */
  class Board {
    var spaces: array<Marker>

    ghost predicate Valid()
      reads this
    {
      spaces.Length == 9
    }

    /** A new board has nine empty cells. */
    constructor ()
      ensures Valid() && fresh(spaces)
      ensures forall i :: 0 <= i < 9 ==> spaces[i] == Marker.None
    {
      spaces := new Marker[9](_ => Marker.None);
    }

    /** Places the current player's marker at `position`, unless the game is
        over, the cell is occupied or the current player has no marker.
        `gameOver` and `current` are the game manager's state. */
    method PlaceMarker(position: int, gameOver: bool, current: Marker) returns (placed: bool)
      requires Valid() && 0 <= position < 9
      modifies spaces
      ensures placed <==> !gameOver && old(spaces[position]) == Marker.None && current != Marker.None
      ensures spaces[..] == if placed then old(spaces[..])[position := current] else old(spaces[..])
    {
      placed := false;
      if gameOver || spaces[position] != Marker.None {
        return;
      }
      if current != Marker.None {
        spaces[position] := current;
        placed := true;
      }
    }

    /** Empties all nine cells. */
    method Clear()
      requires Valid()
      modifies spaces
      ensures forall i :: 0 <= i < 9 ==> spaces[i] == Marker.None
    {
      forall i | 0 <= i < 9 {
        spaces[i] := Marker.None;
      }
    }
  }
}
