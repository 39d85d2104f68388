/**
 The automated opponent: an exhaustive depth-adjusted minimax over the empty
 cells, and the move selection that plays the centre when it is free and
 otherwise ranks every empty cell by its minimax score and picks the entry
 that the difficulty's rank points at.

 The search works, as the game does, on the live cell array: it writes a
 marker into a cell, searches, and writes the cell back to empty.
 */
module Player {
  import opened Board

  /** The four strength levels; the rank is the position in the list of
      candidates, best first, that the level plays. */
  datatype Difficulty = Easy | Average | Hard | Impossible

  function Rank(d: Difficulty): (r: nat)
    ensures r <= 3
    ensures r == 0 <==> d == Impossible
  {
    match d
    case Easy => 3
    case Average => 2
    case Hard => 1
    case Impossible => 0
  }

  /** The ranks order the levels from strongest to weakest:
      Impossible, Hard, Average, Easy. */
  lemma RankOrder()
    ensures Rank(Impossible) < Rank(Hard) < Rank(Average) < Rank(Easy)
  {
  }

  /** Unity's integer clamp: below `min` gives `min`, otherwise above `max`
      gives `max`. */
  function Clamp(value: int, min: int, max: int): (r: int)
    ensures min <= max ==> min <= r <= max
    ensures value < min ==> r == min
    ensures min <= value <= max ==> r == value
    ensures min <= max && value > max ==> r == max
    ensures min > max && value >= min ==> r == max
  {
    if value < min then min
    else if value > max then max
    else value
  }

  /** The marker of the player opposite `me`. */
  function OtherPlayer(me: Marker): Marker {
    if me == Marker.Cross then Marker.Nought else Marker.Cross
  }

  /** The marker placed at a node: the searching player's own at a max node,
      the other player's at a min node. */
  function Mover(me: Marker, isMax: bool): Marker {
    if isMax then me else OtherPlayer(me)
  }

  function Max(a: int, b: int): int { if a >= b then a else b }

  function Min(a: int, b: int): int { if a <= b then a else b }

  // ---------------------------------------------------------------------------
  // The value of a position

  /** The minimax score of `s` for the player `me`, `depth` plies below the
      position being scored: a terminal position scores 10 - depth when won,
      depth - 10 when lost and 0 when tied; any other position combines the
      scores of its children, starting from the sentinel -1000 at a max node
      and 1000 at a min node. */
  ghost function MinimaxValue(s: seq<Marker>, me: Marker, depth: nat, isMax: bool): int
    requires |s| == 9 && Occupied(me)
    decreases 9 - OccupiedCount(s), 10
  {
    var state := Process(s, me);
    if state == GameState.Win then 10 - depth
    else if state == GameState.Lose then -10 + depth
    else if state == GameState.Tie then 0
    else Best(s, me, depth, isMax, 0, if isMax then -1000 else 1000)
  }

  /** The running best over the empty cells `i` to 8, as the search loop
      accumulates it in `best`. */
  ghost function Best(s: seq<Marker>, me: Marker, depth: nat, isMax: bool, i: nat, best: int): int
    requires |s| == 9 && Occupied(me) && i <= 9
    decreases 9 - OccupiedCount(s), 9 - i
  {
    if i == 9 then best
    else if s[i] == Marker.None then
      var v := Child(s, me, depth, isMax, i);
      Best(s, me, depth, isMax, i + 1, if isMax then Max(best, v) else Min(best, v))
    else Best(s, me, depth, isMax, i + 1, best)
  }

  /** The score of the child reached by the mover's placement in the empty
      cell `i`. */
  ghost function Child(s: seq<Marker>, me: Marker, depth: nat, isMax: bool, i: nat): int
    requires |s| == 9 && Occupied(me) && i < 9 && s[i] == Marker.None
    decreases 9 - OccupiedCount(s), 0
  {
    PlaceOccupiesOneMore(s, i, Mover(me, isMax));
    MinimaxValue(s[i := Mover(me, isMax)], me, depth + 1, !isMax)
  }

  /** The number of empty cells. */
  function Empties(s: seq<Marker>): int {
    |s| - OccupiedCount(s)
  }

  /** The running best over cells `i` to 8 is at least (at a max node) or
      at most (at a min node) the start value and every child's score, and
      it is the start value or the score of one of those children. */
  lemma {:induction false} BestIsExtreme(s: seq<Marker>, me: Marker, depth: nat, isMax: bool, i: nat, best: int)
    requires |s| == 9 && Occupied(me) && i <= 9
    ensures var r := Best(s, me, depth, isMax, i, best);
      && (isMax ==> r >= best)
      && (!isMax ==> r <= best)
      && (forall j :: i <= j < 9 && s[j] == Marker.None ==>
            if isMax then r >= Child(s, me, depth, isMax, j) else r <= Child(s, me, depth, isMax, j))
      && (r == best || exists j :: i <= j < 9 && s[j] == Marker.None && r == Child(s, me, depth, isMax, j))
    decreases 9 - i
  {
    if i < 9 {
      if s[i] == Marker.None {
        var v := Child(s, me, depth, isMax, i);
        BestIsExtreme(s, me, depth, isMax, i + 1, if isMax then Max(best, v) else Min(best, v));
      } else {
        BestIsExtreme(s, me, depth, isMax, i + 1, best);
      }
    }
  }

  /** Scores are depth-adjusted and never the sentinel: when every line of
      play ends by ply 10, the score lies between depth - 10 and 10 - depth,
      and strictly inside that range for a position still in play. */
  lemma {:induction false} MinimaxBounds(s: seq<Marker>, me: Marker, depth: nat, isMax: bool)
    requires |s| == 9 && Occupied(me)
    requires depth + Empties(s) <= 10
    ensures depth - 10 <= MinimaxValue(s, me, depth, isMax) <= 10 - depth
    ensures Process(s, me) == GameState.None ==>
              depth - 9 <= MinimaxValue(s, me, depth, isMax) <= 9 - depth
    decreases 9 - OccupiedCount(s)
  {
    if Process(s, me) == GameState.None {
      ProcessNoneHasChild(s, me);
      var m := Mover(me, isMax);
      forall j | 0 <= j < 9 && s[j] == Marker.None
        ensures depth - 9 <= Child(s, me, depth, isMax, j) <= 9 - depth
      {
        PlaceOccupiesOneMore(s, j, m);
        MinimaxBounds(s[j := m], me, depth + 1, !isMax);
      }
      BestIsExtreme(s, me, depth, isMax, 0, if isMax then -1000 else 1000);
    }
  }

  /** A position still in play has an empty cell to play. */
  lemma ProcessNoneHasChild(s: seq<Marker>, me: Marker)
    requires |s| == 9
    requires Process(s, me) == GameState.None
    ensures exists j :: 0 <= j < 9 && s[j] == Marker.None
  {
    NotFullHasEmpty(s);
  }

  /** The minimax recurrence: terminal positions score by outcome and depth;
      at any other position some empty cell's child attains the score, which
      is the largest child score at a max node and the smallest at a min
      node. */
  lemma MinimaxRecurrence(s: seq<Marker>, me: Marker, depth: nat, isMax: bool)
    requires |s| == 9 && Occupied(me)
    requires depth + Empties(s) <= 10
    ensures var r := MinimaxValue(s, me, depth, isMax);
      && (Process(s, me) == GameState.Win ==> r == 10 - depth)
      && (Process(s, me) == GameState.Lose ==> r == depth - 10)
      && (Process(s, me) == GameState.Tie ==> r == 0)
      && (Process(s, me) == GameState.None ==>
            && (exists j :: 0 <= j < 9 && s[j] == Marker.None && r == Child(s, me, depth, isMax, j))
            && (forall j :: 0 <= j < 9 && s[j] == Marker.None ==>
                  if isMax then r >= Child(s, me, depth, isMax, j) else r <= Child(s, me, depth, isMax, j)))
  {
    if Process(s, me) == GameState.None {
      InPlayRecurrence(s, me, depth, isMax);
    }
  }

  /** At a position still in play, the score is the best child score and is
      attained by a child; the sentinel never survives, since every child
      scores within the depth-adjusted range. */
  lemma InPlayRecurrence(s: seq<Marker>, me: Marker, depth: nat, isMax: bool)
    requires |s| == 9 && Occupied(me)
    requires depth + Empties(s) <= 10
    requires Process(s, me) == GameState.None
    ensures exists j :: 0 <= j < 9 && s[j] == Marker.None && MinimaxValue(s, me, depth, isMax) == Child(s, me, depth, isMax, j)
    ensures forall j :: 0 <= j < 9 && s[j] == Marker.None ==>
              if isMax then MinimaxValue(s, me, depth, isMax) >= Child(s, me, depth, isMax, j)
              else MinimaxValue(s, me, depth, isMax) <= Child(s, me, depth, isMax, j)
  {
    var start := if isMax then -1000 else 1000;
    var r := MinimaxValue(s, me, depth, isMax);
    assert r == Best(s, me, depth, isMax, 0, start);
    var m := Mover(me, isMax);
    ProcessNoneHasChild(s, me);
    var j0 :| 0 <= j0 < 9 && s[j0] == Marker.None;
    PlaceOccupiesOneMore(s, j0, m);
    MinimaxBounds(s[j0 := m], me, depth + 1, !isMax);
    assert depth - 9 <= Child(s, me, depth, isMax, j0) <= 9 - depth;
    BestIsExtreme(s, me, depth, isMax, 0, start);
    assert r != start;
  }

  // ---------------------------------------------------------------------------
  // The search on the live array

  /** Scores the position in `spaces` by exhaustive search, writing and then
      clearing each empty cell in turn; the array is left as it was found. */
  method Minimax(spaces: array<Marker>, me: Marker, depth: nat, isMax: bool) returns (score: int)
    requires spaces.Length == 9 && Occupied(me)
    modifies spaces
    decreases 9 - OccupiedCount(spaces[..])
    ensures spaces[..] == old(spaces[..])
    ensures score == MinimaxValue(old(spaces[..]), me, depth, isMax)
  {
    var otherPlayer := OtherPlayer(me);
    var gameState := Process(spaces[..], me);
    if gameState == GameState.Win {
      return 10 - depth;
    } else if gameState == GameState.Lose {
      return -10 + depth;
    } else if gameState == GameState.Tie {
      return 0;
    }
    var bestScore := if isMax then -1000 else 1000;
    ghost var s := spaces[..];
    for i := 0 to 9
      invariant spaces[..] == s
      invariant Best(s, me, depth, isMax, i, bestScore) == MinimaxValue(s, me, depth, isMax)
    {
      if spaces[i] == Marker.None {
        spaces[i] := if isMax then me else otherPlayer;
        PlaceOccupiesOneMore(s, i, Mover(me, isMax));
        assert spaces[..] == s[i := Mover(me, isMax)];
        var v := Minimax(spaces, me, depth + 1, !isMax);
        bestScore := if isMax then Max(bestScore, v) else Min(bestScore, v);
        spaces[i] := Marker.None;
        assert spaces[..] == s;
      }
    }
    return bestScore;
  }

  // ---------------------------------------------------------------------------
  // Candidate moves

  /** A move and the score the search gave it. */
  datatype Candidate = Candidate(move: int, score: int)

  /** The score of playing `me` in the empty cell `i`: the opponent moves
      next, and the position after the move is at depth 0. */
  ghost function MoveScore(s: seq<Marker>, me: Marker, i: int): int
    requires |s| == 9 && Occupied(me) && 0 <= i < 9
  {
    MinimaxValue(s[i := me], me, 0, false)
  }

  /** The candidates the scoring loop has collected after cells 0 to `i - 1`:
      one per empty cell, in ascending cell order. */
  ghost function CandidatesUpTo(s: seq<Marker>, me: Marker, i: nat): seq<Candidate>
    requires |s| == 9 && Occupied(me) && i <= 9
  {
    if i == 0 then []
    else CandidatesUpTo(s, me, i - 1)
         + (if s[i - 1] == Marker.None then [Candidate(i - 1, MoveScore(s, me, i - 1))] else [])
  }

  /** Every candidate is an empty cell below `bound` carrying its score. */
  ghost predicate ScoredEmptyCells(s: seq<Marker>, me: Marker, c: seq<Candidate>, bound: nat)
    requires |s| == 9 && Occupied(me) && bound <= 9
  {
    forall k :: 0 <= k < |c| ==>
      0 <= c[k].move < bound && s[c[k].move] == Marker.None && c[k].score == MoveScore(s, me, c[k].move)
  }

  /** The moves strictly ascend. */
  ghost predicate MovesAscend(c: seq<Candidate>) {
    forall k, l :: 0 <= k < l < |c| ==> c[k].move < c[l].move
  }

  /** Every empty cell below `bound` is the move of some candidate. */
  ghost predicate CoversEmptyCells(s: seq<Marker>, c: seq<Candidate>, bound: nat)
    requires |s| == 9 && bound <= 9
  {
    forall j :: 0 <= j < bound && s[j] == Marker.None ==> exists k :: 0 <= k < |c| && c[k].move == j
  }

  /** Every collected candidate is an empty cell already passed, with its score. */
  lemma {:induction false} CandidatesAreScored(s: seq<Marker>, me: Marker, i: nat)
    requires |s| == 9 && Occupied(me) && i <= 9
    ensures ScoredEmptyCells(s, me, CandidatesUpTo(s, me, i), i)
  {
    if i > 0 {
      CandidatesAreScored(s, me, i - 1);
      var c := CandidatesUpTo(s, me, i - 1);
      if s[i - 1] == Marker.None {
        assert CandidatesUpTo(s, me, i) == c + [Candidate(i - 1, MoveScore(s, me, i - 1))];
      } else {
        assert CandidatesUpTo(s, me, i) == c;
      }
    }
  }

  /** The collected moves strictly ascend. */
  lemma {:induction false} CandidatesAscend(s: seq<Marker>, me: Marker, i: nat)
    requires |s| == 9 && Occupied(me) && i <= 9
    ensures MovesAscend(CandidatesUpTo(s, me, i))
  {
    if i > 0 {
      CandidatesAscend(s, me, i - 1);
      var c := CandidatesUpTo(s, me, i - 1);
      if s[i - 1] == Marker.None {
        CandidatesAreScored(s, me, i - 1);
        var c' := c + [Candidate(i - 1, MoveScore(s, me, i - 1))];
        assert CandidatesUpTo(s, me, i) == c';
        forall k, l | 0 <= k < l < |c'| ensures c'[k].move < c'[l].move {
          if l < |c| {
            assert c'[k] == c[k] && c'[l] == c[l];
          } else {
            assert c'[k] == c[k] && c[k].move < i - 1;
          }
        }
      } else {
        assert CandidatesUpTo(s, me, i) == c;
      }
    }
  }

  /** Every empty cell already passed has been collected. */
  lemma {:induction false} CandidatesCover(s: seq<Marker>, me: Marker, i: nat)
    requires |s| == 9 && Occupied(me) && i <= 9
    ensures CoversEmptyCells(s, CandidatesUpTo(s, me, i), i)
  {
    if i > 0 {
      CandidatesCover(s, me, i - 1);
      var c := CandidatesUpTo(s, me, i - 1);
      var c' := CandidatesUpTo(s, me, i);
      assert forall k :: 0 <= k < |c| ==> c'[k] == c[k];
      forall j | 0 <= j < i && s[j] == Marker.None ensures exists k :: 0 <= k < |c'| && c'[k].move == j {
        if j == i - 1 {
          assert c' == c + [Candidate(i - 1, MoveScore(s, me, i - 1))];
          assert c'[|c|].move == j;
        } else {
          var k :| 0 <= k < |c| && c[k].move == j;
          assert c'[k] == c[k];
        }
      }
    }
  }

  /** The list the scoring loop has collected after cells 0 to `i - 1`
      holds exactly the empty cells among them, ascending, each with its
      score. */
  lemma CandidatesAreEmptyCells(s: seq<Marker>, me: Marker, i: nat)
    requires |s| == 9 && Occupied(me) && i <= 9
    ensures ScoredEmptyCells(s, me, CandidatesUpTo(s, me, i), i)
    ensures MovesAscend(CandidatesUpTo(s, me, i))
    ensures CoversEmptyCells(s, CandidatesUpTo(s, me, i), i)
  {
    CandidatesAreScored(s, me, i);
    CandidatesAscend(s, me, i);
    CandidatesCover(s, me, i);
  }

  // ---------------------------------------------------------------------------
  // Sorting by score, descending and stable

  /** Scores never increase along `c`. */
  ghost predicate SortedByScore(c: seq<Candidate>) {
    forall k, l :: 0 <= k < l < |c| ==> c[k].score >= c[l].score
  }

  /** Scores never increase along `c`, and equal scores keep ascending moves. */
  ghost predicate Ranked(c: seq<Candidate>) {
    forall k, l :: 0 <= k < l < |c| ==>
      c[k].score > c[l].score || (c[k].score == c[l].score && c[k].move < c[l].move)
  }

  /** Inserts `c` into `sorted` ahead of every candidate whose score is not
      larger. */
  function Insert(c: Candidate, sorted: seq<Candidate>): (r: seq<Candidate>)
    requires SortedByScore(sorted)
    ensures SortedByScore(r)
    ensures multiset(r) == multiset(sorted) + multiset{c}
    ensures |r| == |sorted| + 1
    ensures forall x :: x in r <==> x == c || x in sorted
    ensures r[0] == c || (sorted != [] && r[0] == sorted[0])
  {
    if sorted == [] || c.score >= sorted[0].score then [c] + sorted
    else
      assert sorted == [sorted[0]] + sorted[1..];
      [sorted[0]] + Insert(c, sorted[1..])
  }

  /** The candidates ordered by descending score, keeping the input order
      among equal scores. */
  function SortByScore(c: seq<Candidate>): (r: seq<Candidate>)
    ensures SortedByScore(r)
    ensures multiset(r) == multiset(c)
    ensures |r| == |c|
    ensures forall x :: x in r <==> x in c
  {
    if c == [] then []
    else
      assert c == [c[0]] + c[1..];
      Insert(c[0], SortByScore(c[1..]))
  }

  /** Inserting a candidate whose move precedes every move already ranked
      keeps the list ranked. */
  lemma {:induction false} InsertKeepsRanked(c: Candidate, sorted: seq<Candidate>)
    requires Ranked(sorted)
    requires forall k :: 0 <= k < |sorted| ==> c.move < sorted[k].move
    ensures Ranked(Insert(c, sorted))
  {
    if sorted != [] && c.score < sorted[0].score {
      var tail := sorted[1..];
      InsertKeepsRanked(c, tail);
      var t := Insert(c, tail);
      var r := [sorted[0]] + t;
      assert Insert(c, sorted) == r;
      forall l | 0 < l < |r|
        ensures r[0].score > r[l].score || (r[0].score == r[l].score && r[0].move < r[l].move)
      {
        var x := r[l];
        assert x == t[l - 1];
        assert x in t;
        if x != c {
          var k :| 0 <= k < |tail| && tail[k] == x;
          assert sorted[k + 1] == x;
        }
      }
      forall k, l | 0 < k < l < |r|
        ensures r[k].score > r[l].score || (r[k].score == r[l].score && r[k].move < r[l].move)
      {
        assert r[k] == t[k - 1] && r[l] == t[l - 1];
      }
    }
  }

  /** When the input moves ascend, the sort breaks ties by ascending move. */
  lemma {:induction false} SortIsStable(c: seq<Candidate>)
    requires forall k, l :: 0 <= k < l < |c| ==> c[k].move < c[l].move
    ensures Ranked(SortByScore(c))
  {
    if c != [] {
      var tail := c[1..];
      SortIsStable(tail);
      var t := SortByScore(tail);
      forall k | 0 <= k < |t| ensures c[0].move < t[k].move {
        assert t[k] in tail;
        var l :| 0 <= l < |tail| && tail[l] == t[k];
        assert c[l + 1] == t[k];
      }
      InsertKeepsRanked(c[0], t);
    }
  }

  // ---------------------------------------------------------------------------
  // Choosing a move

  /** The candidates of the scoring loop, sorted by descending score. */
  ghost function Ranking(s: seq<Marker>, me: Marker): seq<Candidate>
    requires |s| == 9 && Occupied(me)
  {
    SortByScore(CandidatesUpTo(s, me, |s|))
  }

  /** Every entry of a list holding the same candidates as a scored list
      of empty cells is one too. */
  lemma {:induction false} SameMembersScored(s: seq<Marker>, me: Marker, c: seq<Candidate>, r: seq<Candidate>)
    requires |s| == 9 && Occupied(me)
    requires ScoredEmptyCells(s, me, c, 9)
    requires forall x :: x in r <==> x in c
    ensures ScoredEmptyCells(s, me, r, 9)
  {
    forall k | 0 <= k < |r|
      ensures 0 <= r[k].move < 9 && s[r[k].move] == Marker.None && r[k].score == MoveScore(s, me, r[k].move)
    {
      assert r[k] in c;
      var l :| 0 <= l < |c| && c[l] == r[k];
    }
  }

  /** A list holding the same candidates as one covering the empty cells
      covers them too. */
  lemma {:induction false} SameMembersCover(s: seq<Marker>, c: seq<Candidate>, r: seq<Candidate>)
    requires |s| == 9
    requires CoversEmptyCells(s, c, 9)
    requires forall x :: x in r <==> x in c
    ensures CoversEmptyCells(s, r, 9)
  {
    forall j | 0 <= j < 9 && s[j] == Marker.None ensures exists k :: 0 <= k < |r| && r[k].move == j {
      var l :| 0 <= l < |c| && c[l].move == j;
      assert c[l] in r;
      var k :| 0 <= k < |r| && r[k] == c[l];
    }
  }

  /** Every sorted candidate is an empty cell carrying its score. */
  lemma RankingIsScored(s: seq<Marker>, me: Marker)
    requires |s| == 9 && Occupied(me)
    ensures ScoredEmptyCells(s, me, Ranking(s, me), 9)
  {
    CandidatesAreEmptyCells(s, me, |s|);
    SameMembersScored(s, me, CandidatesUpTo(s, me, |s|), Ranking(s, me));
  }

  /** Every empty cell is among the sorted candidates. */
  lemma RankingCovers(s: seq<Marker>, me: Marker)
    requires |s| == 9 && Occupied(me)
    ensures CoversEmptyCells(s, Ranking(s, me), 9)
  {
    CandidatesAreEmptyCells(s, me, |s|);
    SameMembersCover(s, CandidatesUpTo(s, me, |s|), Ranking(s, me));
  }

  /** The best score comes first, and equal scores keep ascending cells. */
  lemma RankingIsRanked(s: seq<Marker>, me: Marker)
    requires |s| == 9 && Occupied(me)
    ensures Ranked(Ranking(s, me))
  {
    CandidatesAreEmptyCells(s, me, |s|);
    SortIsStable(CandidatesUpTo(s, me, |s|));
  }

  /** A board with an empty cell has at least one candidate. */
  lemma RankingNonEmpty(s: seq<Marker>, me: Marker)
    requires |s| == 9 && Occupied(me) && Marker.None in s
    ensures |Ranking(s, me)| > 0
  {
    CandidatesAreEmptyCells(s, me, |s|);
    var j :| 0 <= j < 9 && s[j] == Marker.None;
  }

  /** The sorted candidates are exactly the empty cells, each with its
      score, best score first and equal scores in ascending cell order. */
  lemma RankingIsEmptyCells(s: seq<Marker>, me: Marker)
    requires |s| == 9 && Occupied(me) && Marker.None in s
    ensures ScoredEmptyCells(s, me, Ranking(s, me), 9)
    ensures CoversEmptyCells(s, Ranking(s, me), 9)
    ensures Ranked(Ranking(s, me))
    ensures |Ranking(s, me)| > 0
  {
    RankingIsScored(s, me);
    RankingCovers(s, me);
    RankingIsRanked(s, me);
    RankingNonEmpty(s, me);
  }

  /** The position in the ranking that difficulty `d` plays among `n`
      candidates. */
  function Position(d: Difficulty, n: nat): (k: int)
    requires n > 0
    ensures 0 <= k < n
    ensures k == if Rank(d) < n then Rank(d) else n - 1
  {
    Clamp(Rank(d), 0, n - 1)
  }

  /** The move the automated player makes: the centre when it is empty,
      otherwise the candidate at position Clamp(rank, 0, n - 1) of the
      ranking. It is always an empty cell. */
  ghost function ChooseMove(s: seq<Marker>, me: Marker, d: Difficulty): (move: int)
    requires |s| == 9 && Occupied(me) && Marker.None in s
    ensures 0 <= move < 9 && s[move] == Marker.None
    ensures s[4] == Marker.None ==> move == 4
  {
    if s[4] == Marker.None then 4
    else
      RankingIsEmptyCells(s, me);
      Ranking(s, me)[Position(d, |Ranking(s, me)|)].move
  }

  /** The score the chosen move was given. */
  ghost function ChosenScore(s: seq<Marker>, me: Marker, d: Difficulty): int
    requires |s| == 9 && Occupied(me) && Marker.None in s
  {
    MoveScore(s, me, ChooseMove(s, me, d))
  }

  /** With the centre taken, Impossible plays a move that no other empty
      cell outscores. */
  lemma ImpossiblePlaysBest(s: seq<Marker>, me: Marker)
    requires |s| == 9 && Occupied(me) && s[4] != Marker.None && Marker.None in s
    ensures forall j :: 0 <= j < 9 && s[j] == Marker.None ==>
              MoveScore(s, me, j) <= ChosenScore(s, me, Impossible)
  {
    RankingIsEmptyCells(s, me);
    var r := Ranking(s, me);
    assert ChooseMove(s, me, Impossible) == r[0].move;
    forall j | 0 <= j < 9 && s[j] == Marker.None ensures MoveScore(s, me, j) <= r[0].score {
      var k :| 0 <= k < |r| && r[k].move == j;
      assert r[0].score >= r[k].score;
    }
  }

  /** A difficulty of lower rank never plays a move of lower score. */
  lemma HarderPlaysNoWorse(s: seq<Marker>, me: Marker, d1: Difficulty, d2: Difficulty)
    requires |s| == 9 && Occupied(me) && Marker.None in s
    requires Rank(d1) <= Rank(d2)
    ensures ChosenScore(s, me, d1) >= ChosenScore(s, me, d2)
  {
    if s[4] != Marker.None {
      RankingIsEmptyCells(s, me);
      var r := Ranking(s, me);
      var k1, k2 := Position(d1, |r|), Position(d2, |r|);
      assert k1 <= k2;
      assert ChooseMove(s, me, d1) == r[k1].move && ChooseMove(s, me, d2) == r[k2].move;
      if k1 < k2 {
        assert r[k1].score >= r[k2].score;
      }
    }
  }

  /** With the centre taken, if some empty cell completes a line for `me`,
      Impossible plays a move that wins at once: an immediate win scores 10,
      and nothing else does. */
  lemma ImpossibleTakesImmediateWin(s: seq<Marker>, me: Marker, j: int)
    requires |s| == 9 && Occupied(me) && s[4] != Marker.None
    requires 0 <= j < 9 && s[j] == Marker.None && Process(s[j := me], me) == GameState.Win
    ensures Process(s[ChooseMove(s, me, Impossible) := me], me) == GameState.Win
  {
    ImpossiblePlaysBest(s, me);
    var m := ChooseMove(s, me, Impossible);
    assert MoveScore(s, me, m) >= MoveScore(s, me, j) == 10;
    PlaceOccupiesOneMore(s, m, me);
    MinimaxBounds(s[m := me], me, 0, false);
  }

  /** Two crosses on the top row and a nought in the centre: Impossible,
      playing crosses, completes the row at cell 2. */
  lemma CompletesTopRow(s: seq<Marker>)
    requires s == [Marker.Cross, Marker.Cross, Marker.None,
                   Marker.None, Marker.Nought, Marker.None,
                   Marker.None, Marker.None, Marker.None]
    ensures ChooseMove(s, Marker.Cross, Impossible) == 2
  {
    assert Process(s[2 := Marker.Cross], Marker.Cross) == GameState.Win;
    ImpossibleTakesImmediateWin(s, Marker.Cross, 2);
  }

  // ---------------------------------------------------------------------------
  // The move on the live board

  /** Chooses the automated player's move on the live array: plays the
      centre when it is empty, otherwise scores each empty cell by writing
      `me` into it, searching and clearing it again, then ranks the
      candidates. The array is left as it was found. */
  method SelectMove(spaces: array<Marker>, me: Marker, difficulty: Difficulty) returns (move: int)
    requires spaces.Length == 9 && Occupied(me) && Marker.None in spaces[..]
    modifies spaces
    ensures spaces[..] == old(spaces[..])
    ensures move == ChooseMove(old(spaces[..]), me, difficulty)
  {
    if spaces[4] == Marker.None {
      return 4;
    }
    ghost var s := spaces[..];
    var possibleMoves: seq<Candidate> := [];
    for i := 0 to 9
      invariant spaces[..] == s
      invariant possibleMoves == CandidatesUpTo(s, me, i)
    {
      if spaces[i] == Marker.None {
        spaces[i] := me;
        var moveValue := Minimax(spaces, me, 0, false);
        spaces[i] := Marker.None;
        assert spaces[..] == s;
        possibleMoves := possibleMoves + [Candidate(i, moveValue)];
      }
    }
    var sortedMoves := SortByScore(possibleMoves);
    RankingIsEmptyCells(s, me);
    var moveIndex := Position(difficulty, |sortedMoves|);
    move := sortedMoves[moveIndex].move;
  }

  /** The automated player's turn: unless the game is over, choose a move
      on the board's own array and place `me` there. */
  method AutoMove(board: Board, me: Marker, difficulty: Difficulty, gameOver: bool)
    requires board.Valid() && Occupied(me)
    requires !gameOver ==> Marker.None in board.spaces[..]
    modifies board.spaces
    ensures gameOver ==> board.spaces[..] == old(board.spaces[..])
    ensures !gameOver ==>
      var move := ChooseMove(old(board.spaces[..]), me, difficulty);
      board.spaces[..] == old(board.spaces[..])[move := me]
  {
    if gameOver {
      return;
    }
    var move := SelectMove(board.spaces, me, difficulty);
    var placed := board.PlaceMarker(move, gameOver, me);
  }
}
