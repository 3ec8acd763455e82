/**
 * The heuristic evaluator `eval1`, used by the depth-bounded alpha-beta
 * search at its cutoff depth.
 */
module Heuristic {
  import opened ExtInt
  import opened GameStates
  import opened Rules

  function Count(b: bool): nat {
    if b then 1 else 0
  }

  /**
   * `possiblekComplete`: in how many of the four directions a line through
   * `move` holds `k` of `player`'s cells (the booleans are summed as 0/1).
   */
  function PossibleKComplete(move: Pos, board: map<Pos, Player>, player: Player, k: int): (c: int)
    ensures 0 <= c <= 4
    ensures c == 0 <==> !AnyLine(board, move, player, k)
  {
    Count(KInRow(board, move, player, (0, 1), k))
    + Count(KInRow(board, move, player, (1, 0), k))
    + Count(KInRow(board, move, player, (1, -1), k))
    + Count(KInRow(board, move, player, (1, 1), k))
  }

  /** A double match (more than one direction) weighs five times its count. */
  function Weight(c: int): (w: int)
    requires 0 <= c <= 4
    ensures 0 <= w <= 20
    ensures c <= 1 ==> w == c
    ensures c > 1 ==> w == 5 * c
  {
    if c > 1 then c * 5 else c
  }

  /**
   * `potentialScore`: put `player` on `move` and add the weighted number of
   * lines of length `k - 1` and of length `k` through it.
   */
  function PotentialScore(k: int, s: State, move: Pos, player: Player): (r: int)
    ensures 0 <= r <= 40
  {
    var temp := s.board[move := player];
    Weight(PossibleKComplete(move, temp, player, k - 1)) + Weight(PossibleKComplete(move, temp, player, k))
  }

  /** What one listed empty square adds to the score: the mover's potential minus the opponent's. */
  function MoveScore(k: int, s: State, move: Pos): (r: int)
    ensures -40 <= r <= 40
  {
    if move !in s.board then PotentialScore(k, s, move, s.toMove) - PotentialScore(k, s, move, Switch(s.toMove))
    else 0
  }

  /** The score accumulated over the squares `ms`, in order. */
  function ScoreOf(k: int, s: State, ms: seq<Pos>): int {
    if ms == [] then 0 else ScoreOf(k, s, ms[..|ms| - 1]) + MoveScore(k, s, ms[|ms| - 1])
  }

  /** Every square adds at most 40 in absolute value. */
  lemma {:induction false} ScoreOfBound(k: int, s: State, ms: seq<Pos>)
    ensures -40 * |ms| <= ScoreOf(k, s, ms) <= 40 * |ms|
  {
    if ms != [] {
      ScoreOfBound(k, s, ms[..|ms| - 1]);
    }
  }

  /**
   * `eval1`, branch by branch in the source's order: 0 when at most `k / 2`
   * squares are empty (checked before the win test), plus or minus infinity
   * when the cached utility is `k` or `-k` (sign by the mover), and otherwise
   * the accumulated score, at most 40 per empty square in absolute value.
   */
  function Evaluation(k: int, s: State): (r: Ext)
    ensures 2 * |s.moves| <= k ==> r == Fin(0)
    ensures k > 0 && 2 * |s.moves| > k ==>
      (r == PosInf <==> (s.utility == k && s.toMove == X) || (s.utility == -k && s.toMove == O))
    ensures k > 0 && 2 * |s.moves| > k ==>
      (r == NegInf <==> (s.utility == k && s.toMove == O) || (s.utility == -k && s.toMove == X))
    ensures r.Fin? ==> -40 * |s.moves| <= r.n <= 40 * |s.moves|
  {
    assert s.toMove == X || s.toMove == O;
    if 2 * |s.moves| <= k then Fin(0)
    else if s.utility == k then (if s.toMove == X then PosInf else NegInf)
    else if s.utility == -k then (if s.toMove == X then NegInf else PosInf)
    else
      ScoreOfBound(k, s, s.moves);
      Fin(ScoreOf(k, s, s.moves))
  }

  /** The loop of `eval1` that accumulates `score` over `state.moves`. */
  method Eval1(k: int, s: State) returns (r: Ext)
    ensures r == Evaluation(k, s)
  {
    if 2 * |s.moves| <= k {
      return Fin(0);
    }
    var opponent := if s.toMove == X then O else X;
    if s.utility == k {
      return if s.toMove == X then PosInf else NegInf;
    } else if s.utility == -k {
      return if s.toMove == X then NegInf else PosInf;
    }
    var score := 0;
    var i := 0;
    while i < |s.moves|
      invariant 0 <= i <= |s.moves|
      invariant score == ScoreOf(k, s, s.moves[..i])
    {
      var move := s.moves[i];
      ghost var before := score;
      if move !in s.board {
        var playerScore := PotentialScore(k, s, move, s.toMove);
        var opponentScore := PotentialScore(k, s, move, opponent);
        score := score + playerScore - opponentScore;
      }
      assert score == before + MoveScore(k, s, move);
      assert s.moves[..i + 1][..i] == s.moves[..i];
      assert ScoreOf(k, s, s.moves[..i + 1]) == ScoreOf(k, s, s.moves[..i]) + MoveScore(k, s, move);
      i := i + 1;
    }
    assert s.moves[..i] == s.moves;
    r := Fin(score);
  }
}
