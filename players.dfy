/**
 * The `TicTacToe` game object and the players built on the searches:
 * `random_player` and the iterative-deepening drivers `alpha_beta_player`
 * and `minmax_player`, which drive the game's cutoff depth `d`.
 *
 * The wall clock only decides how many times the deepening loop starts
 * another round before the deadline; that number is the parameter `rounds`.
 */
module Players {
  import opened ExtInt
  import opened GameStates
  import opened Rules
  import opened ExactSearch
  import opened CutoffSearch

  /** `random_player`: some legal move, or `None` when there are no actions. */
  method RandomPlayer(s: State) returns (m: Option<Pos>)
    ensures m.None? <==> |s.moves| == 0
    ensures m.Some? ==> m.value in s.moves
  {
    if |s.moves| == 0 {
      return None;
    }
    var i :| 0 <= i < |s.moves|;
    m := Some(s.moves[i]);
  }

  /** The initial state of a `size` by `size` game: X to move on an empty board. */
  function InitialState(size: int): State {
    State(X, None, 0, map[], GridList(size, size))
  }

  /** The initial state lists every square of the board, each once, all of them empty. */
  lemma InitialPartition(size: int)
    ensures Partition(InitialState(size), size, size)
  {
    GridListPartition(size, size);
  }

  /**
   * The number of cutoff searches `alpha_beta_player` runs when the clock
   * allows `rounds` rounds and `d` starts at `d0`: one per round, as long as
   * the incremented depth stays below `maxDepth`.
   */
  function Searches(d0: int, rounds: nat, maxDepth: int): (n: nat)
    ensures n <= rounds
    ensures n > 0 ==> d0 + n < maxDepth
    ensures n < rounds ==> d0 + n + 1 >= maxDepth
  {
    if maxDepth - 1 - d0 <= 0 then 0
    else if rounds <= maxDepth - 1 - d0 then rounds
    else maxDepth - 1 - d0
  }

  class TicTacToe {
    const size: int
    const k: int
    const maxDepth: int
    const timer: int
    var d: int
    var initial: State

    /** `__init__`: a `k` of 0 or less means a run of the full board width. */
    constructor (size: int, k: int, t: int)
      ensures this.size == size && this.k == (if k <= 0 then size else k)
      ensures maxDepth == size * size && timer == t && d == -1
      ensures initial == InitialState(size)
    {
      this.size := size;
      this.k := if k <= 0 then size else k;
      d := -1;
      maxDepth := size * size;
      timer := t;
      initial := State(X, None, 0, map[], GridList(size, size));
    }

    /** `reset`: a fresh initial state; the cutoff depth is left as it is. */
    method Reset()
      modifies this
      ensures initial == InitialState(size) && d == old(d)
    {
      initial := State(X, None, 0, map[], GridList(size, size));
    }

    /**
     * `alpha_beta_player`. Without a timer it searches exactly and leaves
     * `d == -1`. Early in the game (more than `k*k - k - 1` empty squares) it
     * plays a random legal move and leaves `d` alone. Otherwise each round
     * increments `d`, stops once `d` reaches `maxDepth`, and searches to depth
     * `d`; the move of the last search is returned and `d` is reset to 0.
     */
    method AlphaBetaPlayer(s: State, rounds: nat) returns (move: Option<Pos>)
      modifies this
      ensures timer < 0 ==> d == -1 && move == Minmax(k, s)
      ensures timer >= 0 && |s.moves| > k * k - k - 1 ==>
        d == old(d) && (move.None? <==> |s.moves| == 0) && (move.Some? ==> move.value in s.moves)
      ensures timer >= 0 && |s.moves| <= k * k - k - 1 ==>
        var n := Searches(old(d), rounds, maxDepth);
        && d == 0
        && move == (if n == 0 then None else ABCutRoot(k, s, old(d) + n, 0, NegInf, None))
        && (n > 0 ==> old(d) + n < maxDepth)
        && (move.Some? ==> move.value in s.moves)
        && (k != 0 && |s.moves| > 0 && n > 0 ==> move.Some?)
      ensures initial == old(initial)
    {
      if timer < 0 {
        d := -1;
        move := AlphaBeta(k, s);
        return;
      }
      if |s.moves| > k * k - k - 1 {
        move := RandomPlayer(s);
        return;
      }
      ghost var d0 := d;
      move := None;
      var r := 0;
      while r < rounds
        invariant 0 <= r <= rounds && d == d0 + r
        invariant r > 0 ==> d0 + r < maxDepth
        invariant move == (if r == 0 then None else ABCutRoot(k, s, d0 + r, 0, NegInf, None))
        invariant move.Some? ==> move.value in s.moves
        invariant k != 0 && |s.moves| > 0 && r > 0 ==> move.Some?
        invariant initial == old(initial)
      {
        d := d + 1;
        if d >= maxDepth {
          break;
        }
        move := AlphaBetaCutoff(k, s, d);
        r := r + 1;
      }
      assert r == Searches(d0, rounds, maxDepth);
      d := 0;
    }

    /**
     * `minmax_player`: like `alpha_beta_player` but with `minmax` and
     * `minmax_cutoff` and without the `maxDepth` bound. As the cutoff depth
     * does not change `minmax_cutoff`'s choice, every round returns the same
     * move.
     */
    method MinmaxPlayer(s: State, rounds: nat) returns (move: Option<Pos>)
      modifies this
      ensures timer < 0 ==> d == -1 && move == Minmax(k, s)
      ensures timer >= 0 && |s.moves| > k * k - k - 1 ==>
        d == old(d) && (move.None? <==> |s.moves| == 0) && (move.Some? ==> move.value in s.moves)
      ensures timer >= 0 && |s.moves| <= k * k - k - 1 ==>
        && d == 0
        && (rounds == 0 ==> move == None)
        && (rounds > 0 ==> forall cut :: move == MinmaxCutoff(k, s, cut))
      ensures initial == old(initial)
    {
      if timer < 0 {
        d := -1;
        move := Minmax(k, s);
        return;
      }
      if |s.moves| > k * k - k - 1 {
        move := RandomPlayer(s);
        return;
      }
      move := None;
      var r := 0;
      while r < rounds
        invariant 0 <= r <= rounds
        invariant r == 0 ==> move == None
        invariant r > 0 ==> move == MinmaxCutoff(k, s, d)
        invariant initial == old(initial)
      {
        d := d + 1;
        move := MinmaxCutoff(k, s, d);
        r := r + 1;
      }
      forall cut ensures rounds > 0 ==> move == MinmaxCutoff(k, s, cut) {
        MinmaxCutoffIgnoresDepth(k, s, d, cut);
      }
      d := 0;
    }
  }
}
