/**
 * The depth-bounded searches `minmax_cutoff` and `alpha_beta_cutoff`. The
 * cutoff depth is the game's scratch field `d`, read here as the
 * parameter `cut`.
 */
module CutoffSearch {
  import opened ExtInt
  import opened GameStates
  import opened Rules
  import opened Heuristic
  import opened ExactSearch

  // ---------------------------------------------------------------------
  // minmax_cutoff

  /**
   * `max_value(state, d)` of `minmax_cutoff`: its cutoff test is
   * `depth > game.d or game.terminal_test(state)` and its evaluator is
   * `game.utility(state, player)`.
   */
  function MaxCut(k: int, player: Player, cut: int, s: State, d: int): Ext
    decreases |s.moves|, 1
  {
    if d > cut || TerminalTest(s) then Fin(Utility(s, player)) else MaxCutLoop(k, player, cut, s, d, 0, NegInf)
  }

  function MaxCutLoop(k: int, player: Player, cut: int, s: State, d: int, i: nat, v: Ext): Ext
    requires i <= |s.moves|
    decreases |s.moves|, 0, |s.moves| - i
  {
    if i == |s.moves| then v
    else MaxCutLoop(k, player, cut, s, d, i + 1, Max(v, MinCut(k, player, cut, Child(k, s, i), d + 1)))
  }

  function MinCut(k: int, player: Player, cut: int, s: State, d: int): Ext
    decreases |s.moves|, 1
  {
    if d > cut || TerminalTest(s) then Fin(Utility(s, player)) else MinCutLoop(k, player, cut, s, d, 0, PosInf)
  }

  function MinCutLoop(k: int, player: Player, cut: int, s: State, d: int, i: nat, v: Ext): Ext
    requires i <= |s.moves|
    decreases |s.moves|, 0, |s.moves| - i
  {
    if i == |s.moves| then v
    else MinCutLoop(k, player, cut, s, d, i + 1, Min(v, MaxCut(k, player, cut, Child(k, s, i), d + 1)))
  }

  /** The two-ply value of a state: its utility if terminal, else the least utility of its children. */
  function TwoPly(k: int, player: Player, s: State): Ext {
    if TerminalTest(s) then Fin(Utility(s, player)) else UtilityMinLoop(k, player, s, 0, PosInf)
  }

  function UtilityMinLoop(k: int, player: Player, s: State, i: nat, v: Ext): Ext
    requires i <= |s.moves|
    decreases |s.moves| - i
  {
    if i == |s.moves| then v
    else UtilityMinLoop(k, player, s, i + 1, Min(v, Fin(Utility(Child(k, s, i), player))))
  }

  lemma {:induction false} MinCutLoopTwoPly(k: int, player: Player, cut: int, s: State, i: nat, v: Ext)
    requires i <= |s.moves|
    ensures MinCutLoop(k, player, cut, s, cut, i, v) == UtilityMinLoop(k, player, s, i, v)
    decreases |s.moves| - i
  {
    if i < |s.moves| {
      MinCutLoopTwoPly(k, player, cut, s, i + 1, Min(v, Fin(Utility(Child(k, s, i), player))));
    }
  }

  /**
   * Started at depth `game.d` and cut off beyond it, `min_value` expands one
   * level only: whatever `d` is, the root's children get their two-ply value.
   */
  lemma MinCutIsTwoPly(k: int, player: Player, cut: int, s: State)
    ensures MinCut(k, player, cut, s, cut) == TwoPly(k, player, s)
  {
    if !TerminalTest(s) {
      MinCutLoopTwoPly(k, player, cut, s, 0, PosInf);
    }
  }

  /** The values `min_value(game.result(state, a), game.d)` of the actions, in order. */
  function CutChildValues(k: int, s: State, cut: int): (vs: seq<Ext>)
    ensures |vs| == |s.moves|
    ensures forall i :: 0 <= i < |s.moves| ==> vs[i] == TwoPly(k, s.toMove, Child(k, s, i))
  {
    var vs := seq(|s.moves|, i requires 0 <= i < |s.moves| => MinCut(k, s.toMove, cut, Child(k, s, i), cut));
    assert forall i :: 0 <= i < |s.moves| ==> vs[i] == TwoPly(k, s.toMove, Child(k, s, i)) by {
      forall i | 0 <= i < |s.moves| ensures vs[i] == TwoPly(k, s.toMove, Child(k, s, i)) {
        MinCutIsTwoPly(k, s.toMove, cut, Child(k, s, i));
      }
    }
    vs
  }

  /**
   * `minmax_cutoff`: `None` when there are no actions, otherwise the first
   * action of maximal two-ply value, whatever the cutoff depth.
   */
  function MinmaxCutoff(k: int, s: State, cut: int): (r: Option<Pos>)
    ensures r.None? <==> |s.moves| == 0
    ensures r.Some? ==>
      exists i :: 0 <= i < |s.moves| && r.value == s.moves[i]
        && IsFirstBest(seq(|s.moves|, j requires 0 <= j < |s.moves| => TwoPly(k, s.toMove, Child(k, s, j))), i)
  {
    var vs := CutChildValues(k, s, cut);
    assert vs == seq(|s.moves|, j requires 0 <= j < |s.moves| => TwoPly(k, s.toMove, Child(k, s, j)));
    if |s.moves| == 0 then None else Some(s.moves[FirstArgMax(vs)])
  }

  /** The cutoff depth has no effect on `minmax_cutoff`'s choice. */
  lemma MinmaxCutoffIgnoresDepth(k: int, s: State, cut1: int, cut2: int)
    ensures MinmaxCutoff(k, s, cut1) == MinmaxCutoff(k, s, cut2)
  {
    assert CutChildValues(k, s, cut1) == CutChildValues(k, s, cut2);
  }

  // ---------------------------------------------------------------------
  // alpha_beta_cutoff

  /**
   * `max_value(state, alpha, beta, depth)` of `alpha_beta_cutoff`: the
   * terminal test comes first, then `depth == 0` scores the state with `eval1`.
   */
  function MaxABC(k: int, player: Player, s: State, alpha: Ext, beta: Ext, depth: int): Ext
    decreases |s.moves|, 1
  {
    if TerminalTest(s) then Fin(Utility(s, player))
    else if depth == 0 then Evaluation(k, s)
    else MaxABCLoop(k, player, s, 0, NegInf, alpha, beta, depth)
  }

  function MaxABCLoop(k: int, player: Player, s: State, i: nat, v: Ext, alpha: Ext, beta: Ext, depth: int): Ext
    requires i <= |s.moves|
    decreases |s.moves|, 0, |s.moves| - i
  {
    if i == |s.moves| then v
    else
      var v' := Max(v, MinABC(k, player, Child(k, s, i), alpha, beta, depth - 1));
      if Le(beta, v') then v' else MaxABCLoop(k, player, s, i + 1, v', Max(alpha, v'), beta, depth)
  }

  function MinABC(k: int, player: Player, s: State, alpha: Ext, beta: Ext, depth: int): Ext
    decreases |s.moves|, 1
  {
    if TerminalTest(s) then Fin(Utility(s, player))
    else if depth == 0 then Evaluation(k, s)
    else MinABCLoop(k, player, s, 0, PosInf, alpha, beta, depth)
  }

  function MinABCLoop(k: int, player: Player, s: State, i: nat, v: Ext, alpha: Ext, beta: Ext, depth: int): Ext
    requires i <= |s.moves|
    decreases |s.moves|, 0, |s.moves| - i
  {
    if i == |s.moves| then v
    else
      var v' := Min(v, MaxABC(k, player, Child(k, s, i), alpha, beta, depth - 1));
      if Le(v', alpha) then v' else MinABCLoop(k, player, s, i + 1, v', alpha, Min(beta, v'), depth)
  }

  /** With a negative depth the countdown never reaches 0: the search is the full alpha-beta. */
  lemma {:induction false} MaxABCExact(k: int, player: Player, s: State, alpha: Ext, beta: Ext, depth: int)
    requires depth < 0
    ensures MaxABC(k, player, s, alpha, beta, depth) == MaxAB(k, player, s, alpha, beta)
    decreases |s.moves|, 1
  {
    if !TerminalTest(s) {
      MaxABCLoopExact(k, player, s, 0, NegInf, alpha, beta, depth);
    }
  }

  lemma {:induction false} MaxABCLoopExact(k: int, player: Player, s: State, i: nat, v: Ext, alpha: Ext, beta: Ext, depth: int)
    requires depth < 0 && i <= |s.moves|
    ensures MaxABCLoop(k, player, s, i, v, alpha, beta, depth) == MaxABLoop(k, player, s, i, v, alpha, beta)
    decreases |s.moves|, 0, |s.moves| - i
  {
    if i < |s.moves| {
      MaxABCLoopStep(k, player, s, i, v, alpha, beta, depth);
      var v' := Max(v, MinAB(k, player, Child(k, s, i), alpha, beta));
      if !Le(beta, v') {
        MaxABCLoopExact(k, player, s, i + 1, v', Max(alpha, v'), beta, depth);
      }
    }
  }

  /** One iteration of both loops, with the child searched exactly. */
  lemma MaxABCLoopStep(k: int, player: Player, s: State, i: nat, v: Ext, alpha: Ext, beta: Ext, depth: int)
    requires depth < 0 && i < |s.moves|
    ensures var v' := Max(v, MinAB(k, player, Child(k, s, i), alpha, beta));
      && MaxABCLoop(k, player, s, i, v, alpha, beta, depth)
         == (if Le(beta, v') then v' else MaxABCLoop(k, player, s, i + 1, v', Max(alpha, v'), beta, depth))
      && MaxABLoop(k, player, s, i, v, alpha, beta)
         == (if Le(beta, v') then v' else MaxABLoop(k, player, s, i + 1, v', Max(alpha, v'), beta))
    decreases |s.moves|, 0, |s.moves| - i, 0
  {
    MinABCExact(k, player, Child(k, s, i), alpha, beta, depth - 1);
  }

  lemma {:induction false} MinABCExact(k: int, player: Player, s: State, alpha: Ext, beta: Ext, depth: int)
    requires depth < 0
    ensures MinABC(k, player, s, alpha, beta, depth) == MinAB(k, player, s, alpha, beta)
    decreases |s.moves|, 1
  {
    if !TerminalTest(s) {
      MinABCLoopExact(k, player, s, 0, PosInf, alpha, beta, depth);
    }
  }

  lemma {:induction false} MinABCLoopExact(k: int, player: Player, s: State, i: nat, v: Ext, alpha: Ext, beta: Ext, depth: int)
    requires depth < 0 && i <= |s.moves|
    ensures MinABCLoop(k, player, s, i, v, alpha, beta, depth) == MinABLoop(k, player, s, i, v, alpha, beta)
    decreases |s.moves|, 0, |s.moves| - i
  {
    if i < |s.moves| {
      MinABCLoopStep(k, player, s, i, v, alpha, beta, depth);
      var v' := Min(v, MaxAB(k, player, Child(k, s, i), alpha, beta));
      if !Le(v', alpha) {
        MinABCLoopExact(k, player, s, i + 1, v', alpha, Min(beta, v'), depth);
      }
    }
  }

  /** One iteration of both loops, with the child searched exactly. */
  lemma MinABCLoopStep(k: int, player: Player, s: State, i: nat, v: Ext, alpha: Ext, beta: Ext, depth: int)
    requires depth < 0 && i < |s.moves|
    ensures var v' := Min(v, MaxAB(k, player, Child(k, s, i), alpha, beta));
      && MinABCLoop(k, player, s, i, v, alpha, beta, depth)
         == (if Le(v', alpha) then v' else MinABCLoop(k, player, s, i + 1, v', alpha, Min(beta, v'), depth))
      && MinABLoop(k, player, s, i, v, alpha, beta)
         == (if Le(v', alpha) then v' else MinABLoop(k, player, s, i + 1, v', alpha, Min(beta, v')))
    decreases |s.moves|, 0, |s.moves| - i, 0
  {
    MaxABCExact(k, player, Child(k, s, i), alpha, beta, depth - 1);
  }

  /**
   * For `k != 0`, `eval1` is never infinite where the cutoff search calls it
   * (on non-terminal states, whose utility is 0), so every value is finite.
   */
  lemma {:induction false} MaxABCFin(k: int, player: Player, s: State, alpha: Ext, beta: Ext, depth: int)
    requires k != 0
    ensures MaxABC(k, player, s, alpha, beta, depth).Fin?
    decreases |s.moves|, 1
  {
    if !TerminalTest(s) && depth != 0 {
      MaxABCLoopFin(k, player, s, 0, NegInf, alpha, beta, depth);
    }
  }

  lemma {:induction false} MaxABCLoopFin(k: int, player: Player, s: State, i: nat, v: Ext, alpha: Ext, beta: Ext, depth: int)
    requires k != 0 && i <= |s.moves| && !v.PosInf? && (v.Fin? || i < |s.moves|)
    ensures MaxABCLoop(k, player, s, i, v, alpha, beta, depth).Fin?
    decreases |s.moves|, 0, |s.moves| - i
  {
    if i < |s.moves| {
      MinABCFin(k, player, Child(k, s, i), alpha, beta, depth - 1);
      var v' := Max(v, MinABC(k, player, Child(k, s, i), alpha, beta, depth - 1));
      if !Le(beta, v') {
        MaxABCLoopFin(k, player, s, i + 1, v', Max(alpha, v'), beta, depth);
      }
    }
  }

  lemma {:induction false} MinABCFin(k: int, player: Player, s: State, alpha: Ext, beta: Ext, depth: int)
    requires k != 0
    ensures MinABC(k, player, s, alpha, beta, depth).Fin?
    decreases |s.moves|, 1
  {
    if !TerminalTest(s) && depth != 0 {
      MinABCLoopFin(k, player, s, 0, PosInf, alpha, beta, depth);
    }
  }

  lemma {:induction false} MinABCLoopFin(k: int, player: Player, s: State, i: nat, v: Ext, alpha: Ext, beta: Ext, depth: int)
    requires k != 0 && i <= |s.moves| && !v.NegInf? && (v.Fin? || i < |s.moves|)
    ensures MinABCLoop(k, player, s, i, v, alpha, beta, depth).Fin?
    decreases |s.moves|, 0, |s.moves| - i
  {
    if i < |s.moves| {
      MaxABCFin(k, player, Child(k, s, i), alpha, beta, depth - 1);
      var v' := Min(v, MaxABC(k, player, Child(k, s, i), alpha, beta, depth - 1));
      if !Le(v', alpha) {
        MinABCLoopFin(k, player, s, i + 1, v', alpha, Min(beta, v'), depth);
      }
    }
  }

  /** The root loop of `alpha_beta_cutoff`, from action `i` on. */
  function ABCutRoot(k: int, s: State, cut: int, i: nat, alpha: Ext, best: Option<Pos>): Option<Pos>
    requires i <= |s.moves|
    decreases |s.moves| - i
  {
    if i == |s.moves| then best
    else
      var value := MinABC(k, s.toMove, Child(k, s, i), alpha, PosInf, cut);
      if Lt(alpha, value) then ABCutRoot(k, s, cut, i + 1, value, Some(s.moves[i]))
      else ABCutRoot(k, s, cut, i + 1, alpha, best)
  }

  lemma {:induction false} ABCutRootExact(k: int, s: State, cut: int, i: nat, alpha: Ext, best: Option<Pos>)
    requires cut < 0 && i <= |s.moves|
    ensures ABCutRoot(k, s, cut, i, alpha, best) == ABRoot(k, s, i, alpha, best)
    decreases |s.moves| - i
  {
    if i < |s.moves| {
      var c := Child(k, s, i);
      MinABCExact(k, s.toMove, c, alpha, PosInf, cut);
      var value := MinAB(k, s.toMove, c, alpha, PosInf);
      if Lt(alpha, value) {
        ABCutRootExact(k, s, cut, i + 1, value, Some(s.moves[i]));
      } else {
        ABCutRootExact(k, s, cut, i + 1, alpha, best);
      }
    }
  }

  /**
   * `alpha_beta_cutoff`, searching `game.d` plies below the root's children.
   * It returns one of the actions, and one whenever there is any (for
   * `k != 0`); with a negative depth it returns exactly `minmax`'s choice.
   */
  method AlphaBetaCutoff(k: int, s: State, cut: int) returns (best: Option<Pos>)
    ensures best == ABCutRoot(k, s, cut, 0, NegInf, None)
    ensures best.Some? ==> best.value in s.moves
    ensures k != 0 && |s.moves| > 0 ==> best.Some?
    ensures cut < 0 ==> best == Minmax(k, s)
  {
    var alpha, beta := NegInf, PosInf;
    best := None;
    var i := 0;
    while i < |s.moves|
      invariant 0 <= i <= |s.moves|
      invariant ABCutRoot(k, s, cut, i, alpha, best) == ABCutRoot(k, s, cut, 0, NegInf, None)
      invariant best.Some? ==> best.value in s.moves
      invariant k != 0 && i > 0 ==> best.Some?
      invariant i == 0 ==> alpha == NegInf && best == None
    {
      var value := MinABC(k, s.toMove, Child(k, s, i), alpha, beta, cut);
      if k != 0 && i == 0 {
        MinABCFin(k, s.toMove, Child(k, s, i), alpha, beta, cut);
      }
      if Lt(alpha, value) {
        alpha := value;
        best := Some(s.moves[i]);
      }
      i := i + 1;
    }
    if cut < 0 {
      ABCutRootExact(k, s, cut, 0, NegInf, None);
      ABRootIsMinmax(k, s);
    }
  }
}
