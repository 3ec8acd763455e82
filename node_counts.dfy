/**
 * How many states the full-depth searches visit. A visit is one call of a
 * `max_value`/`min_value` closure. `minmax` visits the whole game tree below
 * every action. `alpha_beta` follows the same loops but may leave one at a
 * cutoff, so it never visits more states than `minmax`.
 */
module NodeCounts {
  import opened ExtInt
  import opened GameStates
  import opened Rules
  import opened ExactSearch

  // ---------------------------------------------------------------------
  // minmax

  /** The calls `max_value(s)` or `min_value(s)` of `minmax` makes, itself included. */
  function Nodes(k: int, s: State): (n: nat)
    ensures n >= 1
    ensures TerminalTest(s) ==> n == 1
    decreases |s.moves|, 1
  {
    1 + if TerminalTest(s) then 0 else NodesLoop(k, s, 0)
  }

  /** The calls the loop over the actions makes, from action `i` on. */
  function NodesLoop(k: int, s: State, i: nat): (n: nat)
    requires i <= |s.moves|
    ensures n >= |s.moves| - i
    decreases |s.moves|, 0, |s.moves| - i
  {
    if i == |s.moves| then 0 else Nodes(k, Child(k, s, i)) + NodesLoop(k, s, i + 1)
  }

  /** `minmax`'s root: one `min_value` call for every action. */
  function MinmaxNodes(k: int, s: State): (n: nat)
    ensures n >= |s.moves|
  {
    NodesLoop(k, s, 0)
  }

  // ---------------------------------------------------------------------
  // alpha_beta

  /** The calls `max_value(s, alpha, beta)` of `alpha_beta` makes, itself included. */
  function MaxABNodes(k: int, player: Player, s: State, alpha: Ext, beta: Ext): nat
    decreases |s.moves|, 1
  {
    1 + if TerminalTest(s) then 0 else MaxABLoopNodes(k, player, s, 0, NegInf, alpha, beta)
  }

  /** The calls of the pruning loop of `max_value`, which stops once `v >= beta`. */
  function MaxABLoopNodes(k: int, player: Player, s: State, i: nat, v: Ext, alpha: Ext, beta: Ext): nat
    requires i <= |s.moves|
    decreases |s.moves|, 0, |s.moves| - i
  {
    if i == |s.moves| then 0
    else
      var v' := Max(v, MinAB(k, player, Child(k, s, i), alpha, beta));
      MinABNodes(k, player, Child(k, s, i), alpha, beta)
        + if Le(beta, v') then 0 else MaxABLoopNodes(k, player, s, i + 1, v', Max(alpha, v'), beta)
  }

  /** The calls `min_value(s, alpha, beta)` of `alpha_beta` makes, itself included. */
  function MinABNodes(k: int, player: Player, s: State, alpha: Ext, beta: Ext): nat
    decreases |s.moves|, 1
  {
    1 + if TerminalTest(s) then 0 else MinABLoopNodes(k, player, s, 0, PosInf, alpha, beta)
  }

  /** The calls of the pruning loop of `min_value`, which stops once `v <= alpha`. */
  function MinABLoopNodes(k: int, player: Player, s: State, i: nat, v: Ext, alpha: Ext, beta: Ext): nat
    requires i <= |s.moves|
    decreases |s.moves|, 0, |s.moves| - i
  {
    if i == |s.moves| then 0
    else
      var v' := Min(v, MaxAB(k, player, Child(k, s, i), alpha, beta));
      MaxABNodes(k, player, Child(k, s, i), alpha, beta)
        + if Le(v', alpha) then 0 else MinABLoopNodes(k, player, s, i + 1, v', alpha, Min(beta, v'))
  }

  /** `alpha_beta`'s root loop from action `i` on: one `min_value` call per action, in the running window. */
  function ABRootNodes(k: int, s: State, i: nat, alpha: Ext): nat
    requires i <= |s.moves|
    decreases |s.moves| - i
  {
    if i == |s.moves| then 0
    else
      var value := MinAB(k, s.toMove, Child(k, s, i), alpha, PosInf);
      MinABNodes(k, s.toMove, Child(k, s, i), alpha, PosInf)
        + ABRootNodes(k, s, i + 1, if Lt(alpha, value) then value else alpha)
  }

  // ---------------------------------------------------------------------
  // alpha_beta never visits more

  lemma {:induction false} MaxABNodesLe(k: int, player: Player, s: State, alpha: Ext, beta: Ext)
    ensures MaxABNodes(k, player, s, alpha, beta) <= Nodes(k, s)
    decreases |s.moves|, 1
  {
    if !TerminalTest(s) {
      MaxABLoopNodesLe(k, player, s, 0, NegInf, alpha, beta);
    }
  }

  lemma {:induction false} MaxABLoopNodesLe(k: int, player: Player, s: State, i: nat, v: Ext, alpha: Ext, beta: Ext)
    requires i <= |s.moves|
    ensures MaxABLoopNodes(k, player, s, i, v, alpha, beta) <= NodesLoop(k, s, i)
    decreases |s.moves|, 0, |s.moves| - i
  {
    if i < |s.moves| {
      MinABNodesLe(k, player, Child(k, s, i), alpha, beta);
      var v' := Max(v, MinAB(k, player, Child(k, s, i), alpha, beta));
      if !Le(beta, v') {
        MaxABLoopNodesLe(k, player, s, i + 1, v', Max(alpha, v'), beta);
      }
    }
  }

  lemma {:induction false} MinABNodesLe(k: int, player: Player, s: State, alpha: Ext, beta: Ext)
    ensures MinABNodes(k, player, s, alpha, beta) <= Nodes(k, s)
    decreases |s.moves|, 1
  {
    if !TerminalTest(s) {
      MinABLoopNodesLe(k, player, s, 0, PosInf, alpha, beta);
    }
  }

  lemma {:induction false} MinABLoopNodesLe(k: int, player: Player, s: State, i: nat, v: Ext, alpha: Ext, beta: Ext)
    requires i <= |s.moves|
    ensures MinABLoopNodes(k, player, s, i, v, alpha, beta) <= NodesLoop(k, s, i)
    decreases |s.moves|, 0, |s.moves| - i
  {
    if i < |s.moves| {
      MaxABNodesLe(k, player, Child(k, s, i), alpha, beta);
      var v' := Min(v, MaxAB(k, player, Child(k, s, i), alpha, beta));
      if !Le(v', alpha) {
        MinABLoopNodesLe(k, player, s, i + 1, v', alpha, Min(beta, v'));
      }
    }
  }

  lemma {:induction false} ABRootNodesLe(k: int, s: State, i: nat, alpha: Ext)
    requires i <= |s.moves|
    ensures ABRootNodes(k, s, i, alpha) <= NodesLoop(k, s, i)
    decreases |s.moves| - i
  {
    if i < |s.moves| {
      MinABNodesLe(k, s.toMove, Child(k, s, i), alpha, PosInf);
      var value := MinAB(k, s.toMove, Child(k, s, i), alpha, PosInf);
      ABRootNodesLe(k, s, i + 1, if Lt(alpha, value) then value else alpha);
    }
  }

  /** From the same state, `alpha_beta` visits no more states than `minmax`. */
  lemma AlphaBetaVisitsNoMore(k: int, s: State)
    ensures ABRootNodes(k, s, 0, NegInf) <= MinmaxNodes(k, s)
  {
    ABRootNodesLe(k, s, 0, NegInf);
  }
}
