/**
 * The full-depth searches: `minmax` and `alpha_beta` (Russell and Norvig,
 * Artificial Intelligence: A Modern Approach, figure 5.3 and the alpha-beta
 * search after it). The inner `max_value`/`min_value` closures become
 * mutually recursive functions that take the root's player explicitly; the
 * `for` loop over the actions inside each becomes a function over the index
 * of the next action. Every legal move removes one empty square, so the
 * recursion ends.
 */
module ExactSearch {
  import opened ExtInt
  import opened GameStates
  import opened Rules

  /** The state reached by the `i`-th action. */
  function Child(k: int, s: State, i: int): (c: State)
    requires 0 <= i < |s.moves|
    ensures |c.moves| == |s.moves| - 1
  {
    ResultMove(k, s, s.moves[i]);
    Result(k, s, s.moves[i])
  }

  // ---------------------------------------------------------------------
  // minmax

  function MaxValue(k: int, player: Player, s: State): Ext
    decreases |s.moves|, 1
  {
    if TerminalTest(s) then Fin(Utility(s, player)) else MaxLoop(k, player, s, 0, NegInf)
  }

  /** `for a in game.actions(state): v = max(v, min_value(game.result(state, a)))`, from action `i` on. */
  function MaxLoop(k: int, player: Player, s: State, i: nat, v: Ext): Ext
    requires i <= |s.moves|
    decreases |s.moves|, 0, |s.moves| - i
  {
    if i == |s.moves| then v
    else MaxLoop(k, player, s, i + 1, Max(v, MinValue(k, player, Child(k, s, i))))
  }

  function MinValue(k: int, player: Player, s: State): Ext
    decreases |s.moves|, 1
  {
    if TerminalTest(s) then Fin(Utility(s, player)) else MinLoop(k, player, s, 0, PosInf)
  }

  function MinLoop(k: int, player: Player, s: State, i: nat, v: Ext): Ext
    requires i <= |s.moves|
    decreases |s.moves|, 0, |s.moves| - i
  {
    if i == |s.moves| then v
    else MinLoop(k, player, s, i + 1, Min(v, MaxValue(k, player, Child(k, s, i))))
  }

  /** A loop's result is at least its running maximum. */
  lemma {:induction false} MaxLoopGe(k: int, player: Player, s: State, i: nat, v: Ext)
    requires i <= |s.moves|
    ensures Le(v, MaxLoop(k, player, s, i, v))
    decreases |s.moves| - i
  {
    if i < |s.moves| {
      var v' := Max(v, MinValue(k, player, Child(k, s, i)));
      MaxLoopGe(k, player, s, i + 1, v');
      LeTrans(v, v', MaxLoop(k, player, s, i + 1, v'));
    }
  }

  lemma {:induction false} MinLoopLe(k: int, player: Player, s: State, i: nat, v: Ext)
    requires i <= |s.moves|
    ensures Le(MinLoop(k, player, s, i, v), v)
    decreases |s.moves| - i
  {
    if i < |s.moves| {
      var v' := Min(v, MaxValue(k, player, Child(k, s, i)));
      MinLoopLe(k, player, s, i + 1, v');
      LeTrans(MinLoop(k, player, s, i + 1, v'), v', v);
    }
  }

  /** Minimax values are finite: a state without actions is terminal. */
  lemma {:induction false} MaxValueFin(k: int, player: Player, s: State)
    ensures MaxValue(k, player, s).Fin?
    decreases |s.moves|, 1
  {
    if !TerminalTest(s) {
      MaxLoopFin(k, player, s, 0, NegInf);
    }
  }

  lemma {:induction false} MaxLoopFin(k: int, player: Player, s: State, i: nat, v: Ext)
    requires i <= |s.moves| && !v.PosInf? && (v.Fin? || i < |s.moves|)
    ensures MaxLoop(k, player, s, i, v).Fin?
    decreases |s.moves|, 0, |s.moves| - i
  {
    if i < |s.moves| {
      MinValueFin(k, player, Child(k, s, i));
      MaxLoopFin(k, player, s, i + 1, Max(v, MinValue(k, player, Child(k, s, i))));
    }
  }

  lemma {:induction false} MinValueFin(k: int, player: Player, s: State)
    ensures MinValue(k, player, s).Fin?
    decreases |s.moves|, 1
  {
    if !TerminalTest(s) {
      MinLoopFin(k, player, s, 0, PosInf);
    }
  }

  lemma {:induction false} MinLoopFin(k: int, player: Player, s: State, i: nat, v: Ext)
    requires i <= |s.moves| && !v.NegInf? && (v.Fin? || i < |s.moves|)
    ensures MinLoop(k, player, s, i, v).Fin?
    decreases |s.moves|, 0, |s.moves| - i
  {
    if i < |s.moves| {
      MaxValueFin(k, player, Child(k, s, i));
      MinLoopFin(k, player, s, i + 1, Min(v, MaxValue(k, player, Child(k, s, i))));
    }
  }

  /** The first index of a maximal element: Python's `max(..., key=...)` keeps the first. */
  function FirstArgMax(vs: seq<Ext>): (r: nat)
    requires |vs| > 0
    ensures r < |vs|
    ensures forall j :: 0 <= j < |vs| ==> Le(vs[j], vs[r])
    ensures forall j :: 0 <= j < r ==> Lt(vs[j], vs[r])
  {
    if |vs| == 1 then 0
    else
      var j := FirstArgMax(vs[..|vs| - 1]);
      assert forall i :: 0 <= i < |vs| - 1 ==> vs[..|vs| - 1][i] == vs[i];
      if Lt(vs[j], vs[|vs| - 1]) then |vs| - 1 else j
  }

  /** `i` is the first index of a maximal element of `vs`. */
  predicate IsFirstBest(vs: seq<Ext>, i: int)
    requires 0 <= i < |vs|
  {
    && (forall j :: 0 <= j < |vs| ==> Le(vs[j], vs[i]))
    && (forall j :: 0 <= j < i ==> Lt(vs[j], vs[i]))
  }

  /** The values `min_value(game.result(state, a))` of the actions, in order. */
  function ChildValues(k: int, s: State): (vs: seq<Ext>)
    ensures |vs| == |s.moves|
    ensures forall i :: 0 <= i < |s.moves| ==> vs[i] == MinValue(k, s.toMove, Child(k, s, i))
    ensures forall i :: 0 <= i < |s.moves| ==> vs[i].Fin?
  {
    var vs := seq(|s.moves|, i requires 0 <= i < |s.moves| => MinValue(k, s.toMove, Child(k, s, i)));
    assert forall i :: 0 <= i < |s.moves| ==> vs[i].Fin? by {
      forall i | 0 <= i < |s.moves| ensures vs[i].Fin? {
        MinValueFin(k, s.toMove, Child(k, s, i));
      }
    }
    vs
  }

  /**
   * `minmax`: `None` when there are no actions, otherwise the first action
   * whose minimax value (for the player to move) is maximal.
   */
  function Minmax(k: int, s: State): (r: Option<Pos>)
    ensures r.None? <==> |s.moves| == 0
    ensures r.Some? ==>
      exists i :: 0 <= i < |s.moves| && r.value == s.moves[i] && IsFirstBest(ChildValues(k, s), i)
  {
    if |s.moves| == 0 then None else Some(s.moves[FirstArgMax(ChildValues(k, s))])
  }

  // ---------------------------------------------------------------------
  // alpha_beta

  function MaxAB(k: int, player: Player, s: State, alpha: Ext, beta: Ext): Ext
    decreases |s.moves|, 1
  {
    if TerminalTest(s) then Fin(Utility(s, player)) else MaxABLoop(k, player, s, 0, NegInf, alpha, beta)
  }

  /** The loop of `max_value`: stop as soon as `v >= beta`, else raise `alpha` to `v`. */
  function MaxABLoop(k: int, player: Player, s: State, i: nat, v: Ext, alpha: Ext, beta: Ext): Ext
    requires i <= |s.moves|
    decreases |s.moves|, 0, |s.moves| - i
  {
    if i == |s.moves| then v
    else
      var v' := Max(v, MinAB(k, player, Child(k, s, i), alpha, beta));
      if Le(beta, v') then v' else MaxABLoop(k, player, s, i + 1, v', Max(alpha, v'), beta)
  }

  function MinAB(k: int, player: Player, s: State, alpha: Ext, beta: Ext): Ext
    decreases |s.moves|, 1
  {
    if TerminalTest(s) then Fin(Utility(s, player)) else MinABLoop(k, player, s, 0, PosInf, alpha, beta)
  }

  /** The loop of `min_value`: stop as soon as `v <= alpha`, else lower `beta` to `v`. */
  function MinABLoop(k: int, player: Player, s: State, i: nat, v: Ext, alpha: Ext, beta: Ext): Ext
    requires i <= |s.moves|
    decreases |s.moves|, 0, |s.moves| - i
  {
    if i == |s.moves| then v
    else
      var v' := Min(v, MaxAB(k, player, Child(k, s, i), alpha, beta));
      if Le(v', alpha) then v' else MinABLoop(k, player, s, i + 1, v', alpha, Min(beta, v'))
  }

  /**
   * What a windowed search returns relative to the exact value `v`: exactly
   * `v` inside the window, at most `alpha` when `v` fails low, at least
   * `beta` when `v` fails high.
   */
  predicate Bounded(ab: Ext, v: Ext, alpha: Ext, beta: Ext) {
    && (Lt(alpha, v) && Lt(v, beta) ==> ab == v)
    && (Le(v, alpha) ==> Le(ab, alpha))
    && (Le(beta, v) ==> Le(beta, ab))
  }

  /**
   * The loop invariant of `max_value`, between the windowed running value
   * `v` and the exact running maximum `m`: `v` equals `m` once `m` exceeds the
   * original `a0`, stays at most `a0` while `m` does not, and is below `beta`.
   */
  predicate MaxWindow(v: Ext, a0: Ext, beta: Ext, m: Ext) {
    Lt(a0, beta) && Lt(v, beta) && (Lt(a0, m) ==> v == m) && (Le(m, a0) ==> Le(v, a0))
  }

  /** The loop invariant of `min_value`, the mirror image of `MaxWindow`. */
  predicate MinWindow(v: Ext, alpha: Ext, b0: Ext, m: Ext) {
    Lt(alpha, b0) && Lt(alpha, v) && (Lt(m, b0) ==> v == m) && (Le(b0, m) ==> Le(b0, v))
  }

  /** One iteration of `max_value`'s loop keeps its invariant unless it cuts off. */
  lemma MaxWindowStep(v: Ext, a0: Ext, beta: Ext, m: Ext, ab: Ext, vi: Ext)
    requires MaxWindow(v, a0, beta, m) && Bounded(ab, vi, Max(a0, v), beta)
    ensures Le(beta, Max(v, ab)) ==> Le(beta, Max(m, vi))
    ensures !Le(beta, Max(v, ab)) ==> MaxWindow(Max(v, ab), a0, beta, Max(m, vi))
    ensures Max(Max(a0, v), Max(v, ab)) == Max(a0, Max(v, ab))
  {
    LeTotal(a0, v); LeTotal(v, ab); LeTotal(m, vi); LeTotal(a0, m); LeTotal(a0, vi);
  }

  lemma MinWindowStep(v: Ext, alpha: Ext, b0: Ext, m: Ext, ab: Ext, vi: Ext)
    requires MinWindow(v, alpha, b0, m) && Bounded(ab, vi, alpha, Min(b0, v))
    ensures Le(Min(v, ab), alpha) ==> Le(Min(m, vi), alpha)
    ensures !Le(Min(v, ab), alpha) ==> MinWindow(Min(v, ab), alpha, b0, Min(m, vi))
    ensures Min(Min(b0, v), Min(v, ab)) == Min(b0, Min(v, ab))
  {
    LeTotal(b0, v); LeTotal(v, ab); LeTotal(m, vi); LeTotal(b0, m); LeTotal(b0, vi);
  }

  /** A cutoff at `v >= beta` is sound: the exact value is then at least `beta` too. */
  lemma FailHigh(v: Ext, m: Ext, exact: Ext, a0: Ext, beta: Ext)
    requires Lt(a0, beta) && Le(beta, v) && Le(beta, m) && Le(m, exact)
    ensures Bounded(v, exact, a0, beta)
  {
    LeTrans(beta, m, exact);
  }

  lemma FailLow(v: Ext, m: Ext, exact: Ext, alpha: Ext, b0: Ext)
    requires Lt(alpha, b0) && Le(v, alpha) && Le(m, alpha) && Le(exact, m)
    ensures Bounded(v, exact, alpha, b0)
  {
    LeTrans(exact, m, alpha);
  }

  /**
   * One iteration of `max_value`'s loop, windowed and exact side by side; the
   * running `alpha` of the next iteration is `max(a0, v')`.
   */
  lemma MaxLoopsUnfold(k: int, player: Player, s: State, i: nat, v: Ext, a0: Ext, beta: Ext, m: Ext)
    requires i < |s.moves|
    ensures var c := Child(k, s, i);
      var v' := Max(v, MinAB(k, player, c, Max(a0, v), beta));
      && MaxABLoop(k, player, s, i, v, Max(a0, v), beta)
         == (if Le(beta, v') then v' else MaxABLoop(k, player, s, i + 1, v', Max(a0, v'), beta))
      && MaxLoop(k, player, s, i, m) == MaxLoop(k, player, s, i + 1, Max(m, MinValue(k, player, c)))
  {
    var v' := Max(v, MinAB(k, player, Child(k, s, i), Max(a0, v), beta));
    MaxAssoc(a0, v, v');
  }

  /** One iteration of `min_value`'s loop; the running `beta` of the next iteration is `min(b0, v')`. */
  lemma MinLoopsUnfold(k: int, player: Player, s: State, i: nat, v: Ext, alpha: Ext, b0: Ext, m: Ext)
    requires i < |s.moves|
    ensures var c := Child(k, s, i);
      var v' := Min(v, MaxAB(k, player, c, alpha, Min(b0, v)));
      && MinABLoop(k, player, s, i, v, alpha, Min(b0, v))
         == (if Le(v', alpha) then v' else MinABLoop(k, player, s, i + 1, v', alpha, Min(b0, v')))
      && MinLoop(k, player, s, i, m) == MinLoop(k, player, s, i + 1, Min(m, MaxValue(k, player, c)))
  {
    var v' := Min(v, MaxAB(k, player, Child(k, s, i), alpha, Min(b0, v)));
    MinAssoc(b0, v, v');
  }

  /** Raising a running maximum `v` to `v' >= v` after `a0`: `max(max(a0, v), v') == max(a0, v')`. */
  lemma MaxAssoc(a0: Ext, v: Ext, v': Ext)
    requires Le(v, v')
    ensures Max(Max(a0, v), v') == Max(a0, v')
  {
    LeTotal(a0, v); LeTotal(a0, v'); LeTotal(v, v');
  }

  lemma MinAssoc(b0: Ext, v: Ext, v': Ext)
    requires Le(v', v)
    ensures Min(Min(b0, v), v') == Min(b0, v')
  {
    LeTotal(b0, v); LeTotal(b0, v'); LeTotal(v, v');
  }

  /** `max_value`'s loop invariant, at the end of the loop, is `Bounded`. */
  lemma MaxWindowEnd(v: Ext, a0: Ext, beta: Ext, m: Ext)
    requires MaxWindow(v, a0, beta, m)
    ensures Bounded(v, m, a0, beta)
  {
    LeTotal(a0, m); LeTotal(m, beta); LeTotal(v, beta);
  }

  lemma MinWindowEnd(v: Ext, alpha: Ext, b0: Ext, m: Ext)
    requires MinWindow(v, alpha, b0, m)
    ensures Bounded(v, m, alpha, b0)
  {
    LeTotal(b0, m); LeTotal(alpha, m); LeTotal(alpha, v);
  }

  /**
   * An iteration of `max_value`'s loop, as values: either it cuts off at
   * `v' >= beta` or it continues with a `Bounded` rest.
   */
  lemma MaxStepBounded(v: Ext, a0: Ext, beta: Ext, m: Ext, ab: Ext, vi: Ext, rest: Ext, exact: Ext)
    requires MaxWindow(v, a0, beta, m) && Bounded(ab, vi, Max(a0, v), beta)
    requires Le(beta, Max(v, ab)) ==> Le(Max(m, vi), exact)
    requires !Le(beta, Max(v, ab)) ==> Bounded(rest, exact, a0, beta)
    ensures Bounded(if Le(beta, Max(v, ab)) then Max(v, ab) else rest, exact, a0, beta)
  {
    if Le(beta, Max(v, ab)) {
      MaxWindowStep(v, a0, beta, m, ab, vi);
      FailHigh(Max(v, ab), Max(m, vi), exact, a0, beta);
    }
  }

  lemma MinStepBounded(v: Ext, alpha: Ext, b0: Ext, m: Ext, ab: Ext, vi: Ext, rest: Ext, exact: Ext)
    requires MinWindow(v, alpha, b0, m) && Bounded(ab, vi, alpha, Min(b0, v))
    requires Le(Min(v, ab), alpha) ==> Le(exact, Min(m, vi))
    requires !Le(Min(v, ab), alpha) ==> Bounded(rest, exact, alpha, b0)
    ensures Bounded(if Le(Min(v, ab), alpha) then Min(v, ab) else rest, exact, alpha, b0)
  {
    if Le(Min(v, ab), alpha) {
      MinWindowStep(v, alpha, b0, m, ab, vi);
      FailLow(Min(v, ab), Min(m, vi), exact, alpha, b0);
    }
  }

  lemma {:induction false} MaxABBounded(k: int, player: Player, s: State, alpha: Ext, beta: Ext)
    requires Lt(alpha, beta)
    ensures Bounded(MaxAB(k, player, s, alpha, beta), MaxValue(k, player, s), alpha, beta)
    decreases |s.moves|, 1
  {
    if !TerminalTest(s) {
      assert Max(alpha, NegInf) == alpha;
      MaxABLoopBounded(k, player, s, 0, NegInf, alpha, beta, NegInf);
    }
  }

  /**
   * The loop invariant of `max_value`: `m` is the exact maximum so far; `v`
   * equals it once it exceeds the original `a0`, and stays at most `a0`
   * while it does not; the running `alpha` is `max(a0, v)`.
   */
  lemma {:induction false} MaxABLoopBounded(k: int, player: Player, s: State, i: nat, v: Ext, a0: Ext, beta: Ext, m: Ext)
    requires i <= |s.moves|
    requires MaxWindow(v, a0, beta, m)
    ensures Bounded(MaxABLoop(k, player, s, i, v, Max(a0, v), beta), MaxLoop(k, player, s, i, m), a0, beta)
    decreases |s.moves|, 0, |s.moves| - i, 1
  {
    if i == |s.moves| {
      MaxWindowEnd(v, a0, beta, m);
    } else {
      MaxLoopsUnfold(k, player, s, i, v, a0, beta, m);
      MaxABLoopBoundedStep(k, player, s, i, v, a0, beta, m);
    }
  }

  lemma MaxABLoopBoundedStep(k: int, player: Player, s: State, i: nat, v: Ext, a0: Ext, beta: Ext, m: Ext)
    requires i < |s.moves|
    requires MaxWindow(v, a0, beta, m)
    ensures var c := Child(k, s, i);
      var ab, vi := MinAB(k, player, c, Max(a0, v), beta), MinValue(k, player, c);
      Bounded(if Le(beta, Max(v, ab)) then Max(v, ab) else MaxABLoop(k, player, s, i + 1, Max(v, ab), Max(a0, Max(v, ab)), beta),
              MaxLoop(k, player, s, i + 1, Max(m, vi)), a0, beta)
    decreases |s.moves|, 0, |s.moves| - i, 0
  {
    var c := Child(k, s, i);
    MinABBounded(k, player, c, Max(a0, v), beta);
    var ab, vi := MinAB(k, player, c, Max(a0, v), beta), MinValue(k, player, c);
    var v', m' := Max(v, ab), Max(m, vi);
    if Le(beta, v') {
      MaxLoopGe(k, player, s, i + 1, m');
    } else {
      MaxWindowStep(v, a0, beta, m, ab, vi);
      MaxABLoopBounded(k, player, s, i + 1, v', a0, beta, m');
    }
    MaxStepBounded(v, a0, beta, m, ab, vi, MaxABLoop(k, player, s, i + 1, v', Max(a0, v'), beta), MaxLoop(k, player, s, i + 1, m'));
  }

  lemma {:induction false} MinABBounded(k: int, player: Player, s: State, alpha: Ext, beta: Ext)
    requires Lt(alpha, beta)
    ensures Bounded(MinAB(k, player, s, alpha, beta), MinValue(k, player, s), alpha, beta)
    decreases |s.moves|, 1
  {
    if !TerminalTest(s) {
      assert Min(beta, PosInf) == beta;
      MinABLoopBounded(k, player, s, 0, PosInf, alpha, beta, PosInf);
    }
  }

  lemma {:induction false} MinABLoopBounded(k: int, player: Player, s: State, i: nat, v: Ext, alpha: Ext, b0: Ext, m: Ext)
    requires i <= |s.moves|
    requires MinWindow(v, alpha, b0, m)
    ensures Bounded(MinABLoop(k, player, s, i, v, alpha, Min(b0, v)), MinLoop(k, player, s, i, m), alpha, b0)
    decreases |s.moves|, 0, |s.moves| - i, 1
  {
    if i == |s.moves| {
      MinWindowEnd(v, alpha, b0, m);
    } else {
      MinLoopsUnfold(k, player, s, i, v, alpha, b0, m);
      MinABLoopBoundedStep(k, player, s, i, v, alpha, b0, m);
    }
  }

  lemma MinABLoopBoundedStep(k: int, player: Player, s: State, i: nat, v: Ext, alpha: Ext, b0: Ext, m: Ext)
    requires i < |s.moves|
    requires MinWindow(v, alpha, b0, m)
    ensures var c := Child(k, s, i);
      var ab, vi := MaxAB(k, player, c, alpha, Min(b0, v)), MaxValue(k, player, c);
      Bounded(if Le(Min(v, ab), alpha) then Min(v, ab) else MinABLoop(k, player, s, i + 1, Min(v, ab), alpha, Min(b0, Min(v, ab))),
              MinLoop(k, player, s, i + 1, Min(m, vi)), alpha, b0)
    decreases |s.moves|, 0, |s.moves| - i, 0
  {
    var c := Child(k, s, i);
    MaxABBounded(k, player, c, alpha, Min(b0, v));
    var ab, vi := MaxAB(k, player, c, alpha, Min(b0, v)), MaxValue(k, player, c);
    var v', m' := Min(v, ab), Min(m, vi);
    if Le(v', alpha) {
      MinLoopLe(k, player, s, i + 1, m');
    } else {
      MinWindowStep(v, alpha, b0, m, ab, vi);
      MinABLoopBounded(k, player, s, i + 1, v', alpha, b0, m');
    }
    MinStepBounded(v, alpha, b0, m, ab, vi, MinABLoop(k, player, s, i + 1, v', alpha, Min(b0, v')), MinLoop(k, player, s, i + 1, m'));
  }

  /** The root loop of `alpha_beta`, from action `i` on, with the running `alpha` and `best_action`. */
  function ABRoot(k: int, s: State, i: nat, alpha: Ext, best: Option<Pos>): Option<Pos>
    requires i <= |s.moves|
    decreases |s.moves| - i
  {
    if i == |s.moves| then best
    else
      var value := MinAB(k, s.toMove, Child(k, s, i), alpha, PosInf);
      if Lt(alpha, value) then ABRoot(k, s, i + 1, value, Some(s.moves[i]))
      else ABRoot(k, s, i + 1, alpha, best)
  }

  /** The exact maximum of the first `i` action values. */
  function PrefixMax(vs: seq<Ext>, i: nat): Ext
    requires i <= |vs|
  {
    if i == 0 then NegInf else vs[FirstArgMax(vs[..i])]
  }

  /**
   * One step of a running maximum over finite values: the maximum and its
   * first index move to `i` exactly when `vs[i]` is strictly larger.
   */
  lemma PrefixMaxStep(vs: seq<Ext>, i: nat)
    requires i < |vs| && forall j :: 0 <= j < |vs| ==> vs[j].Fin?
    ensures !PrefixMax(vs, i).PosInf?
    ensures Lt(PrefixMax(vs, i), vs[i]) ==> PrefixMax(vs, i + 1) == vs[i] && FirstArgMax(vs[..i + 1]) == i
    ensures !Lt(PrefixMax(vs, i), vs[i]) ==>
      i > 0 && PrefixMax(vs, i + 1) == PrefixMax(vs, i) && FirstArgMax(vs[..i + 1]) == FirstArgMax(vs[..i])
  {
    assert vs[..i + 1][..i] == vs[..i];
    assert vs[..i + 1][i] == vs[i];
  }

  /**
   * At the root, the window is `(alpha, +inf)`: an action's windowed value
   * beats `alpha` exactly when its minimax value does, and is then exact.
   */
  lemma RootValueStep(k: int, s: State, i: nat, alpha: Ext)
    requires i < |s.moves| && !alpha.PosInf?
    ensures var value := MinAB(k, s.toMove, Child(k, s, i), alpha, PosInf);
      && (Lt(alpha, value) <==> Lt(alpha, ChildValues(k, s)[i]))
      && (Lt(alpha, value) ==> value == ChildValues(k, s)[i])
  {
    var c := Child(k, s, i);
    MinValueFin(k, s.toMove, c);
    MinABBounded(k, s.toMove, c, alpha, PosInf);
  }

  /**
   * The root loop run on the exact action values `vs`: action `i` is taken
   * when `vs[i]` strictly exceeds the running maximum `alpha`.
   */
  function Scan(vs: seq<Ext>, moves: seq<Pos>, i: nat, alpha: Ext, best: Option<Pos>): Option<Pos>
    requires i <= |vs| == |moves|
    decreases |vs| - i
  {
    if i == |vs| then best
    else if Lt(alpha, vs[i]) then Scan(vs, moves, i + 1, vs[i], Some(moves[i]))
    else Scan(vs, moves, i + 1, alpha, best)
  }

  /**
   * With the window `(alpha, +inf)` the root loop takes the same actions as
   * the scan over the exact values, as long as `alpha` is not `+inf`.
   */
  lemma {:induction false} ABRootIsScan(k: int, s: State, i: nat, alpha: Ext, best: Option<Pos>)
    requires i <= |s.moves| && !alpha.PosInf?
    ensures ABRoot(k, s, i, alpha, best) == Scan(ChildValues(k, s), s.moves, i, alpha, best)
    decreases |s.moves| - i
  {
    if i < |s.moves| {
      var vs := ChildValues(k, s);
      RootValueStep(k, s, i, alpha);
      if Lt(alpha, vs[i]) {
        ABRootIsScan(k, s, i + 1, vs[i], Some(s.moves[i]));
      } else {
        ABRootIsScan(k, s, i + 1, alpha, best);
      }
    }
  }

  /**
   * The scan keeps `alpha` at the maximum of the values so far and `best` at
   * the first action reaching it, so it ends with the first maximal action.
   */
  lemma {:induction false} ScanIsFirstArgMax(vs: seq<Ext>, moves: seq<Pos>, i: nat, alpha: Ext, best: Option<Pos>)
    requires i <= |vs| == |moves| && forall j :: 0 <= j < |vs| ==> vs[j].Fin?
    requires alpha == PrefixMax(vs, i)
    requires best == if i == 0 then None else Some(moves[FirstArgMax(vs[..i])])
    ensures Scan(vs, moves, i, alpha, best) == if |vs| == 0 then None else Some(moves[FirstArgMax(vs)])
    decreases |vs| - i
  {
    if i == |vs| {
      assert vs[..i] == vs;
    } else {
      PrefixMaxStep(vs, i);
      if Lt(alpha, vs[i]) {
        ScanIsFirstArgMax(vs, moves, i + 1, vs[i], Some(moves[i]));
      } else {
        ScanIsFirstArgMax(vs, moves, i + 1, alpha, best);
      }
    }
  }

  /** The root loop of `alpha_beta`, started as the source starts it, makes `minmax`'s choice. */
  lemma ABRootIsMinmax(k: int, s: State)
    ensures ABRoot(k, s, 0, NegInf, None) == Minmax(k, s)
  {
    ABRootIsScan(k, s, 0, NegInf, None);
    ScanIsFirstArgMax(ChildValues(k, s), s.moves, 0, NegInf, None);
  }

  /**
   * `alpha_beta`: the root loop, which takes an action only when its value
   * strictly exceeds the running `alpha`. It returns exactly `minmax`'s
   * choice: the first action of maximal minimax value, `None` if there is none.
   */
  method AlphaBeta(k: int, s: State) returns (best: Option<Pos>)
    ensures best == Minmax(k, s)
  {
    var alpha, beta := NegInf, PosInf;
    best := None;
    var i := 0;
    while i < |s.moves|
      invariant 0 <= i <= |s.moves|
      invariant ABRoot(k, s, i, alpha, best) == ABRoot(k, s, 0, NegInf, None)
    {
      var value := MinAB(k, s.toMove, Child(k, s, i), alpha, beta);
      if Lt(alpha, value) {
        alpha := value;
        best := Some(s.moves[i]);
      }
      i := i + 1;
    }
    ABRootIsMinmax(k, s);
  }
}
