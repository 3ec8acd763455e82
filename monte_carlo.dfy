/**
 * Monte Carlo tree search (`MCTS`). The tree of `Node` objects with parent
 * back-pointers is kept as an arena: node `i` lives at `nodes[i]`, the root
 * at index 0, and a parent or a child is an index into the arena.
 */
module MonteCarlo {
  import opened GameStates
  import opened Rules

  /** `sys.maxsize` of a 64-bit interpreter. */
  const MaxSize: int := 9223372036854775807

  /** `MCTS.Node`: a copy of a state, the parent, the children, and the counters. */
  datatype Node = Node(state: State, parent: Option<nat>, children: seq<nat>, visitCount: int, winScore: int)

  /** `Node(state, par)`: a new node has no children and zero counters. */
  function NewNode(s: State, par: Option<nat>): (n: Node)
    ensures n.state == s && n.parent == par
    ensures n.children == [] && n.visitCount == 0 && n.winScore == 0
  {
    Node(s, par, [], 0, 0)
  }

  /** What `simulateRandomPlay` reports: the symbol `'X'`/`'O'` or `'N'`. */
  datatype Winner = Won(who: Player) | Neither

  /** `cs` was produced from `ps` by `result` on a legal move, recorded in `cs.move`. */
  predicate IsResultOf(k: int, ps: State, cs: State) {
    cs.move.Some? && cs.move.value in ps.moves && cs == Result(k, ps, cs.move.value)
  }

  /**
   * The shape of the tree: the root has no parent, every other node's parent
   * comes earlier in the arena and its state is the parent's state after a
   * legal move, and every child index points to a later node whose parent
   * is this one.
   */
  ghost predicate ValidTree(k: int, ns: seq<Node>) {
    && Rooted(ns)
    && ParentsResult(k, ns)
    && ChildLinks(ns)
  }

  /** The root has no parent and every other node has one earlier in the arena. */
  ghost predicate Rooted(ns: seq<Node>) {
    |ns| > 0 && ns[0].parent.None? && ParentsEarlier(ns)
  }

  /** Every node but the root has a parent earlier in the arena. */
  ghost predicate ParentsEarlier(ns: seq<Node>) {
    forall i {:trigger ns[i].parent} :: 0 < i < |ns| ==> ns[i].parent.Some? && ns[i].parent.value < i
  }

  /** Every node with an earlier parent holds the parent's state after a legal move. */
  ghost predicate ParentsResult(k: int, ns: seq<Node>) {
    forall i {:trigger ns[i].parent} :: 0 < i < |ns| && ns[i].parent.Some? && ns[i].parent.value < i ==>
      IsResultOf(k, ns[ns[i].parent.value].state, ns[i].state)
  }

  /** Every child index points to a later node whose parent is this one. */
  ghost predicate ChildLinks(ns: seq<Node>) {
    forall i, j :: 0 <= i < |ns| && 0 <= j < |ns[i].children| ==>
      i < ns[i].children[j] < |ns| && ns[ns[i].children[j]].parent == Some(i)
  }

  /** Every node but the root records the move that produced it. */
  lemma ValidTreeHasLastMove(k: int, ns: seq<Node>, i: nat)
    requires ValidTree(k, ns) && 0 < i < |ns|
    ensures HasLastMove(ns[i].state)
  {
    var p := ns[i].parent.value;
    ResultRecordsMove(k, ns[p].state, ns[i].state.move.value);
  }

  /** `a` lies on the parent chain from `i` up to the root, `i` included. */
  function OnPath(ns: seq<Node>, a: nat, i: nat): bool
    decreases i
  {
    if a == i then true
    else if i < |ns| && ns[i].parent.Some? && ns[i].parent.value < i then OnPath(ns, a, ns[i].parent.value)
    else false
  }

  lemma {:induction false} OnPathBelow(ns: seq<Node>, a: nat, i: nat)
    requires OnPath(ns, a, i)
    ensures a <= i
    decreases i
  {
    if a != i {
      OnPathBelow(ns, a, ns[i].parent.value);
    }
  }

  /** The path from `i` that passes through `a` goes on to `a`'s parent. */
  lemma {:induction false} OnPathParent(ns: seq<Node>, a: nat, i: nat)
    requires Rooted(ns) && a < |ns| && ns[a].parent.Some? && OnPath(ns, a, i)
    ensures OnPath(ns, ns[a].parent.value, i)
    decreases i
  {
    if a != i {
      OnPathParent(ns, a, ns[i].parent.value);
    }
  }

  /** In a well-formed tree the root lies on the path from every node. */
  lemma {:induction false} RootOnPath(ns: seq<Node>, i: nat)
    requires Rooted(ns) && i < |ns|
    ensures OnPath(ns, 0, i)
    decreases i
  {
    if i > 0 {
      RootOnPath(ns, ns[i].parent.value);
    }
  }

  /** The nodes keep their states, parents and children. */
  predicate SameShape(ns: seq<Node>, ms: seq<Node>) {
    |ns| == |ms| &&
    forall i :: 0 <= i < |ns| ==>
      ns[i].state == ms[i].state && ns[i].parent == ms[i].parent && ns[i].children == ms[i].children
  }

  lemma SameShapeValid(k: int, ns: seq<Node>, ms: seq<Node>)
    requires ValidTree(k, ns) && SameShape(ns, ms)
    ensures ValidTree(k, ms)
  {
    forall i, j | 0 <= i < |ms| && 0 <= j < |ms[i].children|
      ensures i < ms[i].children[j] < |ms| && ms[ms[i].children[j]].parent == Some(i)
    {
      assert ns[i].children[j] == ms[i].children[j];
    }
    forall i | 0 < i < |ms| && ms[i].parent.Some? && ms[i].parent.value < i
      ensures IsResultOf(k, ms[ms[i].parent.value].state, ms[i].state)
    {
      assert ns[i].parent == ms[i].parent;
    }
  }

  /**
   * `ms` extends `ns`: the nodes of `ns` keep their states, parents and
   * visit counts, and their lists of children only grow.
   */
  predicate Grows(ns: seq<Node>, ms: seq<Node>) {
    |ns| <= |ms| &&
    forall i :: 0 <= i < |ns| ==>
      && ms[i].state == ns[i].state && ms[i].parent == ns[i].parent
      && ms[i].visitCount == ns[i].visitCount && |ns[i].children| <= |ms[i].children|
  }

  /** The indices `a, a + 1, ..., a + n - 1`. */
  function Range(a: nat, n: nat): (r: seq<nat>)
    ensures |r| == n && forall j :: 0 <= j < n ==> r[j] == a + j
  {
    if n == 0 then [] else Range(a, n - 1) + [a + n - 1]
  }

  /** The arena `ns` with a new child of `nd`, holding `s`, appended. */
  function AddChild(ns: seq<Node>, nd: nat, s: State): (r: seq<Node>)
    requires nd < |ns|
    ensures |r| == |ns| + 1
    ensures r[|ns|] == NewNode(s, Some(nd))
    ensures r[nd] == ns[nd].(children := ns[nd].children + [|ns|])
    ensures forall i :: 0 <= i < |ns| && i != nd ==> r[i] == ns[i]
  {
    (ns + [NewNode(s, Some(nd))])[nd := ns[nd].(children := ns[nd].children + [|ns|])]
  }

  /** Adding a child keeps every child index pointing back to its parent. */
  lemma AddChildLinks(ns: seq<Node>, nd: nat, s: State)
    requires ChildLinks(ns) && nd < |ns|
    ensures ChildLinks(AddChild(ns, nd, s))
  {
    var r := AddChild(ns, nd, s);
    var c := |ns|;
    forall i, j | 0 <= i < |r| && 0 <= j < |r[i].children|
      ensures i < r[i].children[j] < |r| && r[r[i].children[j]].parent == Some(i)
    {
      if i == nd && j == |ns[nd].children| {
        assert r[i].children[j] == c;
      } else {
        assert i < c && r[i].children[j] == ns[i].children[j];
      }
    }
  }

  /** The states after each action of `s`, in action order: the children `expandNode` creates. */
  function ChildStates(k: int, s: State): (cs: seq<State>)
    ensures |cs| == |s.moves|
    ensures forall j :: 0 <= j < |cs| ==> cs[j] == Result(k, s, s.moves[j])
  {
    seq(|s.moves|, j requires 0 <= j < |s.moves| => Result(k, s, s.moves[j]))
  }

  /** Each of those states is the result of a legal move from `s`, recorded in its `move`. */
  lemma ChildStatesAreResults(k: int, s: State)
    ensures forall j :: 0 <= j < |s.moves| ==> IsResultOf(k, s, ChildStates(k, s)[j])
  {
    forall j | 0 <= j < |s.moves| ensures IsResultOf(k, s, ChildStates(k, s)[j]) {
      ResultMove(k, s, s.moves[j]);
    }
  }

  /**
   * The arena `orig` with one new child of `nd` for each of the first `n`
   * states of `cs`, in order, appended to the arena and to `nd`'s children.
   */
  function ExpandWith(orig: seq<Node>, nd: nat, cs: seq<State>, n: nat): (r: seq<Node>)
    requires nd < |orig| && n <= |cs|
    ensures |r| == |orig| + n && r[nd].state == orig[nd].state
  {
    if n == 0 then orig
    else AddChild(ExpandWith(orig, nd, cs, n - 1), nd, cs[n - 1])
  }

  /** The expanded node gains the new nodes as its children, in order. */
  lemma {:induction false} ExpandParent(orig: seq<Node>, nd: nat, cs: seq<State>, n: nat)
    requires nd < |orig| && n <= |cs|
    ensures ExpandWith(orig, nd, cs, n)[nd] == orig[nd].(children := orig[nd].children + Range(|orig|, n))
  {
    if n == 0 {
      assert orig[nd].children + Range(|orig|, 0) == orig[nd].children;
    } else {
      ExpandParent(orig, nd, cs, n - 1);
      assert (orig[nd].children + Range(|orig|, n - 1)) + [|orig| + n - 1] == orig[nd].children + Range(|orig|, n);
    }
  }

  /** The expansion leaves every other node of the arena as it was. */
  lemma {:induction false} ExpandOthers(orig: seq<Node>, nd: nat, cs: seq<State>, n: nat, m: nat)
    requires nd < |orig| && n <= |cs| && m < |orig| && m != nd
    ensures ExpandWith(orig, nd, cs, n)[m] == orig[m]
  {
    if n > 0 {
      ExpandOthers(orig, nd, cs, n - 1, m);
    }
  }

  /** The `j`-th new node holds `cs[j]` and has `nd` as its parent. */
  lemma {:induction false} ExpandNew(orig: seq<Node>, nd: nat, cs: seq<State>, n: nat, j: nat)
    requires nd < |orig| && j < n <= |cs|
    ensures ExpandWith(orig, nd, cs, n)[|orig| + j] == NewNode(cs[j], Some(nd))
  {
    if j < n - 1 {
      ExpandNew(orig, nd, cs, n - 1, j);
    }
  }

  /** The expansion only adds nodes and children. */
  lemma ExpandGrows(orig: seq<Node>, nd: nat, cs: seq<State>, n: nat)
    requires nd < |orig| && n <= |cs|
    ensures Grows(orig, ExpandWith(orig, nd, cs, n))
    ensures |ExpandWith(orig, nd, cs, n)[nd].children| == |orig[nd].children| + n
  {
    ExpandParent(orig, nd, cs, n);
    forall m | 0 <= m < |orig| && m != nd ensures ExpandWith(orig, nd, cs, n)[m] == orig[m] {
      ExpandOthers(orig, nd, cs, n, m);
    }
  }

  /** Expansion keeps the root without a parent and gives every new node the earlier parent `nd`. */
  lemma {:induction false} ExpandRooted(orig: seq<Node>, nd: nat, cs: seq<State>, n: nat)
    requires Rooted(orig) && nd < |orig| && n <= |cs|
    ensures Rooted(ExpandWith(orig, nd, cs, n))
  {
    if n > 0 {
      ExpandRooted(orig, nd, cs, n - 1);
    }
  }

  /** Expansion keeps every child index pointing back to its parent. */
  lemma {:induction false} ExpandLinks(orig: seq<Node>, nd: nat, cs: seq<State>, n: nat)
    requires ChildLinks(orig) && nd < |orig| && n <= |cs|
    ensures ChildLinks(ExpandWith(orig, nd, cs, n))
  {
    if n > 0 {
      ExpandLinks(orig, nd, cs, n - 1);
      AddChildLinks(ExpandWith(orig, nd, cs, n - 1), nd, cs[n - 1]);
    }
  }

  /** The state and parent of each node after expansion: old nodes keep theirs, new ones hold `cs`. */
  lemma ExpandNodeAt(orig: seq<Node>, nd: nat, cs: seq<State>, n: nat, i: nat)
    requires nd < |orig| && n <= |cs| && i < |orig| + n
    ensures var r := ExpandWith(orig, nd, cs, n);
      if i < |orig| then r[i].state == orig[i].state && r[i].parent == orig[i].parent
      else r[i].state == cs[i - |orig|] && r[i].parent == Some(nd)
  {
    if i == nd {
      ExpandParent(orig, nd, cs, n);
    } else if i < |orig| {
      ExpandOthers(orig, nd, cs, n, i);
    } else {
      ExpandNew(orig, nd, cs, n, i - |orig|);
    }
  }

  /** Expansion with states after legal moves of `nd` keeps every node the result of its parent. */
  lemma ExpandResults(k: int, orig: seq<Node>, nd: nat, ps: State, cs: seq<State>, n: nat)
    requires ParentsResult(k, orig) && nd < |orig| && orig[nd].state == ps && n <= |cs|
    requires forall j :: 0 <= j < |cs| ==> IsResultOf(k, ps, cs[j])
    ensures ParentsResult(k, ExpandWith(orig, nd, cs, n))
  {
    var r := ExpandWith(orig, nd, cs, n);
    forall i | 0 < i < |r| && r[i].parent.Some? && r[i].parent.value < i
      ensures IsResultOf(k, r[r[i].parent.value].state, r[i].state)
    {
      var p := r[i].parent.value;
      ExpandNodeAt(orig, nd, cs, n, i);
      ExpandNodeAt(orig, nd, cs, n, p);
      if i >= |orig| {
        assert p == nd && r[p].state == ps && r[i].state == cs[i - |orig|];
      } else {
        assert orig[i].parent == Some(p) && r[p].state == orig[p].state && r[i].state == orig[i].state;
      }
    }
  }

  /** Expanding a node with the states after each of its actions keeps the tree well formed. */
  lemma ExpandChildrenValid(k: int, orig: seq<Node>, nd: nat)
    requires ValidTree(k, orig) && nd < |orig|
    ensures ValidTree(k, ExpandWith(orig, nd, ChildStates(k, orig[nd].state), |orig[nd].state.moves|))
  {
    var cs, n := ChildStates(k, orig[nd].state), |orig[nd].state.moves|;
    ChildStatesAreResults(k, orig[nd].state);
    ExpandRooted(orig, nd, cs, n);
    ExpandLinks(orig, nd, cs, n);
    ExpandResults(k, orig, nd, orig[nd].state, cs, n);
  }

  /**
   * The nodes `backPropagation` has bumped when `t` is the node still to
   * go: those on the path from `nd` that are not on the path from `t`.
   */
  predicate Done(ns: seq<Node>, nd: nat, t: Option<nat>, i: nat) {
    OnPath(ns, i, nd) && !(t.Some? && OnPath(ns, i, t.value))
  }

  /**
   * The arena `cur` during `backPropagation` from `nd`, when `t` is the node
   * still to go: the nodes done are bumped, all others are as in `ns`.
   */
  predicate BackedUpTo(ns: seq<Node>, nd: nat, t: Option<nat>, w: Winner, cur: seq<Node>) {
    && |cur| == |ns|
    && (t.Some? ==> t.value < |ns| && OnPath(ns, t.value, nd))
    && forall i :: 0 <= i < |cur| ==> cur[i] == if Done(ns, nd, t, i) then Bump(ns[i], w) else ns[i]
  }

  /** Bumping `j` and moving on to its parent keeps `BackedUpTo`. */
  lemma BackUpStep(ns: seq<Node>, nd: nat, j: nat, w: Winner, cur: seq<Node>)
    requires Rooted(ns) && BackedUpTo(ns, nd, Some(j), w, cur)
    ensures cur[j] == ns[j]
    ensures ns[j].parent.Some? ==> ns[j].parent.value < j
    ensures BackedUpTo(ns, nd, ns[j].parent, w, cur[j := Bump(cur[j], w)])
  {
    assert !Done(ns, nd, Some(j), j);
    var next := cur[j := Bump(cur[j], w)];
    forall i | 0 <= i < |ns| ensures Done(ns, nd, ns[j].parent, i) == (Done(ns, nd, Some(j), i) || i == j) {
      DoneStep(ns, nd, j, i);
    }
    if ns[j].parent.Some? {
      OnPathParent(ns, j, nd);
    }
  }

  /** After the root, exactly the path from `nd` is bumped, and the tree keeps its shape. */
  lemma BackedUpAll(k: int, ns: seq<Node>, nd: nat, w: Winner, cur: seq<Node>)
    requires ValidTree(k, ns) && BackedUpTo(ns, nd, None, w, cur)
    ensures ValidTree(k, cur)
    ensures forall i :: 0 <= i < |cur| ==> cur[i] == if OnPath(ns, i, nd) then Bump(ns[i], w) else ns[i]
  {
    assert SameShape(ns, cur);
    SameShapeValid(k, ns, cur);
  }

  /** Moving from `j` to its parent adds exactly `j` to the bumped nodes. */
  lemma DoneStep(ns: seq<Node>, nd: nat, j: nat, i: nat)
    requires Rooted(ns) && j < |ns| && OnPath(ns, j, nd)
    ensures Done(ns, nd, ns[j].parent, i) == (Done(ns, nd, Some(j), i) || i == j)
  {
    if ns[j].parent.Some? {
      var p := ns[j].parent.value;
      assert OnPath(ns, i, j) == (i == j || OnPath(ns, i, p));
      if OnPath(ns, j, p) {
        OnPathBelow(ns, j, p);
      }
    } else {
      assert j == 0;
      assert OnPath(ns, i, j) == (i == j);
    }
  }

  /** The arena after the expansion stage of a round: `sel` is expanded unless its state is terminal. */
  function ExpandStage(k: int, ns: seq<Node>, sel: nat): (r: seq<Node>)
    requires sel < |ns|
    ensures |r| >= |ns|
  {
    if TerminalTest(ns[sel].state) then ns
    else ExpandWith(ns, sel, ChildStates(k, ns[sel].state), |ns[sel].state.moves|)
  }

  /** The arena after `simulateRandomPlay` on `nd`: the early-win score written into the parent, if any. */
  function SimulateStage(k: int, ns: seq<Node>, nd: nat): seq<Node>
    requires nd < |ns| && HasLastMove(ns[nd].state)
  {
    var n := ns[nd];
    if n.parent.Some? && n.parent.value < |ns| && EarlyWinScore(k, n.state).Some? then
      ns[n.parent.value := ns[n.parent.value].(winScore := EarlyWinScore(k, n.state).value)]
    else ns
  }

  /** What `simulateRandomPlay` on `nd` reports. */
  function SimulateWinner(k: int, ns: seq<Node>, nd: nat): Winner
    requires nd < |ns| && HasLastMove(ns[nd].state)
  {
    var n := ns[nd];
    if n.parent.Some? && n.parent.value < |ns| && EarlyWinScore(k, n.state).Some? then Won(n.state.toMove)
    else Neither
  }

  /** `leaf` is the node a round simulates from: a child of the selected `sel`, or `sel` itself when it has none. */
  predicate Picked(ns: seq<Node>, sel: nat, leaf: nat) {
    && sel < |ns| && leaf < |ns| && HasLastMove(ns[leaf].state)
    && (ns[sel].children == [] ==> leaf == sel)
    && (ns[sel].children != [] ==> leaf in ns[sel].children)
  }

  /** `cur` is `ns` with every node on the parent chain from `nd` bumped for `w`, and every other node unchanged. */
  predicate BackedUp(ns: seq<Node>, nd: nat, w: Winner, cur: seq<Node>) {
    |cur| == |ns| && forall i :: 0 <= i < |cur| ==> cur[i] == if OnPath(ns, i, nd) then Bump(ns[i], w) else ns[i]
  }

  /**
   * What a round keeps, from the arenas after each stage: every node keeps
   * its state, the root keeps its children and gains exactly one visit.
   */
  lemma RoundKeeps(n0: seq<Node>, n1: seq<Node>, n2: seq<Node>, cur: seq<Node>, leaf: nat, w: Winner)
    requires |n0| > 0 && Rooted(n2) && leaf < |n2|
    requires Grows(n0, n1) && Grows(n1, n2) && BackedUp(n2, leaf, w, cur)
    requires !TerminalTest(n1[0].state) ==> |n1[0].children| > 0
    ensures |cur| >= |n0|
    ensures forall i :: 0 <= i < |n0| ==> cur[i].state == n0[i].state
    ensures cur[0].visitCount == n0[0].visitCount + 1
    ensures |cur[0].children| >= |n0[0].children|
    ensures !TerminalTest(cur[0].state) ==> |cur[0].children| > 0
  {
    RootOnPath(n2, leaf);
  }

  /** The update `backPropagation` makes to one node of the path. */
  function Bump(n: Node, w: Winner): (r: Node)
    ensures r.state == n.state && r.parent == n.parent && r.children == n.children
    ensures r.visitCount == n.visitCount + 1
    ensures w.Neither? ==> r.winScore == n.winScore
    ensures w.Won? && n.state.toMove == w.who ==> r.winScore == n.winScore + MaxSize
    ensures w.Won? && n.state.toMove != w.who ==> r.winScore == n.winScore - MaxSize
  {
    var score :=
      if w.Neither? then n.winScore
      else if n.state.toMove == w.who then n.winScore + MaxSize
      else n.winScore - MaxSize;
    n.(visitCount := n.visitCount + 1, winScore := score)
  }

  /**
   * The early-win test of `simulateRandomPlay`: the value it writes into the
   * parent's `winScore`, by the four cases of `winStatus` and `to_move`, or
   * `None` when neither case applies and the play is rolled out.
   */
  function EarlyWinScore(k: int, s: State): (r: Option<int>)
    requires HasLastMove(s)
    ensures r.None? || r == Some(MaxSize) || r == Some(-MaxSize)
    ensures r.Some? ==> ComputeUtility(k, s.board, s.move.value, s.board[s.move.value]) in {k, -k}
  {
    var winStatus := ComputeUtility(k, s.board, s.move.value, s.board[s.move.value]);
    if (winStatus == k && s.toMove == X) || (winStatus == -k && s.toMove == O) then Some(MaxSize)
    else if (winStatus == k && s.toMove == O) || (winStatus == -k && s.toMove == X) then Some(-MaxSize)
    else None
  }

  /**
   * For a node made by `expandNode` (and `k > 0`), the last move was made by
   * the opponent of `to_move`, so only the `-sys.maxsize` case can apply, and
   * it applies exactly when that move won.
   */
  lemma ChildEarlyWin(k: int, ps: State, m: Pos)
    requires k > 0 && m in ps.moves
    ensures HasLastMove(Result(k, ps, m))
    ensures EarlyWinScore(k, Result(k, ps, m)) == if Result(k, ps, m).utility != 0 then Some(-MaxSize) else None
  {
    ResultRecordsMove(k, ps, m);
  }

  /** `isTerminalState`, on the utility and the moves of a state. */
  function IsTerminalState(utility: int, moves: seq<Pos>): (b: bool)
    ensures forall s: State :: s.utility == utility && s.moves == moves ==> (b <==> TerminalTest(s))
  {
    utility != 0 || |moves| == 0
  }

  /**
   * The random rollout of `simulateRandomPlay`: play legal moves until the
   * state is terminal. Every move removes one empty square, so it ends.
   */
  method Rollout(k: int, s: State) returns (t: State)
    ensures TerminalTest(t)
    ensures |t.moves| <= |s.moves|
  {
    t := s;
    while !TerminalTest(t)
      invariant |t.moves| <= |s.moves|
      decreases |t.moves|
    {
      assert t.moves[0] in t.moves;
      var move :| move in t.moves;
      t := Result(k, t, move);
    }
  }

  /** `vs[j]` is the first maximum of `vs`. */
  predicate IsFirstMax(vs: seq<real>, j: int) {
    && 0 <= j < |vs|
    && (forall i :: 0 <= i < |vs| ==> vs[i] <= vs[j])
    && (forall i :: 0 <= i < j ==> vs[i] < vs[j])
  }

  /** The index `np.argmax` and `max(key=...)` pick: the first maximum. */
  function FirstArgMax(vs: seq<real>): (r: nat)
    requires |vs| > 0
    ensures IsFirstMax(vs, r)
  {
    if |vs| == 1 then 0
    else
      var r := FirstArgMax(vs[..|vs| - 1]);
      assert forall i :: 0 <= i < |vs| - 1 ==> vs[..|vs| - 1][i] == vs[i];
      if vs[r] < vs[|vs| - 1] then |vs| - 1 else r
  }

  class MCTS {
    const k: int
    const exploreFactor: real
    /** The UCT formula for a visited child, a floating-point computation. */
    const uct: (int, int, int) -> real
    const state: State
    var nodes: seq<Node>

    ghost predicate Valid()
      reads this
    {
      ValidTree(k, nodes)
    }

    /** `MCTS(game, state)`: a tree of a single root node for `state`. */
    constructor (k: int, state: State, exploreFactor: real, uct: (int, int, int) -> real)
      ensures Valid()
      ensures this.k == k && this.state == state && this.exploreFactor == exploreFactor && this.uct == uct
      ensures nodes == [NewNode(state, None)]
    {
      this.k := k;
      this.state := state;
      this.exploreFactor := exploreFactor;
      this.uct := uct;
      nodes := [Node(state, None, [], 0, 0)];
    }

    /**
     * `uctValue`: an unvisited child scores `sys.maxsize`, or 0 when the
     * exploration factor is 0; a visited one gets the UCT formula.
     */
    function UctValue(parentVisit: int, nodeScore: int, nodeVisit: int): (r: real)
      ensures nodeVisit == 0 && exploreFactor == 0.0 ==> r == 0.0
      ensures nodeVisit == 0 && exploreFactor != 0.0 ==> r == MaxSize as real
      ensures nodeVisit != 0 ==> r == uct(parentVisit, nodeScore, nodeVisit)
    {
      if nodeVisit == 0 then (if exploreFactor == 0.0 then 0.0 else MaxSize as real)
      else uct(parentVisit, nodeScore, nodeVisit)
    }

    /** The UCT values of the children of `nd` in the arena `ns`, in order. */
    function UctValues(ns: seq<Node>, nd: nat): (vs: seq<real>)
      requires ValidTree(k, ns) && nd < |ns|
      ensures |vs| == |ns[nd].children|
      ensures forall j :: 0 <= j < |vs| ==>
        vs[j] == UctValue(ns[nd].visitCount, ns[ns[nd].children[j]].winScore, ns[ns[nd].children[j]].visitCount)
    {
      var n := ns[nd];
      seq(|n.children|, j requires 0 <= j < |n.children| && n.children[j] < |ns| =>
        UctValue(n.visitCount, ns[n.children[j]].winScore, ns[n.children[j]].visitCount))
    }

    /** `findBestNodeWithUCT`: the first child of `nd` with maximal UCT value. */
    function FindBestNodeWithUct(ns: seq<Node>, nd: nat): (c: nat)
      requires ValidTree(k, ns) && nd < |ns| && |ns[nd].children| > 0
      ensures nd < c < |ns| && ns[c].parent == Some(nd)
      ensures exists j :: IsFirstMax(UctValues(ns, nd), j) && c == ns[nd].children[j]
    {
      var j := FirstArgMax(UctValues(ns, nd));
      ns[nd].children[j]
    }

    /**
     * With a nonzero exploration factor an unvisited child is never passed
     * over for a child of lower UCT value than `sys.maxsize`.
     */
    lemma UnvisitedFirst(nd: nat, j: nat)
      requires Valid() && nd < |nodes| && j < |nodes[nd].children|
      requires exploreFactor != 0.0 && nodes[nodes[nd].children[j]].visitCount == 0
      ensures UctValues(nodes, nd)[FirstArgMax(UctValues(nodes, nd))] >= MaxSize as real
    {
    }

    /**
     * The node reached from `nd` by following `findBestNodeWithUCT` until a
     * node without children. Its parent chain passes through `nd`.
     */
    function SelectLeaf(ns: seq<Node>, nd: nat): (leaf: nat)
      requires ValidTree(k, ns) && nd < |ns|
      ensures leaf < |ns| && ns[leaf].children == [] && OnPath(ns, nd, leaf)
      decreases |ns| - nd
    {
      if ns[nd].children == [] then nd
      else
        var c := FindBestNodeWithUct(ns, nd);
        var leaf := SelectLeaf(ns, c);
        OnPathParent(ns, c, leaf);
        leaf
    }

    /** `selectNode`: descend by best UCT until a node without children. */
    method SelectNode(nd: nat) returns (leaf: nat)
      requires Valid() && nd < |nodes|
      ensures leaf == SelectLeaf(nodes, nd)
      ensures leaf < |nodes| && nodes[leaf].children == []
      ensures OnPath(nodes, nd, leaf)
      ensures nodes[nd].children == [] ==> leaf == nd
    {
      leaf := nd;
      while |nodes[leaf].children| > 0
        invariant leaf < |nodes| && SelectLeaf(nodes, leaf) == SelectLeaf(nodes, nd)
        decreases |nodes| - leaf
      {
        leaf := FindBestNodeWithUct(nodes, leaf);
      }
    }

    /**
     * `expandNode`: append one new child per action of `nd`'s state, in
     * action order, holding the state after that action; nothing else changes.
     */
    method ExpandNode(nd: nat)
      requires Valid() && nd < |nodes|
      modifies this
      ensures Valid()
      ensures nodes == ExpandWith(old(nodes), nd, ChildStates(k, old(nodes)[nd].state), |old(nodes)[nd].state.moves|)
    {
      ghost var orig := nodes;
      var s := nodes[nd].state;
      var acts := Actions(s);
      var i := 0;
      while i < |acts|
        invariant 0 <= i <= |acts| && nodes == ExpandWith(orig, nd, ChildStates(k, s), i)
      {
        nodes := AddChild(nodes, nd, Result(k, s, acts[i]));
        i := i + 1;
      }
      ExpandChildrenValid(k, orig, nd);
    }

    /**
     * `simulateRandomPlay`. A node with a parent whose last move decided the
     * game writes the early-win score into the parent's `winScore` and
     * reports its own `to_move`. Otherwise the play is rolled out; the final
     * test compares a player's symbol with the position keys of the board,
     * so it always holds and the result is `'N'`.
     */
    method SimulateRandomPlay(nd: nat) returns (w: Winner)
      requires Valid() && nd < |nodes| && HasLastMove(nodes[nd].state)
      modifies this
      ensures Valid()
      ensures var s := old(nodes)[nd].state;
        if old(nodes)[nd].parent.Some? && EarlyWinScore(k, s).Some? then
          var p := old(nodes)[nd].parent.value;
          && w == Won(s.toMove)
          && nodes == old(nodes)[p := old(nodes)[p].(winScore := EarlyWinScore(k, s).value)]
        else
          w == Neither && nodes == old(nodes)
      ensures nodes == SimulateStage(k, old(nodes), nd) && w == SimulateWinner(k, old(nodes), nd)
      ensures Grows(old(nodes), nodes)
    {
      var n := nodes[nd];
      var early := EarlyWinScore(k, n.state);
      if n.parent.Some? && early.Some? {
        var p := n.parent.value;
        ghost var before := nodes;
        nodes := nodes[p := nodes[p].(winScore := early.value)];
        assert SameShape(before, nodes);
        SameShapeValid(k, before, nodes);
        return Won(n.state.toMove);
      }
      var final := Rollout(k, n.state);
      w := Neither;
    }

    /**
     * `backPropagation`: every node on the parent chain from `nd` to the
     * root, both included, is bumped; every other node is unchanged.
     */
    method BackPropagation(nd: nat, w: Winner)
      requires Valid() && nd < |nodes|
      modifies this
      ensures Valid()
      ensures BackedUp(old(nodes), nd, w, nodes)
    {
      ghost var ns := nodes;
      var t: Option<nat> := Some(nd);
      while t.Some?
        invariant BackedUpTo(ns, nd, t, w, nodes)
        decreases if t.Some? then t.value + 1 else 0
      {
        var j := t.value;
        BackUpStep(ns, nd, j, w, nodes);
        nodes := nodes[j := Bump(nodes[j], w)];
        t := nodes[j].parent;
      }
      BackedUpAll(k, ns, nd, w, nodes);
    }

    /** The visit counts of the children of `nd`, in order. */
    function VisitCounts(nd: nat): (vs: seq<real>)
      reads this
      requires Valid() && nd < |nodes|
      ensures |vs| == |nodes[nd].children|
      ensures forall j :: 0 <= j < |vs| ==> vs[j] == nodes[nodes[nd].children[j]].visitCount as real
    {
      var ns, n := nodes, nodes[nd];
      seq(|n.children|, j requires 0 <= j < |n.children| && n.children[j] < |ns| => ns[n.children[j]].visitCount as real)
    }

    /**
     * `getChildWithMaxScore`: the first child of `nd` with the most visits;
     * `None` for a node without children, where `max` raises an error.
     */
    function GetChildWithMaxScore(nd: nat): (r: Option<nat>)
      reads this
      requires Valid() && nd < |nodes|
      ensures r.None? <==> nodes[nd].children == []
      ensures r.Some? ==> exists j :: IsFirstMax(VisitCounts(nd), j) && r.value == nodes[nd].children[j]
      ensures r.Some? ==> nd < r.value < |nodes|
      ensures r.Some? ==> forall c :: c in nodes[nd].children ==> nodes[c].visitCount <= nodes[r.value].visitCount
    {
      if nodes[nd].children == [] then None
      else
        var j := FirstArgMax(VisitCounts(nd));
        var vs := VisitCounts(nd);
        assert forall c :: c in nodes[nd].children ==> nodes[c].visitCount <= nodes[nodes[nd].children[j]].visitCount by {
          forall c | c in nodes[nd].children
            ensures nodes[c].visitCount <= nodes[nodes[nd].children[j]].visitCount
          {
            var i :| 0 <= i < |nodes[nd].children| && nodes[nd].children[i] == c;
            assert vs[i] <= vs[j];
          }
        }
        Some(nodes[nd].children[j])
    }

    /**
     * `ms` is the arena after one round of the search from `ns`: the UCT
     * leaf from the root is expanded, some node picked from it is simulated,
     * and the simulation's winner is backed up from that node to the root.
     */
    ghost predicate RoundStep(ns: seq<Node>, ms: seq<Node>) {
      && ValidTree(k, ns)
      && var sel := SelectLeaf(ns, 0);
         var n1 := ExpandStage(k, ns, sel);
         exists leaf: nat :: Picked(n1, sel, leaf) && BackedUp(SimulateStage(k, n1, leaf), leaf, SimulateWinner(k, n1, leaf), ms)
    }

    /**
     * The selection and expansion stages of a `monteCarloPlayer` round:
     * select the leaf `selectNode` reaches from the root, expand it unless it
     * is terminal, and pick one of its children at random, or the leaf itself
     * when it has none. The node picked records its last move, and a
     * non-terminal root ends up with children.
     */
    method SelectAndExpand() returns (selected: nat, leaf: nat)
      requires Valid() && (TerminalTest(nodes[0].state) ==> HasLastMove(nodes[0].state))
      modifies this
      ensures selected == SelectLeaf(old(nodes), 0) && selected < |old(nodes)|
      ensures nodes == ExpandStage(k, old(nodes), selected)
      ensures Valid() && Grows(old(nodes), nodes)
      ensures Picked(nodes, selected, leaf)
      ensures !TerminalTest(nodes[0].state) ==> |nodes[0].children| > 0
    {
      selected := SelectNode(0);
      ghost var n0 := nodes;
      var terminal := IsTerminalState(nodes[selected].state.utility, nodes[selected].state.moves);
      if !terminal {
        ExpandNode(selected);
        ExpandGrows(n0, selected, ChildStates(k, n0[selected].state), |n0[selected].state.moves|);
      }
      leaf := selected;
      if |nodes[selected].children| > 0 {
        assert nodes[selected].children[0] in nodes[selected].children;
        leaf :| leaf in nodes[selected].children;
      }
      if leaf > 0 {
        ValidTreeHasLastMove(k, nodes, leaf);
      } else {
        assert selected == 0 && terminal && nodes == n0;
      }
      assert !TerminalTest(n0[0].state) && |n0[0].children| == 0 ==> selected == 0 && |nodes[0].children| > 0;
    }

    /**
     * One round of the `monteCarloPlayer` loop: selection and expansion,
     * then a simulation from the node picked, backed up to the root. The new
     * arena is the composition of the three stages; in particular the root's
     * visit count grows by exactly one and its children are kept, and once
     * it is not terminal it has children.
     */
    method Iterate() returns (selected: nat, leaf: nat)
      requires Valid() && (TerminalTest(nodes[0].state) ==> HasLastMove(nodes[0].state))
      modifies this
      ensures Valid()
      ensures selected == SelectLeaf(old(nodes), 0) && selected < |old(nodes)|
      ensures var n1 := ExpandStage(k, old(nodes), selected);
        Picked(n1, selected, leaf) && BackedUp(SimulateStage(k, n1, leaf), leaf, SimulateWinner(k, n1, leaf), nodes)
      ensures RoundStep(old(nodes), nodes)
      ensures |nodes| >= |old(nodes)|
      ensures forall i :: 0 <= i < |old(nodes)| ==> nodes[i].state == old(nodes)[i].state
      ensures nodes[0].visitCount == old(nodes)[0].visitCount + 1
      ensures |nodes[0].children| >= |old(nodes)[0].children|
      ensures !TerminalTest(nodes[0].state) ==> |nodes[0].children| > 0
    {
      selected, leaf := SelectAndExpand();
      ghost var n1 := nodes;
      var result := SimulateRandomPlay(leaf);
      ghost var n2 := nodes;
      BackPropagation(leaf, result);
      RoundKeeps(old(nodes), n1, n2, nodes, leaf, result);
    }

    /**
     * Each arena of `tr` is the arena after one round from the one before
     * it: a shorter trace of rounds followed by one more round.
     */
    ghost predicate Rounds(tr: seq<seq<Node>>)
      decreases |tr|
    {
      |tr| <= 1 || (Rounds(tr[..|tr| - 1]) && RoundStep(tr[|tr| - 2], tr[|tr| - 1]))
    }

    /** A trace of rounds extends by one more round from its last arena. */
    lemma RoundsExtend(tr: seq<seq<Node>>, ms: seq<Node>)
      requires |tr| > 0 && Rounds(tr) && RoundStep(tr[|tr| - 1], ms)
      ensures Rounds(tr + [ms])
    {
      var t := tr + [ms];
      assert t[..|t| - 1] == tr;
      assert t[|t| - 2] == tr[|tr| - 1] && t[|t| - 1] == ms;
    }

    /**
     * The `while` loop of `monteCarloPlayer`, for a clock that allows
     * `rounds` iterations: the final arena comes from the initial one by
     * exactly `rounds` search rounds, recorded in `trace`.
     */
    method RunRounds(rounds: nat) returns (ghost trace: seq<seq<Node>>)
      requires Valid() && (TerminalTest(nodes[0].state) ==> HasLastMove(nodes[0].state))
      modifies this
      ensures Valid() && |nodes| >= |old(nodes)|
      ensures |trace| == rounds + 1 && trace[0] == old(nodes) && trace[rounds] == nodes
      ensures Rounds(trace)
      ensures nodes[0].state == old(nodes)[0].state
      ensures nodes[0].visitCount == old(nodes)[0].visitCount + rounds
      ensures rounds > 0 && !TerminalTest(nodes[0].state) ==> |nodes[0].children| > 0
    {
      trace := [nodes];
      var r := 0;
      while r < rounds
        invariant 0 <= r <= rounds
        invariant |trace| == r + 1 && trace[0] == old(nodes) && trace[r] == nodes
        invariant Rounds(trace)
        invariant Valid() && |nodes| >= |old(nodes)|
        invariant nodes[0].state == old(nodes)[0].state
        invariant nodes[0].visitCount == old(nodes)[0].visitCount + r
        invariant r > 0 && !TerminalTest(nodes[0].state) ==> |nodes[0].children| > 0
      {
        ghost var before := nodes;
        var _, _ := Iterate();
        assert trace[|trace| - 1] == before;
        RoundsExtend(trace, nodes);
        trace := trace + [nodes];
        r := r + 1;
      }
    }

    /**
     * `monteCarloPlayer` for a clock that allows `rounds` iterations: after
     * `rounds` search rounds, the move that leads to the most visited child
     * of the root, or `None` when the root has no children (where `max`
     * raises an error).
     */
    method MonteCarloPlayer(rounds: nat) returns (move: Option<Pos>, ghost trace: seq<seq<Node>>)
      requires Valid() && (TerminalTest(nodes[0].state) ==> HasLastMove(nodes[0].state))
      modifies this
      ensures Valid()
      ensures |trace| == rounds + 1 && trace[0] == old(nodes) && trace[rounds] == nodes
      ensures Rounds(trace)
      ensures nodes[0].visitCount == old(nodes)[0].visitCount + rounds
      ensures move.Some? ==> move.value in nodes[0].state.moves
      ensures rounds > 0 && !TerminalTest(nodes[0].state) ==> move.Some?
      ensures nodes[0].state == old(nodes)[0].state
      ensures move == (var w := GetChildWithMaxScore(0); if w.None? then None else nodes[w.value].state.move)
    {
      trace := RunRounds(rounds);
      var winner := GetChildWithMaxScore(0);
      if winner.None? {
        move := None;
      } else {
        var c := winner.value;
        move := nodes[c].state.move;
        assert IsResultOf(k, nodes[0].state, nodes[c].state);
      }
    }
  }
}
