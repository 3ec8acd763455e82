/**
 * The rules of the k-in-row game (the `TicTacToe` class): line detection
 * through the last move, the cached utility, the state transition and the
 * terminal test. Every rule reads only the winning run length `k` of the
 * game, which is therefore passed explicitly.
 */
module Rules {
  import opened GameStates

  // ---------------------------------------------------------------------
  // k_in_row

  /**
   * A direction `(dx, dy)` with components in -1..1, other than `(0, 0)`.
   * `compute_utility` and `eval1` use (0, 1), (1, 0), (1, -1) and (1, 1), and
   * `k_in_row` walks each forward and backward.
   */
  predicate UnitDir(d: Pos) {
    -1 <= d.0 <= 1 && -1 <= d.1 <= 1 && d != (0, 0)
  }

  function Neg(d: Pos): (r: Pos)
    ensures UnitDir(d) ==> UnitDir(r)
  {
    (-d.0, -d.1)
  }

  function Add(p: Pos, d: Pos): Pos {
    (p.0 + d.0, p.1 + d.1)
  }

  /** `n * c` for a direction component `c` in -1..1, kept linear. */
  function Scale(n: int, c: int): int
    requires -1 <= c <= 1
  {
    if c == 1 then n else if c == -1 then -n else 0
  }

  /** The position `p + n * d`. */
  function Step(p: Pos, d: Pos, n: int): Pos
    requires UnitDir(d)
  {
    (p.0 + Scale(n, d.0), p.1 + Scale(n, d.1))
  }

  /** How far `p` lies along `d`; every step in direction `d` increases it. */
  function Along(p: Pos, d: Pos): int
    requires UnitDir(d)
  {
    Scale(p.0, d.0) + Scale(p.1, d.1)
  }

  /** Every step in direction `d` goes strictly further along `d`. */
  lemma AlongStep(p: Pos, d: Pos)
    requires UnitDir(d)
    ensures Along(Add(p, d), d) > Along(p, d)
  {
  }

  /** An upper bound of `Along` over the occupied positions of a board. */
  ghost function Farthest(keys: set<Pos>, d: Pos): (r: int)
    requires UnitDir(d)
    ensures forall q :: q in keys ==> Along(q, d) <= r
    decreases keys
  {
    if keys == {} then 0
    else
      var q :| q in keys;
      var m := Farthest(keys - {q}, d);
      if Along(q, d) > m then Along(q, d) else m
  }

  /** `board.get(p) == player`. */
  predicate Owns(board: map<Pos, Player>, p: Pos, player: Player) {
    p in board && board[p] == player
  }

  /**
   * The number of consecutive cells of `player` starting at `p` and going in
   * direction `d` (`p` included). The walk ends because the board is finite.
   */
  function RunFrom(board: map<Pos, Player>, p: Pos, player: Player, d: Pos): nat
    requires UnitDir(d)
    decreases Farthest(board.Keys, d) - Along(p, d)
  {
    if Owns(board, p, player) then
      AlongStep(p, d);
      1 + RunFrom(board, Add(p, d), player, d)
    else 0
  }

  /** A run through an owned cell is that cell plus the run from the next one, which lies further along `d`. */
  lemma RunFromUnfold(board: map<Pos, Player>, p: Pos, player: Player, d: Pos)
    requires UnitDir(d) && Owns(board, p, player)
    ensures RunFrom(board, p, player, d) == 1 + RunFrom(board, Add(p, d), player, d)
    ensures Along(p, d) <= Farthest(board.Keys, d) && Along(Add(p, d), d) > Along(p, d)
  {
  }

  /** One step along `d` and `i - 1` more is `i` steps. */
  lemma StepShift(p: Pos, d: Pos, i: int)
    requires UnitDir(d)
    ensures Step(p, d, i) == Step(Add(p, d), d, i - 1)
  {
  }

  /** `RunFrom` is the length of the longest run of `player` cells from `p` along `d`. */
  lemma {:induction false} RunFromSpan(board: map<Pos, Player>, p: Pos, player: Player, d: Pos)
    requires UnitDir(d)
    ensures forall i :: 0 <= i < RunFrom(board, p, player, d) ==> Owns(board, Step(p, d, i), player)
    ensures !Owns(board, Step(p, d, RunFrom(board, p, player, d)), player)
    decreases Farthest(board.Keys, d) - Along(p, d)
  {
    assert Step(p, d, 0) == p;
    if Owns(board, p, player) {
      var q := Add(p, d);
      var n := RunFrom(board, q, player, d);
      assert RunFrom(board, p, player, d) == n + 1;
      RunFromSpan(board, q, player, d);
      forall i | 1 <= i < n + 1 ensures Owns(board, Step(p, d, i), player) {
        StepShift(p, d, i);
      }
      StepShift(p, d, n + 1);
    }
  }

  /**
   * The count `n` of `k_in_row`: the run forward plus the run backward, with
   * `pos` counted once. It is -1 exactly when `pos` is not `player`'s.
   */
  function RowCount(board: map<Pos, Player>, pos: Pos, player: Player, d: Pos): (n: int)
    requires UnitDir(d)
    ensures n >= -1
    ensures Owns(board, pos, player) <==> n >= 1
    ensures !Owns(board, pos, player) ==> n == -1
  {
    RunFrom(board, pos, player, d) + RunFrom(board, pos, player, Neg(d)) - 1
  }

  /** `k_in_row`: whether the line through `pos` along `d` holds `k` or more of `player`'s cells. */
  function KInRow(board: map<Pos, Player>, pos: Pos, player: Player, d: Pos, k: int): (b: bool)
    requires UnitDir(d)
    ensures b <==> RowCount(board, pos, player, d) >= k
    ensures !Owns(board, pos, player) && k >= 0 ==> !b
  {
    RowCount(board, pos, player, d) >= k
  }

  /** One while loop of `k_in_row`: count `player`'s cells from `pos` on, one step of `d` at a time. */
  method Walk(board: map<Pos, Player>, pos: Pos, player: Player, d: Pos) returns (n: nat)
    requires UnitDir(d)
    ensures n == RunFrom(board, pos, player, d)
  {
    var dx, dy := d.0, d.1;
    var x, y := pos.0, pos.1;
    n := 0;
    while Owns(board, (x, y), player)
      invariant n + RunFrom(board, (x, y), player, d) == RunFrom(board, pos, player, d)
      decreases Farthest(board.Keys, d) - Along((x, y), d)
    {
      RunFromUnfold(board, (x, y), player, d);
      assert (x + dx, y + dy) == Add((x, y), d);
      n := n + 1;
      x, y := x + dx, y + dy;
    }
  }

  /**
   * `k_in_row`: the walk forward from `pos` along `d`, then the walk backward
   * (forward along `Neg(d)`), with `pos` counted twice and then once removed.
   */
  method KInRowWalk(board: map<Pos, Player>, pos: Pos, player: Player, d: Pos, k: int)
    returns (b: bool)
    requires UnitDir(d)
    ensures b == KInRow(board, pos, player, d, k)
  {
    var forward := Walk(board, pos, player, d);
    var backward := Walk(board, pos, player, Neg(d));
    var n := forward + backward;
    n := n - 1;
    b := n >= k;
  }

  // ---------------------------------------------------------------------
  // compute_utility

  /** Some line through `move`, in one of the four directions, holds `k` of `player`'s cells. */
  predicate AnyLine(board: map<Pos, Player>, move: Pos, player: Player, k: int) {
    || KInRow(board, move, player, (0, 1), k)
    || KInRow(board, move, player, (1, 0), k)
    || KInRow(board, move, player, (1, -1), k)
    || KInRow(board, move, player, (1, 1), k)
  }

  /** `compute_utility`: `k` if X completed a line through `move`, `-k` if O did, else 0. */
  function ComputeUtility(k: int, board: map<Pos, Player>, move: Pos, player: Player): (u: int)
    ensures u == k || u == 0 || u == -k
    ensures k > 0 ==> (u > 0 <==> player == X && AnyLine(board, move, player, k))
    ensures k > 0 ==> (u < 0 <==> player == O && AnyLine(board, move, player, k))
    ensures k > 0 ==> (u == 0 <==> !AnyLine(board, move, player, k))
  {
    if AnyLine(board, move, player, k) then (if player == X then k else -k) else 0
  }

  /** A move on a square not held by `player` never completes a line of `player`. */
  lemma NoLineWithoutMove(k: int, board: map<Pos, Player>, move: Pos, player: Player)
    requires k >= 0 && !Owns(board, move, player)
    ensures ComputeUtility(k, board, move, player) == 0
  {
  }

  // ---------------------------------------------------------------------
  // actions, result, utility, terminal_test

  /** `actions`: the precomputed list of empty squares. */
  function Actions(s: State): seq<Pos> {
    s.moves
  }

  /** The index of the first occurrence of `m`. */
  function IndexOf(xs: seq<Pos>, m: Pos): (i: nat)
    requires m in xs
    ensures i < |xs| && xs[i] == m && m !in xs[..i]
  {
    if xs[0] == m then 0
    else
      var j := IndexOf(xs[1..], m);
      assert xs[..j + 1] == [xs[0]] + xs[1..][..j];
      j + 1
  }

  /** `list.remove`: drop the first occurrence of `m`, keeping the order of the rest. */
  function RemoveFirst(xs: seq<Pos>, m: Pos): (r: seq<Pos>)
    ensures m !in xs ==> r == xs
    ensures m in xs ==> |r| == |xs| - 1
  {
    if xs == [] then [] else if xs[0] == m then xs[1..] else [xs[0]] + RemoveFirst(xs[1..], m)
  }

  /** The list without its first `m` is the list around the index of that `m`. */
  lemma {:induction false} RemoveFirstSplit(xs: seq<Pos>, m: Pos)
    requires m in xs
    ensures RemoveFirst(xs, m) == xs[..IndexOf(xs, m)] + xs[IndexOf(xs, m) + 1..]
  {
    if xs[0] != m {
      RemoveFirstSplit(xs[1..], m);
      var j := IndexOf(xs[1..], m);
      assert xs[..j + 1] == [xs[0]] + xs[1..][..j];
      assert xs[j + 2..] == xs[1..][j + 1..];
    }
  }

  /** `result`; what it computes is stated by `ResultMove`. */
  function Result(k: int, s: State, m: Pos): State {
    if m !in s.moves then s
    else
      var board := s.board[m := s.toMove];
      State(Switch(s.toMove), Some(m), ComputeUtility(k, board, m, s.toMove), board, RemoveFirst(s.moves, m))
  }

  /**
   * `result`: an illegal move (one not in `moves`) returns the state itself;
   * a legal one places the mover's symbol, removes the square from `moves`,
   * switches the mover, records the move and recomputes the utility.
   */
  lemma ResultMove(k: int, s: State, m: Pos)
    ensures m !in s.moves ==> Result(k, s, m) == s
    ensures m in s.moves ==> Result(k, s, m).board == s.board[m := s.toMove]
    ensures m in s.moves ==> Result(k, s, m).moves == RemoveFirst(s.moves, m) && |Result(k, s, m).moves| == |s.moves| - 1
    ensures m in s.moves ==> Result(k, s, m).toMove == Switch(s.toMove) && Result(k, s, m).move == Some(m)
    ensures m in s.moves ==> Result(k, s, m).utility == ComputeUtility(k, Result(k, s, m).board, m, s.toMove)
  {
  }

  /** Removing a square from a list removes exactly its first occurrence's square, if listed once. */
  lemma RemoveFirstMembers(xs: seq<Pos>, m: Pos)
    requires NoDup(xs) && m in xs
    ensures forall p :: p in RemoveFirst(xs, m) <==> p in xs && p != m
    ensures NoDup(RemoveFirst(xs, m))
  {
    var i := IndexOf(xs, m);
    RemoveFirstSplit(xs, m);
    DropMembers(xs, i);
    DropNoDup(xs, i);
  }

  /** Dropping the element at `i` of a duplicate-free list removes exactly that element. */
  lemma DropMembers(xs: seq<Pos>, i: nat)
    requires NoDup(xs) && i < |xs|
    ensures forall p :: p in xs[..i] + xs[i + 1..] <==> p in xs && p != xs[i]
  {
    var r := xs[..i] + xs[i + 1..];
    forall p ensures p in r <==> p in xs && p != xs[i] {
      if p in r {
        var j :| 0 <= j < |r| && r[j] == p;
        if j < i { assert xs[j] == p; } else { assert xs[j + 1] == p; }
      }
      if p in xs && p != xs[i] {
        var j :| 0 <= j < |xs| && xs[j] == p;
        if j < i { assert r[j] == p; } else { assert r[j - 1] == p; }
      }
    }
  }

  lemma DropNoDup(xs: seq<Pos>, i: nat)
    requires NoDup(xs) && i < |xs|
    ensures NoDup(xs[..i] + xs[i + 1..])
  {
    var r := xs[..i] + xs[i + 1..];
    forall a, b | 0 <= a < b < |r| ensures r[a] != r[b] {
      var a', b' := if a < i then a else a + 1, if b < i then b else b + 1;
      assert r[a] == xs[a'] && r[b] == xs[b'];
    }
  }

  /** A move keeps the occupied squares and the empty squares a partition of the grid. */
  lemma ResultKeepsPartition(k: int, s: State, m: Pos, h: int, v: int)
    requires Partition(s, h, v)
    ensures Partition(Result(k, s, m), h, v)
  {
    if m in s.moves {
      RemoveFirstMembers(s.moves, m);
    }
  }

  /** `utility`: the cached utility from X's point of view, negated for O. */
  function Utility(s: State, player: Player): (u: int)
    ensures player == X ==> u == s.utility
    ensures player == O ==> u == -s.utility
  {
    if player == X then s.utility else -s.utility
  }

  /** The two players' utilities always sum to zero. */
  lemma UtilityZeroSum(s: State)
    ensures Utility(s, O) == -Utility(s, X)
  {
  }

  /** `terminal_test`: someone has won, or there are no empty squares left. */
  predicate TerminalTest(s: State) {
    s.utility != 0 || |s.moves| == 0
  }

  /** The state records its last move, and that square is occupied. */
  predicate HasLastMove(s: State) {
    s.move.Some? && s.move.value in s.board
  }

  /** After a legal move the move is recorded, on the board, under the mover's symbol. */
  lemma ResultRecordsMove(k: int, s: State, m: Pos)
    requires m in s.moves
    ensures HasLastMove(Result(k, s, m))
    ensures Result(k, s, m).board[m] == s.toMove == Switch(Result(k, s, m).toMove)
  {
  }
}
