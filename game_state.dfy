/**
 * Positions, players and the immutable game-state snapshot of the k-in-row
 * game, and `gen_state`, which builds a state from two lists of occupied
 * positions.
 */
module GameStates {

  datatype Option<T> = None | Some(value: T)

  /** The two symbols `'X'` (first player, Max) and `'O'`. */
  datatype Player = X | O

  /** A board position `(row, col)`; on a well-formed board `1 <= row, col <= size`. */
  type Pos = (int, int)

  /**
   * The `GameState` named tuple: whose turn it is, the move that led here
   * (`None` for the initial state), the cached utility, the sparse board and
   * the list of still empty squares.
   */
  datatype State = State(
    toMove: Player,
    move: Option<Pos>,
    utility: int,
    board: map<Pos, Player>,
    moves: seq<Pos>)

  /** `switchPlayer`. */
  function Switch(p: Player): (r: Player)
    ensures r != p
  {
    if p == X then O else X
  }

  function SetOf(xs: seq<Pos>): set<Pos> {
    set p | p in xs
  }

  predicate NoDup(xs: seq<Pos>) {
    forall i, j :: 0 <= i < j < |xs| ==> xs[i] != xs[j]
  }

  /** `p` is a position of an `h` by `v` board. */
  predicate InGrid(p: Pos, h: int, v: int) {
    1 <= p.0 <= h && 1 <= p.1 <= v
  }

  /**
   * The invariant that `__init__`/`gen_state` establish and `result` keeps:
   * the occupied positions and the list of empty squares partition the grid,
   * and no empty square is listed twice.
   */
  ghost predicate Partition(s: State, h: int, v: int) {
    && (forall p :: p in s.board ==> p !in s.moves)
    && (forall p :: p in s.board || p in s.moves <==> InGrid(p, h, v))
    && NoDup(s.moves)
  }

  /** Lexicographic order on positions: by row, then by column. */
  predicate LexLess(p: Pos, q: Pos) {
    p.0 < q.0 || (p.0 == q.0 && p.1 < q.1)
  }

  /**
   * The list `[(x, y) for x in range(1, rows + 1) for y in range(1, size + 1)]`
   * of `__init__`: positions of the grid in row-major order.
   */
  function GridList(rows: int, size: int): (r: seq<Pos>)
    ensures forall i :: 0 <= i < |r| ==> 1 <= r[i].0 <= rows && 1 <= r[i].1 <= size
    ensures forall i, j :: 0 <= i < j < |r| ==> LexLess(r[i], r[j])
    decreases rows
  {
    if rows <= 0 then [] else GridList(rows - 1, size) + RowList(rows, size)
  }

  /** The positions `(x, 1), ..., (x, size)` of one row, in order. */
  function RowList(x: int, size: int): (r: seq<Pos>)
    ensures |r| == if size <= 0 then 0 else size
    ensures forall j :: 0 <= j < |r| ==> r[j] == (x, j + 1)
    decreases size
  {
    if size <= 0 then [] else RowList(x, size - 1) + [(x, size)]
  }

  /** The row-major list holds every grid position, each exactly once. */
  lemma {:induction false} GridListPartition(rows: int, size: int)
    ensures forall p :: p in GridList(rows, size) <==> InGrid(p, rows, size)
    ensures NoDup(GridList(rows, size))
    decreases rows
  {
    var g := GridList(rows, size);
    if rows > 0 {
      GridListPartition(rows - 1, size);
      var pre, row := GridList(rows - 1, size), RowList(rows, size);
      assert g == pre + row;
      forall p | InGrid(p, rows, size) ensures p in g {
        if p.0 < rows {
          assert InGrid(p, rows - 1, size);
          assert p in pre;
        } else {
          assert row[p.1 - 1] == p;
        }
      }
    }
  }

  /** `list(s)` of a set: its elements, each once, in an unspecified order. */
  method ListOf(s: set<Pos>) returns (xs: seq<Pos>)
    ensures forall p :: p in xs <==> p in s
    ensures NoDup(xs)
  {
    var rest := s;
    xs := [];
    while rest != {}
      invariant forall p :: p in xs || p in rest <==> p in s
      invariant forall p :: p in rest ==> p !in xs
      invariant NoDup(xs)
      decreases |rest|
    {
      var p :| p in rest;
      xs := xs + [p];
      rest := rest - {p};
    }
  }

  /** One of the `for pos in ...: board[pos] = ...` loops of `gen_state`. */
  method Place(board: map<Pos, Player>, ps: seq<Pos>, who: Player) returns (b: map<Pos, Player>)
    ensures forall p :: p in b <==> p in board || p in ps
    ensures forall p :: p in ps ==> b[p] == who
    ensures forall p :: p in board && p !in ps ==> b[p] == board[p]
  {
    b := board;
    var i := 0;
    while i < |ps|
      invariant 0 <= i <= |ps|
      invariant forall p :: p in b <==> p in board || p in ps[..i]
      invariant forall p :: p in ps[..i] ==> b[p] == who
      invariant forall p :: p in board && p !in ps[..i] ==> b[p] == board[p]
    {
      assert ps[..i + 1] == ps[..i] + [ps[i]];
      b := b[ps[i] := who];
      i := i + 1;
    }
    assert ps[..|ps|] == ps;
  }

  /**
   * `gen_state`: X's positions are written first and O's second, so a
   * position listed for both players ends up holding O. The empty squares
   * come from a set, so their order is not determined.
   */
  method GenState(move: Option<Pos>, toMove: Player, xs: seq<Pos>, os: seq<Pos>, h: int, v: int)
    returns (s: State)
    ensures s.toMove == toMove && s.move == move && s.utility == 0
    ensures forall p :: p in s.board <==> p in xs || p in os
    ensures forall p :: p in os ==> s.board[p] == O
    ensures forall p :: p in xs && p !in os ==> s.board[p] == X
    ensures forall p :: p in s.moves <==> InGrid(p, h, v) && p !in xs && p !in os
    ensures NoDup(s.moves)
    ensures (forall p :: p in xs || p in os ==> InGrid(p, h, v)) ==> Partition(s, h, v)
  {
    GridListPartition(h, v);
    var rest := SetOf(GridList(h, v)) - SetOf(xs) - SetOf(os);
    var moves := ListOf(rest);
    var board := Place(map[], xs, X);
    board := Place(board, os, O);
    s := State(toMove, move, 0, board, moves);
  }
}
