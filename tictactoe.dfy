/**
 * Tic-tac-toe on a 3x3 board: the rules (initial state, whose turn it is,
 * legal moves, the board after a move, the winner, the end of the game and
 * its utility) and the alpha-beta minimax search that picks a move.
 *
 * A board is a 3x3 grid of cells; a cell holds a mark or EMPTY.  Boards are
 * values: `Result` builds a new board and never touches the one it is given.
 * The search uses -2 and 2 where the program uses minus and plus infinity;
 * both lie outside every utility, which is what the sentinels are for.
 */
module TicTacToe {
  import opened Wrappers

  datatype Mark = X | O

  /** A cell holds a mark, or EMPTY (`None`). */
  type Cell = Option<Mark>
  type Board = seq<seq<Cell>>
  /** A move `(i, j)`: row, then column. */
  type Action = (int, int)

  const EMPTY: Cell := None

  /** Stand-ins for float('-inf') and float('inf'). */
  const NEG_INF: int := -2
  const POS_INF: int := 2

  predicate ValidBoard(b: Board) {
    |b| == 3 && forall r :: 0 <= r < 3 ==> |b[r]| == 3
  }

  predicate InRange(a: Action) {
    0 <= a.0 < 3 && 0 <= a.1 < 3
  }

  function Other(m: Mark): Mark {
    if m == X then O else X
  }

  function Ind(c: bool): nat {
    if c then 1 else 0
  }

  function InitialState(): (b: Board)
    ensures ValidBoard(b)
    ensures forall i, j :: 0 <= i < 3 && 0 <= j < 3 ==> b[i][j] == EMPTY
  {
    [[EMPTY, EMPTY, EMPTY],
     [EMPTY, EMPTY, EMPTY],
     [EMPTY, EMPTY, EMPTY]]
  }

  // ---------------------------------------------------------------------
  // Counting marks
  // ---------------------------------------------------------------------

  /** `row.count(c)` */
  function RowCount(row: seq<Cell>, c: Cell): (n: nat)
    ensures n <= |row|
  {
    if row == [] then 0 else Ind(row[0] == c) + RowCount(row[1..], c)
  }

  /** `sum([row.count(c) for row in board])` */
  function BoardCount(b: Board, c: Cell): nat {
    if b == [] then 0 else RowCount(b[0], c) + BoardCount(b[1..], c)
  }

  /** The number of the nine cells that hold `c`, written out cell by cell. */
  function CellSum(b: Board, c: Cell): nat
    requires ValidBoard(b)
  {
    Ind(b[0][0] == c) + Ind(b[0][1] == c) + Ind(b[0][2] == c) +
    Ind(b[1][0] == c) + Ind(b[1][1] == c) + Ind(b[1][2] == c) +
    Ind(b[2][0] == c) + Ind(b[2][1] == c) + Ind(b[2][2] == c)
  }

  lemma RowCountCells(row: seq<Cell>, c: Cell)
    requires |row| == 3
    ensures RowCount(row, c) == Ind(row[0] == c) + Ind(row[1] == c) + Ind(row[2] == c)
  {
    var r1, r2, r3 := row[1..], row[2..], row[3..];
    assert r1[0] == row[1] && r1[1..] == r2;
    assert r2[0] == row[2] && r2[1..] == r3;
    assert r3 == [];
    assert RowCount(r2, c) == Ind(row[2] == c) + RowCount(r3, c);
    assert RowCount(r1, c) == Ind(row[1] == c) + RowCount(r2, c);
  }

  lemma BoardCountRows(b: Board, c: Cell)
    requires |b| == 3
    ensures BoardCount(b, c) == RowCount(b[0], c) + RowCount(b[1], c) + RowCount(b[2], c)
  {
    var b1, b2, b3 := b[1..], b[2..], b[3..];
    assert b1[0] == b[1] && b1[1..] == b2;
    assert b2[0] == b[2] && b2[1..] == b3;
    assert b3 == [];
    assert BoardCount(b2, c) == RowCount(b[2], c) + BoardCount(b3, c);
    assert BoardCount(b1, c) == RowCount(b[1], c) + BoardCount(b2, c);
  }

  /** Counting row by row is counting cell by cell. */
  lemma BoardCountCells(b: Board, c: Cell)
    requires ValidBoard(b)
    ensures BoardCount(b, c) == CellSum(b, c)
  {
    BoardCountRows(b, c);
    RowCountCells(b[0], c);
    RowCountCells(b[1], c);
    RowCountCells(b[2], c);
  }

  /** Marking one cell changes the count of a cell value by that cell alone. */
  lemma BoardCountUpdate(b: Board, a: Action, v: Cell, c: Cell)
    requires ValidBoard(b) && InRange(a)
    ensures BoardCount(b[a.0 := b[a.0][a.1 := v]], c) ==
            BoardCount(b, c) - Ind(b[a.0][a.1] == c) + Ind(v == c)
  {
    var r := b[a.0 := b[a.0][a.1 := v]];
    BoardCountRows(b, c);
    BoardCountRows(r, c);
    RowCountUpdate(b[a.0], a.1, v, c);
  }

  /** Marking one cell of a row changes its count by that cell alone. */
  lemma RowCountUpdate(row: seq<Cell>, j: int, v: Cell, c: Cell)
    requires |row| == 3 && 0 <= j < 3
    ensures RowCount(row[j := v], c) == RowCount(row, c) - Ind(row[j] == c) + Ind(v == c)
  {
    RowCountCells(row, c);
    RowCountCells(row[j := v], c);
  }

  lemma CellPartition(x: Cell)
    ensures Ind(x == Some(X)) + Ind(x == Some(O)) + Ind(x == EMPTY) == 1
  {
    match x
    case None =>
    case Some(m) => assert m == X || m == O;
  }

  /** The number of EMPTY cells. */
  function Empties(b: Board): nat {
    BoardCount(b, EMPTY)
  }

  /** `count`: the numbers of X marks and of O marks. */
  function Count(b: Board): (r: (nat, nat))
    requires ValidBoard(b)
    ensures r.0 + r.1 + Empties(b) == 9
  {
    BoardCountCells(b, Some(X));
    BoardCountCells(b, Some(O));
    BoardCountCells(b, EMPTY);
    CellPartition(b[0][0]); CellPartition(b[0][1]); CellPartition(b[0][2]);
    CellPartition(b[1][0]); CellPartition(b[1][1]); CellPartition(b[1][2]);
    CellPartition(b[2][0]); CellPartition(b[2][1]); CellPartition(b[2][2]);
    (BoardCount(b, Some(X)), BoardCount(b, Some(O)))
  }

  /**
   * `player`: X moves when both have played equally often, otherwise O.
   * In a game from the initial state X moves exactly when an odd number
   * of cells is empty.
   */
  function Player(b: Board): (m: Mark)
    requires ValidBoard(b)
    ensures Reachable(b) ==> (m == X <==> Empties(b) % 2 == 1)
  {
    var (xs, os) := Count(b);
    if xs == os then X else O
  }

  lemma InitialStateStart()
    ensures Count(InitialState()) == (0, 0)
    ensures Player(InitialState()) == X
    ensures Empties(InitialState()) == 9
  {
    BoardCountCells(InitialState(), Some(X));
    BoardCountCells(InitialState(), Some(O));
  }

  // ---------------------------------------------------------------------
  // Moves
  // ---------------------------------------------------------------------

  /** The legal moves: the empty cells. */
  function EmptyCells(b: Board): set<Action>
    requires ValidBoard(b)
  {
    set i, j | 0 <= i < 3 && 0 <= j < 3 && b[i][j] == EMPTY :: (i, j)
  }

  /** `actions`: collects the empty cells row by row. */
  method Actions(b: Board) returns (allActions: set<Action>)
    requires ValidBoard(b)
    ensures allActions == EmptyCells(b)
  {
    allActions := {};
    for i := 0 to 3
      invariant allActions == set r, c | 0 <= r < i && 0 <= c < 3 && b[r][c] == EMPTY :: (r, c)
    {
      ghost var before := allActions;
      for j := 0 to 3
        invariant allActions == before + set c | 0 <= c < j && b[i][c] == EMPTY :: (i, c)
      {
        if b[i][j] == EMPTY {
          allActions := allActions + {(i, j)};
        }
      }
    }
  }

  /** The board after the player to move marks the empty cell `a`. */
  function Successor(b: Board, a: Action): (r: Board)
    requires ValidBoard(b) && InRange(a) && b[a.0][a.1] == EMPTY
    ensures ValidBoard(r)
    ensures r[a.0][a.1] == Some(Player(b))
    ensures forall i, j :: 0 <= i < 3 && 0 <= j < 3 && (i, j) != a ==> r[i][j] == b[i][j]
    ensures Empties(r) == Empties(b) - 1
    ensures BoardCount(r, Some(Player(b))) == BoardCount(b, Some(Player(b))) + 1
    ensures BoardCount(r, Some(Other(Player(b)))) == BoardCount(b, Some(Other(Player(b))))
  {
    var p := Player(b);
    var r := b[a.0 := b[a.0][a.1 := Some(p)]];
    BoardCountUpdate(b, a, Some(p), EMPTY);
    BoardCountUpdate(b, a, Some(p), Some(p));
    BoardCountUpdate(b, a, Some(p), Some(Other(p)));
    r
  }

  /** What `result` gives back: a new board, or the exception for an occupied cell. */
  datatype MoveOutcome = Moved(board: Board) | NotValidMove

  /**
   * `result`: a copy of the board with the mover's mark at the chosen cell;
   * an occupied cell is an invalid move, and a missing action (`None` or `()`)
   * gives back an unchanged copy.
   */
  function Result(b: Board, action: Option<Action>): (r: MoveOutcome)
    requires ValidBoard(b)
    requires action.Some? ==> InRange(action.value)
    ensures action.None? ==> r == Moved(b)
    ensures action.Some? ==> (r.NotValidMove? <==> b[action.value.0][action.value.1] != EMPTY)
    ensures r.Moved? ==> ValidBoard(r.board)
    ensures r.Moved? && action.Some? ==>
      && r.board[action.value.0][action.value.1] == Some(Player(b))
      && (forall i, j :: 0 <= i < 3 && 0 <= j < 3 && (i, j) != action.value ==> r.board[i][j] == b[i][j])
      && Empties(r.board) == Empties(b) - 1
      && Count(r.board).0 + Count(r.board).1 == Count(b).0 + Count(b).1 + 1
  {
    match action
    case None => Moved(b)
    case Some(a) =>
      if b[a.0][a.1] != EMPTY then NotValidMove else Moved(Successor(b, a))
  }

  /** Counts in a game that started from the initial state: X is never behind, never two ahead. */
  predicate Reachable(b: Board)
    requires ValidBoard(b)
  {
    Count(b).1 <= Count(b).0 <= Count(b).1 + 1
  }

  /** A move hands the turn to the other player, and counts stay as in a real game. */
  lemma PlayerAlternates(b: Board, a: Action)
    requires ValidBoard(b) && InRange(a) && b[a.0][a.1] == EMPTY && Reachable(b)
    ensures Reachable(Successor(b, a))
    ensures Player(Successor(b, a)) == Other(Player(b))
  {
    var r := Successor(b, a);
    if Player(b) == X {
      assert Count(r).0 == Count(b).0 + 1 && Count(r).1 == Count(b).1;
    } else {
      assert Count(r).1 == Count(b).1 + 1 && Count(r).0 == Count(b).0;
    }
  }

  // ---------------------------------------------------------------------
  // Winner, end of game, utility
  // ---------------------------------------------------------------------

  function CellAt(b: Board, p: Action): Cell
    requires ValidBoard(b) && InRange(p)
  {
    b[p.0][p.1]
  }

  /** `b[p] == b[q] == b[s]`: the three cells are equal (possibly all EMPTY). */
  predicate Same(b: Board, p: Action, q: Action, s: Action)
    requires ValidBoard(b) && InRange(p) && InRange(q) && InRange(s)
  {
    CellAt(b, p) == CellAt(b, q) && CellAt(b, q) == CellAt(b, s)
  }

  /** The three cells all hold the mark `m`. */
  predicate Filled(b: Board, m: Mark, p: Action, q: Action, s: Action)
    requires ValidBoard(b) && InRange(p) && InRange(q) && InRange(s)
  {
    CellAt(b, p) == Some(m) && CellAt(b, q) == Some(m) && CellAt(b, s) == Some(m)
  }

  /** `m` fills a whole row, column or diagonal. */
  predicate Wins(b: Board, m: Mark)
    requires ValidBoard(b)
  {
    || Filled(b, m, (0, 0), (0, 1), (0, 2))
    || Filled(b, m, (1, 0), (1, 1), (1, 2))
    || Filled(b, m, (2, 0), (2, 1), (2, 2))
    || Filled(b, m, (0, 0), (1, 0), (2, 0))
    || Filled(b, m, (0, 1), (1, 1), (2, 1))
    || Filled(b, m, (0, 2), (1, 2), (2, 2))
    || Filled(b, m, (0, 0), (1, 1), (2, 2))
    || Filled(b, m, (0, 2), (1, 1), (2, 0))
  }

  /** A line needs three marks of its player. */
  lemma WinsNeedsThreeMarks(b: Board, m: Mark)
    requires ValidBoard(b) && Wins(b, m)
    ensures BoardCount(b, Some(m)) >= 3
  {
    BoardCountCells(b, Some(m));
  }

  /**
   * `winner` exactly as the program has it: every line test compares the
   * three cells for equality only, so a line of three EMPTY cells ends the
   * search and hides a complete line checked after it.
   */
  function WinnerAsWritten(b: Board): (r: Option<Mark>)
    requires ValidBoard(b)
    ensures Count(b).0 <= 2 && Count(b).1 <= 2 ==> r == None
    ensures r.Some? ==> Wins(b, r.value)
  {
    var (xs, os) := Count(b);
    if xs <= 2 && os <= 2 then None
    else if Same(b, (0, 0), (1, 1), (2, 2)) || Same(b, (0, 2), (1, 1), (2, 0)) then b[1][1]
    else if Same(b, (0, 0), (1, 0), (2, 0)) then b[1][0]
    else if Same(b, (0, 2), (1, 2), (2, 2)) then b[1][2]
    else if Same(b, (2, 0), (2, 1), (2, 2)) then b[2][1]
    else if Same(b, (0, 0), (0, 1), (0, 2)) then b[0][1]
    else if Same(b, (1, 0), (1, 1), (1, 2)) then b[1][1]
    else if Same(b, (0, 1), (1, 1), (2, 1)) then b[1][1]
    else None
  }

  /**
   * X has filled the right-hand column, the left-hand column is empty:
   * `WinnerAsWritten` stops at the empty column and reports no winner.
   */
  lemma WinnerAsWrittenMissesColumn()
    ensures var b := [[EMPTY, Some(O), Some(X)],
                      [EMPTY, Some(O), Some(X)],
                      [EMPTY, EMPTY, Some(X)]];
            ValidBoard(b) && Count(b) == (3, 2) && Reachable(b) &&
            Wins(b, X) && WinnerAsWritten(b) == None && Winner(b) == Some(X)
  {
    var b := [[EMPTY, Some(O), Some(X)],
              [EMPTY, Some(O), Some(X)],
              [EMPTY, EMPTY, Some(X)]];
    BoardCountCells(b, Some(X));
    BoardCountCells(b, Some(O));
  }

  /** Three equal cells that are not EMPTY. */
  predicate Full(b: Board, p: Action, q: Action, s: Action)
    requires ValidBoard(b) && InRange(p) && InRange(q) && InRange(s)
  {
    CellAt(b, p) != EMPTY && Same(b, p, q, s)
  }

  /** Either mark winning means some mark wins. */
  lemma SomeMarkWins(b: Board, m: Mark)
    requires ValidBoard(b) && Wins(b, m)
    ensures Wins(b, X) || Wins(b, O)
  {
    match m
    case X =>
    case O =>
  }

  /** The line tests of `winner`, each asking for three equal marks, in the program's order. */
  function LineWinner(b: Board): (r: Option<Mark>)
    requires ValidBoard(b)
    ensures r.Some? ==> Wins(b, r.value)
    ensures r.None? ==> !Wins(b, X) && !Wins(b, O)
  {
    if Full(b, (0, 0), (1, 1), (2, 2)) || Full(b, (0, 2), (1, 1), (2, 0)) then b[1][1]
    else if Full(b, (0, 0), (1, 0), (2, 0)) then b[1][0]
    else if Full(b, (0, 2), (1, 2), (2, 2)) then b[1][2]
    else if Full(b, (2, 0), (2, 1), (2, 2)) then b[2][1]
    else if Full(b, (0, 0), (0, 1), (0, 2)) then b[0][1]
    else if Full(b, (1, 0), (1, 1), (1, 2)) then b[1][1]
    else if Full(b, (0, 1), (1, 1), (2, 1)) then b[1][1]
    else None
  }

  /**
   * `winner` with each line test asking for three equal marks; a line of
   * EMPTY cells no longer stops the search.  The early answer for boards
   * where neither player has three marks is kept.
   */
  function Winner(b: Board): (r: Option<Mark>)
    requires ValidBoard(b)
    ensures r.Some? ==> Wins(b, r.value)
    ensures r.None? <==> !Wins(b, X) && !Wins(b, O)
  {
    var (xs, os) := Count(b);
    if xs <= 2 && os <= 2 then
      if Wins(b, X) then WinsNeedsThreeMarks(b, X); None
      else if Wins(b, O) then WinsNeedsThreeMarks(b, O); None
      else None
    else
      var r := LineWinner(b);
      if r.Some? then SomeMarkWins(b, r.value); r else r
  }

  /** `winner` as written agrees with the corrected one whenever it names a winner. */
  lemma WinnerAsWrittenSound(b: Board)
    requires ValidBoard(b) && WinnerAsWritten(b).Some?
    ensures Winner(b).Some?
  {
  }

  /** No cell is EMPTY exactly when all nine are marked. */
  lemma NoEmptyCells(b: Board)
    requires ValidBoard(b)
    ensures EmptyCells(b) == {} <==> Count(b).0 + Count(b).1 == 9
  {
    BoardCountCells(b, EMPTY);
    if Empties(b) > 0 {
      if b[0][0] == EMPTY { assert (0, 0) in EmptyCells(b); }
      else if b[0][1] == EMPTY { assert (0, 1) in EmptyCells(b); }
      else if b[0][2] == EMPTY { assert (0, 2) in EmptyCells(b); }
      else if b[1][0] == EMPTY { assert (1, 0) in EmptyCells(b); }
      else if b[1][1] == EMPTY { assert (1, 1) in EmptyCells(b); }
      else if b[1][2] == EMPTY { assert (1, 2) in EmptyCells(b); }
      else if b[2][0] == EMPTY { assert (2, 0) in EmptyCells(b); }
      else if b[2][1] == EMPTY { assert (2, 1) in EmptyCells(b); }
      else { assert (2, 2) in EmptyCells(b); }
    }
  }

  /**
   * Which `winner` a game is played under: the program's own, or the
   * corrected one.  `terminal`, `utility` and the search all ask `winner`,
   * so each of them is modelled under both.
   */
  datatype Rules = AsWritten | Corrected

  /** `winner` under the given rules. */
  function WinnerUnder(rules: Rules, b: Board): (r: Option<Mark>)
    requires ValidBoard(b)
    ensures r.Some? ==> Wins(b, r.value)
    ensures rules == Corrected ==> (r.None? <==> !Wins(b, X) && !Wins(b, O))
  {
    match rules
    case AsWritten => WinnerAsWritten(b)
    case Corrected => Winner(b)
  }

  /**
   * `terminal`: `winner` names a mark, or all nine cells are marked.  The
   * game never ends without a filled line or a full board; under the
   * corrected rules every filled line ends it.
   */
  function Terminal(rules: Rules, b: Board): (t: bool)
    requires ValidBoard(b)
    ensures t <==> WinnerUnder(rules, b).Some? || EmptyCells(b) == {}
    ensures t ==> Wins(b, X) || Wins(b, O) || EmptyCells(b) == {}
    ensures rules == Corrected ==> (t <==> Wins(b, X) || Wins(b, O) || EmptyCells(b) == {})
  {
    NoEmptyCells(b);
    var status := WinnerUnder(rules, b);
    var (xs, os) := Count(b);
    if status.Some? then SomeMarkWins(b, status.value); true
    else xs + os == 9
  }

  /** `utility`: 1 when `winner` names X, -1 when it names O, 0 otherwise. */
  function Utility(rules: Rules, b: Board): (u: int)
    requires ValidBoard(b)
    ensures -1 <= u <= 1
    ensures u == 1 <==> WinnerUnder(rules, b) == Some(X)
    ensures u == -1 <==> WinnerUnder(rules, b) == Some(O)
    ensures u == 1 ==> Wins(b, X)
    ensures u == -1 ==> Wins(b, O)
    ensures u != 0 ==> Terminal(rules, b)
  {
    var whoWon := WinnerUnder(rules, b);
    if whoWon == Some(X) then 1
    else if whoWon == Some(O) then -1
    else 0
  }

  // ---------------------------------------------------------------------
  // The game value: the reference the search is proved against
  // ---------------------------------------------------------------------

  function Max(a: int, b: int): int { if a >= b then a else b }
  function Min(a: int, b: int): int { if a <= b then a else b }

  /** Cell number k, row by row. */
  function Pos(k: int): Action
    requires 0 <= k < 9
  {
    (k / 3, k % 3)
  }

  function Index(a: Action): int {
    3 * a.0 + a.1
  }

  /** Value of the game tree below `b` when the maximising side is to move. */
  ghost function MaxValue(rules: Rules, b: Board): (v: int)
    requires ValidBoard(b)
    ensures -1 <= v <= 1
    decreases Empties(b), 2, 0
  {
    if Terminal(rules, b) then Utility(rules, b)
    else
      assert exists a :: a in EmptyCells(b);
      var a :| a in EmptyCells(b);
      assert Pos(Index(a)) == a;
      BestMax(rules, b, 0)
  }

  /** The largest MinValue over moves into cells k..8; NEG_INF when there is none. */
  ghost function BestMax(rules: Rules, b: Board, k: int): (v: int)
    requires ValidBoard(b) && 0 <= k <= 9
    ensures NEG_INF <= v <= 1
    ensures (exists m :: k <= m < 9 && CellAt(b, Pos(m)) == EMPTY) ==> v >= -1
    decreases Empties(b), 1, 9 - k
  {
    if k == 9 then NEG_INF
    else
      var rest := BestMax(rules, b, k + 1);
      if CellAt(b, Pos(k)) == EMPTY then Max(MinAfter(rules, b, Pos(k)), rest) else rest
  }

  /** The value of the move `a` for the maximising side: the minimising side moves next. */
  ghost function MinAfter(rules: Rules, b: Board, a: Action): (v: int)
    requires ValidBoard(b) && a in EmptyCells(b)
    ensures -1 <= v <= 1
    decreases Empties(b), 0, 0
  {
    MinValue(rules, Successor(b, a))
  }

  /** Value of the game tree below `b` when the minimising side is to move. */
  ghost function MinValue(rules: Rules, b: Board): (v: int)
    requires ValidBoard(b)
    ensures -1 <= v <= 1
    decreases Empties(b), 2, 0
  {
    if Terminal(rules, b) then Utility(rules, b)
    else
      assert exists a :: a in EmptyCells(b);
      var a :| a in EmptyCells(b);
      assert Pos(Index(a)) == a;
      BestMin(rules, b, 0)
  }

  /** The smallest MaxValue over moves into cells k..8; POS_INF when there is none. */
  ghost function BestMin(rules: Rules, b: Board, k: int): (v: int)
    requires ValidBoard(b) && 0 <= k <= 9
    ensures -1 <= v <= POS_INF
    ensures (exists m :: k <= m < 9 && CellAt(b, Pos(m)) == EMPTY) ==> v <= 1
    decreases Empties(b), 1, 9 - k
  {
    if k == 9 then POS_INF
    else
      var rest := BestMin(rules, b, k + 1);
      if CellAt(b, Pos(k)) == EMPTY then Min(MaxAfter(rules, b, Pos(k)), rest) else rest
  }

  /** The value of the move `a` for the minimising side: the maximising side moves next. */
  ghost function MaxAfter(rules: Rules, b: Board, a: Action): (v: int)
    requires ValidBoard(b) && a in EmptyCells(b)
    ensures -1 <= v <= 1
    decreases Empties(b), 0, 0
  {
    MaxValue(rules, Successor(b, a))
  }

  /** BestMax is at least the value of every move it ranges over. */
  lemma {:induction false} BestMaxAtLeast(rules: Rules, b: Board, k: int, a: Action)
    requires ValidBoard(b) && 0 <= k <= 9 && a in EmptyCells(b) && k <= Index(a)
    ensures MinAfter(rules, b, a) <= BestMax(rules, b, k)
    decreases 9 - k
  {
    if Index(a) == k {
      assert Pos(k) == a;
    } else {
      BestMaxAtLeast(rules, b, k + 1, a);
    }
  }

  /** BestMax is at most any bound on the values of the moves it ranges over. */
  lemma {:induction false} BestMaxAtMost(rules: Rules, b: Board, k: int, bound: int)
    requires ValidBoard(b) && 0 <= k <= 9 && bound >= NEG_INF
    requires forall a :: a in EmptyCells(b) && k <= Index(a) ==> MinAfter(rules, b, a) <= bound
    ensures BestMax(rules, b, k) <= bound
    decreases 9 - k
  {
    if k < 9 {
      BestMaxAtMost(rules, b, k + 1, bound);
      if CellAt(b, Pos(k)) == EMPTY {
        assert Pos(k) in EmptyCells(b) && Index(Pos(k)) == k;
      }
    }
  }

  /** BestMin is at most the value of every move it ranges over. */
  lemma {:induction false} BestMinAtMost(rules: Rules, b: Board, k: int, a: Action)
    requires ValidBoard(b) && 0 <= k <= 9 && a in EmptyCells(b) && k <= Index(a)
    ensures BestMin(rules, b, k) <= MaxAfter(rules, b, a)
    decreases 9 - k
  {
    if Index(a) == k {
      assert Pos(k) == a;
    } else {
      BestMinAtMost(rules, b, k + 1, a);
    }
  }

  /** BestMin is at least any lower bound on the values of the moves it ranges over. */
  lemma {:induction false} BestMinAtLeast(rules: Rules, b: Board, k: int, bound: int)
    requires ValidBoard(b) && 0 <= k <= 9 && bound <= POS_INF
    requires forall a :: a in EmptyCells(b) && k <= Index(a) ==> bound <= MaxAfter(rules, b, a)
    ensures bound <= BestMin(rules, b, k)
    decreases 9 - k
  {
    if k < 9 {
      BestMinAtLeast(rules, b, k + 1, bound);
      if CellAt(b, Pos(k)) == EMPTY {
        assert Pos(k) in EmptyCells(b) && Index(Pos(k)) == k;
      }
    }
  }

  /**
   * Under the program's own `winner` a game goes on past a filled line.
   * X has filled the middle row, but the empty bottom row is checked first
   * and hides it: the game is not over and scores 0, where the corrected
   * rules end it with X the winner.  O, to move, completes the top row with
   * (0, 2); the bottom row is still empty, so play goes on, and whatever X
   * plays next the top row is found and O is scored the winner.  So the
   * position is worth -1 under the program's rules and 1 under the
   * corrected ones.
   */
  lemma SearchAsWrittenPlaysOn()
    ensures var b := [[Some(O), Some(O), EMPTY],
                      [Some(X), Some(X), Some(X)],
                      [EMPTY, EMPTY, EMPTY]];
            && ValidBoard(b) && Reachable(b) && Player(b) == O && Wins(b, X)
            && !Terminal(AsWritten, b) && Utility(AsWritten, b) == 0
            && Terminal(Corrected, b) && Utility(Corrected, b) == 1
            && MinValue(AsWritten, b) == -1 && MinValue(Corrected, b) == 1
  {
    PlaysOnCount();
    PlaysOnRules();
    PlaysOnSearch();
  }

  /** The position of `SearchAsWrittenPlaysOn`; O is to move. */
  function PlaysOn(): (b: Board)
    ensures ValidBoard(b)
  {
    [[Some(O), Some(O), EMPTY],
     [Some(X), Some(X), Some(X)],
     [EMPTY, EMPTY, EMPTY]]
  }

  /** Three X marks and two O marks on `PlaysOn`, so O is to move. */
  lemma PlaysOnCount()
    ensures Count(PlaysOn()) == (3, 2) && Reachable(PlaysOn()) && Player(PlaysOn()) == O
  {
    var b := PlaysOn();
    BoardCountCells(b, Some(X));
    BoardCountCells(b, Some(O));
    assert CellSum(b, Some(X)) == 3 && CellSum(b, Some(O)) == 2;
  }

  /** On `PlaysOn` X has a line, which only the corrected rules see. */
  lemma PlaysOnRules()
    ensures Wins(PlaysOn(), X)
    ensures !Terminal(AsWritten, PlaysOn()) && Utility(AsWritten, PlaysOn()) == 0
    ensures Terminal(Corrected, PlaysOn()) && Utility(Corrected, PlaysOn()) == 1
  {
    var b := PlaysOn();
    PlaysOnCount();
    assert Same(b, (1, 0), (1, 1), (1, 2));
    assert WinnerAsWritten(b) == None;
  }

  /** Under the program's rules O completes the top row and goes on to be scored the winner. */
  lemma PlaysOnSearch()
    ensures MinValue(AsWritten, PlaysOn()) == -1
  {
    var b := PlaysOn();
    PlaysOnCount();
    PlaysOnRules();
    assert (0, 2) in EmptyCells(b);
    TopRowIsSuccessor();
    TopRowForOLoses();
    BestMinAtMost(AsWritten, b, 0, (0, 2));
  }

  /** O's move into (0, 2) on `PlaysOn` gives `TopRowForO`. */
  lemma TopRowIsSuccessor()
    requires Player(PlaysOn()) == O
    ensures Successor(PlaysOn(), (0, 2)) == TopRowForO()
  {
    var b := PlaysOn();
    var r := Successor(b, (0, 2));
    assert r == b[0 := b[0][2 := Some(O)]];
    assert r[0] == TopRowForO()[0] && r[1] == TopRowForO()[1] && r[2] == TopRowForO()[2];
  }

  /** The board after O completes the top row in `SearchAsWrittenPlaysOn`; X is to move. */
  function TopRowForO(): (b: Board)
    ensures ValidBoard(b)
  {
    [[Some(O), Some(O), Some(O)],
     [Some(X), Some(X), Some(X)],
     [EMPTY, EMPTY, EMPTY]]
  }

  /** X is to move on `TopRowForO`, the game goes on under the program's rules, and every move loses. */
  lemma TopRowForOLoses()
    ensures !Terminal(AsWritten, TopRowForO())
    ensures MaxValue(AsWritten, TopRowForO()) == -1
  {
    var b := TopRowForO();
    TopRowForOCount();
    assert WinnerAsWritten(b) == None;
    assert (2, 0) in EmptyCells(b);
    forall a | a in EmptyCells(b) && 0 <= Index(a)
      ensures MinAfter(AsWritten, b, a) <= -1
    {
      TopRowForOMove(a);
    }
    BestMaxAtMost(AsWritten, b, 0, -1);
  }

  /** Any X move on `TopRowForO` fills a cell of the bottom row, and then the top row is found. */
  lemma TopRowForOMove(a: Action)
    requires a in EmptyCells(TopRowForO())
    ensures MinAfter(AsWritten, TopRowForO(), a) == -1
  {
    var b := TopRowForO();
    var i, j :| 0 <= i < 3 && 0 <= j < 3 && b[i][j] == EMPTY && a == (i, j);
    assert i == 2;
    TopRowForOCount();
    BottomMoveIsSuccessor(j);
    BottomMoveLoses(j);
  }

  /** Three marks each on `TopRowForO`, so X is to move. */
  lemma TopRowForOCount()
    ensures Count(TopRowForO()) == (3, 3) && Player(TopRowForO()) == X
  {
    var b := TopRowForO();
    BoardCountCells(b, Some(X));
    BoardCountCells(b, Some(O));
    assert CellSum(b, Some(X)) == 3 && CellSum(b, Some(O)) == 3;
  }

  /** X's move into cell `j` of the bottom row of `TopRowForO` gives `BottomMove(j)`. */
  lemma BottomMoveIsSuccessor(j: int)
    requires 0 <= j < 3 && Player(TopRowForO()) == X
    ensures Successor(TopRowForO(), (2, j)) == BottomMove(j)
  {
    var b := TopRowForO();
    var r := Successor(b, (2, j));
    assert r == b[2 := b[2][j := Some(X)]];
    assert r[0] == BottomMove(j)[0] && r[1] == BottomMove(j)[1] && r[2] == BottomMove(j)[2];
  }

  /** `TopRowForO` with X's mark in cell `j` of the bottom row. */
  function BottomMove(j: int): (b: Board)
    requires 0 <= j < 3
    ensures ValidBoard(b)
  {
    [[Some(O), Some(O), Some(O)],
     [Some(X), Some(X), Some(X)],
     [EMPTY, EMPTY, EMPTY][j := Some(X)]]
  }

  /** Once the bottom row holds a mark, the program's `winner` reaches the top row and names O. */
  lemma BottomMoveLoses(j: int)
    requires 0 <= j < 3
    ensures MinValue(AsWritten, BottomMove(j)) == -1
  {
    var b := BottomMove(j);
    BoardCountCells(b, Some(X));
    assert Count(b).0 == 4;
    assert !Same(b, (2, 0), (2, 1), (2, 2));
    assert WinnerAsWritten(b) == Some(O);
  }

  // ---------------------------------------------------------------------
  // Alpha-beta search
  // ---------------------------------------------------------------------

  /** What `maximize`/`minimize` return: the utility of a finished game, or a (value, action) pair. */
  datatype Outcome = Leaf(value: int) | Scored(value: int, action: Action)

  /**
   * The fail-soft alpha-beta guarantee of a returned value `v` against the
   * exact value: at or below alpha it bounds the exact value from above, at
   * or above beta from below, and strictly inside the window it is exact.
   */
  ghost predicate FailSoft(v: int, exact: int, alpha: int, beta: int) {
    && (v <= alpha ==> exact <= v)
    && (v >= beta ==> exact >= v)
    && (alpha < v < beta ==> exact == v)
  }

  /**
   * The first lines of the loop body of `maximize`: the value `minimize`
   * gives the board after `action`, taken out of the pair when it is one.
   */
  method MinimizeAfter(rules: Rules, b: Board, action: Action, alpha: int, beta: int) returns (val: int)
    requires ValidBoard(b) && action in EmptyCells(b)
    requires NEG_INF <= alpha < beta <= POS_INF
    ensures -1 <= val <= 1
    ensures FailSoft(val, MinAfter(rules, b, action), alpha, beta)
    decreases Empties(b), 0
  {
    var next := Result(b, Some(action));
    var returnVal := Minimize(rules, next.board, alpha, beta);
    val := match returnVal
      case Scored(v, _) => v
      case Leaf(v) => v;
  }

  /** The first lines of the loop body of `minimize`, the mirror image of MinimizeAfter. */
  method MaximizeAfter(rules: Rules, b: Board, action: Action, alpha: int, beta: int) returns (val: int)
    requires ValidBoard(b) && action in EmptyCells(b)
    requires NEG_INF <= alpha < beta <= POS_INF
    ensures -1 <= val <= 1
    ensures FailSoft(val, MaxAfter(rules, b, action), alpha, beta)
    decreases Empties(b), 0
  {
    var next := Result(b, Some(action));
    var returnVal := Maximize(rules, next.board, alpha, beta);
    val := match returnVal
      case Scored(v, _) => v
      case Leaf(v) => v;
  }

  /** What the loop of `maximize` knows once the moves in `done` are tried and no cut-off happened. */
  ghost predicate MaxLoop(rules: Rules, b: Board, alpha: int, beta: int, done: set<Action>, maxVal: int, best: Option<Action>)
    requires ValidBoard(b)
  {
    && done <= EmptyCells(b)
    && maxVal < beta
    && (done == {} ==> maxVal == NEG_INF)
    && (done != {} ==> -1 <= maxVal <= 1 && best.Some? && best.value in done)
    && (forall d :: d in done ==> MinAfter(rules, b, d) <= maxVal)
    && (alpha < maxVal ==> best.Some? && best.value in done && MinAfter(rules, b, best.value) == maxVal)
  }

  /** One more move tried by `maximize`: the loop facts carry over, or the cut-off is justified. */
  lemma MaxLoopStep(rules: Rules, b: Board, alpha: int, beta: int, done: set<Action>, maxVal: int, best: Option<Action>,
                    action: Action, val: int, newMax: int, newBest: Option<Action>)
    requires ValidBoard(b) && NEG_INF <= alpha < beta
    requires MaxLoop(rules, b, alpha, beta, done, maxVal, best)
    requires action in EmptyCells(b) && action !in done && -1 <= val <= 1
    requires FailSoft(val, MinAfter(rules, b, action), Max(alpha, maxVal), beta)
    requires newMax == (if val > maxVal then val else maxVal)
    requires newBest == (if val > maxVal then Some(action) else best)
    ensures newMax < beta ==> MaxLoop(rules, b, alpha, beta, done + {action}, newMax, newBest)
    ensures newMax >= beta ==> newBest == Some(action) && MinAfter(rules, b, action) >= newMax
  {
    if newMax < beta {
      forall d | d in done + {action}
        ensures MinAfter(rules, b, d) <= newMax
      {
        if d != action {
          assert d in done;
        }
      }
    }
  }

  /** Moving one move from the moves still to try to the moves tried keeps them a partition. */
  lemma MoveTried(acts: set<Action>, remaining: set<Action>, done: set<Action>, next: Action)
    requires remaining <= acts && done == acts - remaining && next in remaining
    ensures remaining - {next} <= acts && done + {next} == acts - (remaining - {next})
    ensures next in acts && next !in done
  {
  }

  /** `maximize` after trying every move without a cut-off. */
  lemma MaxLoopExhausted(rules: Rules, b: Board, alpha: int, beta: int, maxVal: int, best: Option<Action>)
    requires ValidBoard(b) && EmptyCells(b) != {} && NEG_INF <= alpha < beta
    requires MaxLoop(rules, b, alpha, beta, EmptyCells(b), maxVal, best)
    ensures best.Some? && best.value in EmptyCells(b) && -1 <= maxVal <= 1
    ensures alpha < maxVal < beta ==> MinAfter(rules, b, best.value) == maxVal
    ensures FailSoft(maxVal, BestMax(rules, b, 0), alpha, beta)
  {
    BestMaxAtMost(rules, b, 0, maxVal);
    BestMaxAtLeast(rules, b, 0, best.value);
  }

  /** `maximize` after a cut-off at `best`. */
  lemma MaxLoopCutOff(rules: Rules, b: Board, alpha: int, beta: int, maxVal: int, best: Option<Action>)
    requires ValidBoard(b) && alpha < beta
    requires maxVal >= beta && -1 <= maxVal <= 1 && best.Some? && best.value in EmptyCells(b) && MinAfter(rules, b, best.value) >= maxVal
    ensures FailSoft(maxVal, BestMax(rules, b, 0), alpha, beta)
  {
    BestMaxAtLeast(rules, b, 0, best.value);
  }

  /** `maximize`: alpha-beta search from a node where the maximising side moves. */
  method Maximize(rules: Rules, b: Board, alpha: int, beta: int) returns (r: Outcome)
    requires ValidBoard(b)
    requires NEG_INF <= alpha < beta <= POS_INF
    ensures -1 <= r.value <= 1
    ensures r.Leaf? <==> Terminal(rules, b)
    ensures r.Leaf? ==> r.value == Utility(rules, b)
    ensures r.Scored? ==> r.action in EmptyCells(b)
    ensures r.Scored? && alpha < r.value < beta ==> MinAfter(rules, b, r.action) == r.value
    ensures FailSoft(r.value, MaxValue(rules, b), alpha, beta)
    decreases Empties(b), 2
  {
    if Terminal(rules, b) {
      return Leaf(Utility(rules, b));
    }
    var acts := Actions(b);
    var maxVal, maxAction := MaximizeLoop(rules, b, alpha, beta, acts);
    return Scored(maxVal, maxAction);
  }

  /**
   * The loop of `maximize` over the legal moves `acts`: the best value
   * found and its move, stopping early once the value reaches beta.
   */
  method MaximizeLoop(rules: Rules, b: Board, alpha: int, beta: int, acts: set<Action>) returns (maxVal: int, action: Action)
    requires ValidBoard(b) && acts == EmptyCells(b) && acts != {}
    requires NEG_INF <= alpha < beta <= POS_INF
    ensures action in EmptyCells(b) && -1 <= maxVal <= 1
    ensures alpha < maxVal < beta ==> MinAfter(rules, b, action) == maxVal
    ensures FailSoft(maxVal, BestMax(rules, b, 0), alpha, beta)
    decreases Empties(b), 1
  {
    maxVal := NEG_INF;
    var maxAction: Option<Action> := None;
    var a := alpha;
    var remaining := acts;
    ghost var done: set<Action> := {};
    ghost var cut := false;
    while remaining != {}
      invariant remaining <= acts && done == acts - remaining
      invariant a == Max(alpha, maxVal)
      invariant MaxLoop(rules, b, alpha, beta, done, maxVal, maxAction)
      decreases remaining
    {
      var next :| next in remaining;
      MoveTried(acts, remaining, done, next);
      remaining := remaining - {next};
      var val := MinimizeAfter(rules, b, next, a, beta);
      ghost var (oldMax, oldBest) := (maxVal, maxAction);
      if val > maxVal {
        maxAction := Some(next);
        maxVal := val;
      }
      MaxLoopStep(rules, b, alpha, beta, done, oldMax, oldBest, next, val, maxVal, maxAction);
      done := done + {next};
      a := Max(a, maxVal);
      if beta <= a {
        cut := true;
        break;
      }
    }
    if cut {
      MaxLoopCutOff(rules, b, alpha, beta, maxVal, maxAction);
    } else {
      assert done == acts;
      MaxLoopExhausted(rules, b, alpha, beta, maxVal, maxAction);
    }
    action := maxAction.value;
  }

  /** What the loop of `minimize` knows once the moves in `done` are tried and no cut-off happened. */
  ghost predicate MinLoop(rules: Rules, b: Board, alpha: int, beta: int, done: set<Action>, minVal: int, best: Option<Action>)
    requires ValidBoard(b)
  {
    && done <= EmptyCells(b)
    && alpha < minVal
    && (done == {} ==> minVal == POS_INF)
    && (done != {} ==> -1 <= minVal <= 1 && best.Some? && best.value in done)
    && (forall d :: d in done ==> minVal <= MaxAfter(rules, b, d))
    && (minVal < beta ==> best.Some? && best.value in done && MaxAfter(rules, b, best.value) == minVal)
  }

  /** One more move tried by `minimize`: the loop facts carry over, or the cut-off is justified. */
  lemma MinLoopStep(rules: Rules, b: Board, alpha: int, beta: int, done: set<Action>, minVal: int, best: Option<Action>,
                    action: Action, val: int, newMin: int, newBest: Option<Action>)
    requires ValidBoard(b) && alpha < beta <= POS_INF
    requires MinLoop(rules, b, alpha, beta, done, minVal, best)
    requires action in EmptyCells(b) && action !in done && -1 <= val <= 1
    requires FailSoft(val, MaxAfter(rules, b, action), alpha, Min(beta, minVal))
    requires newMin == (if val < minVal then val else minVal)
    requires newBest == (if val < minVal then Some(action) else best)
    ensures alpha < newMin ==> MinLoop(rules, b, alpha, beta, done + {action}, newMin, newBest)
    ensures newMin <= alpha ==> newBest == Some(action) && MaxAfter(rules, b, action) <= newMin
  {
    if alpha < newMin {
      forall d | d in done + {action}
        ensures newMin <= MaxAfter(rules, b, d)
      {
        if d != action {
          assert d in done;
        }
      }
    }
  }

  /** `minimize` after trying every move without a cut-off. */
  lemma MinLoopExhausted(rules: Rules, b: Board, alpha: int, beta: int, minVal: int, best: Option<Action>)
    requires ValidBoard(b) && EmptyCells(b) != {} && alpha < beta <= POS_INF
    requires MinLoop(rules, b, alpha, beta, EmptyCells(b), minVal, best)
    ensures best.Some? && best.value in EmptyCells(b) && -1 <= minVal <= 1
    ensures alpha < minVal < beta ==> MaxAfter(rules, b, best.value) == minVal
    ensures FailSoft(minVal, BestMin(rules, b, 0), alpha, beta)
  {
    BestMinAtLeast(rules, b, 0, minVal);
    BestMinAtMost(rules, b, 0, best.value);
  }

  /** `minimize` after a cut-off at `best`. */
  lemma MinLoopCutOff(rules: Rules, b: Board, alpha: int, beta: int, minVal: int, best: Option<Action>)
    requires ValidBoard(b) && alpha < beta
    requires minVal <= alpha && -1 <= minVal <= 1 && best.Some? && best.value in EmptyCells(b) && MaxAfter(rules, b, best.value) <= minVal
    ensures FailSoft(minVal, BestMin(rules, b, 0), alpha, beta)
  {
    BestMinAtMost(rules, b, 0, best.value);
  }

  /** `minimize`: alpha-beta search from a node where the minimising side moves. */
  method Minimize(rules: Rules, b: Board, alpha: int, beta: int) returns (r: Outcome)
    requires ValidBoard(b)
    requires NEG_INF <= alpha < beta <= POS_INF
    ensures -1 <= r.value <= 1
    ensures r.Leaf? <==> Terminal(rules, b)
    ensures r.Leaf? ==> r.value == Utility(rules, b)
    ensures r.Scored? ==> r.action in EmptyCells(b)
    ensures r.Scored? && alpha < r.value < beta ==> MaxAfter(rules, b, r.action) == r.value
    ensures FailSoft(r.value, MinValue(rules, b), alpha, beta)
    decreases Empties(b), 2
  {
    if Terminal(rules, b) {
      return Leaf(Utility(rules, b));
    }
    var acts := Actions(b);
    var minVal, minAction := MinimizeLoop(rules, b, alpha, beta, acts);
    return Scored(minVal, minAction);
  }

  /**
   * The loop of `minimize` over the legal moves `acts`: the least value
   * found and its move, stopping early once the value reaches alpha.
   */
  method MinimizeLoop(rules: Rules, b: Board, alpha: int, beta: int, acts: set<Action>) returns (minVal: int, action: Action)
    requires ValidBoard(b) && acts == EmptyCells(b) && acts != {}
    requires NEG_INF <= alpha < beta <= POS_INF
    ensures action in EmptyCells(b) && -1 <= minVal <= 1
    ensures alpha < minVal < beta ==> MaxAfter(rules, b, action) == minVal
    ensures FailSoft(minVal, BestMin(rules, b, 0), alpha, beta)
    decreases Empties(b), 1
  {
    minVal := POS_INF;
    var minAction: Option<Action> := None;
    var be := beta;
    var remaining := acts;
    ghost var done: set<Action> := {};
    ghost var cut := false;
    while remaining != {}
      invariant remaining <= acts && done == acts - remaining
      invariant be == Min(beta, minVal)
      invariant MinLoop(rules, b, alpha, beta, done, minVal, minAction)
      decreases remaining
    {
      var next :| next in remaining;
      MoveTried(acts, remaining, done, next);
      remaining := remaining - {next};
      var val := MaximizeAfter(rules, b, next, alpha, be);
      ghost var (oldMin, oldBest) := (minVal, minAction);
      if val < minVal {
        minAction := Some(next);
        minVal := val;
      }
      MinLoopStep(rules, b, alpha, beta, done, oldMin, oldBest, next, val, minVal, minAction);
      done := done + {next};
      be := Min(be, minVal);
      if be <= alpha {
        cut := true;
        break;
      }
    }
    if cut {
      MinLoopCutOff(rules, b, alpha, beta, minVal, minAction);
    } else {
      assert done == acts;
      MinLoopExhausted(rules, b, alpha, beta, minVal, minAction);
    }
    action := minAction.value;
  }

  /**
   * `minimax`: no move on a finished game; otherwise the move the search
   * picks for the player to move, and that move is optimal: it reaches a
   * position whose value is the value of the current one.
   */
  method Minimax(rules: Rules, b: Board) returns (move: Option<Action>)
    requires ValidBoard(b)
    ensures move.None? <==> Terminal(rules, b)
    ensures move.Some? ==> move.value in EmptyCells(b)
    ensures move.Some? && Player(b) == X ==> MinValue(rules, Successor(b, move.value)) == MaxValue(rules, b)
    ensures move.Some? && Player(b) == O ==> MaxValue(rules, Successor(b, move.value)) == MinValue(rules, b)
  {
    var alpha := NEG_INF;
    var beta := POS_INF;
    if Terminal(rules, b) {
      return None;
    }
    var chance := Player(b);
    var r: Outcome;
    if chance == X {
      r := Maximize(rules, b, alpha, beta);
    } else {
      r := Minimize(rules, b, alpha, beta);
    }
    move := Some(r.action);
  }
}
