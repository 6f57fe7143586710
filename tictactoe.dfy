/**
 * Tic-tac-toe on a 3-by-3 board: whose turn it is, the legal moves, the
 * board a move leads to, the winner, the end of the game and its utility,
 * and the minimax search that picks an optimal move.
 */
module TicTacToe {
  import opened Wrappers

  /** The two marks; an empty cell is `None`. */
  datatype Mark = X | O

  type Cell = Option<Mark>

  /** A board is a list of rows; the game itself uses 3 rows of 3 cells. */
  type Board = seq<seq<Cell>>

  /** A move names a row and a column; it may be out of range. */
  type Action = (int, int)

  predicate IsBoard(b: Board)
  {
    |b| == 3 && forall i :: 0 <= i < 3 ==> |b[i]| == 3
  }

  // ===========================================================================
  // Counting marks

  /** How many cells of `row` hold `c`. */
  function CountRow(row: seq<Cell>, c: Cell): nat
  {
    if row == [] then 0 else CountRow(row[..|row| - 1], c) + (if row[|row| - 1] == c then 1 else 0)
  }

  /** How many cells of `b` hold `c`. */
  function Count(b: Board, c: Cell): nat
  {
    if b == [] then 0 else Count(b[..|b| - 1], c) + CountRow(b[|b| - 1], c)
  }

  /** The empty cells left: it falls by one with every move. */
  function Empties(b: Board): nat
  {
    Count(b, None)
  }

  /** Overwriting one cell changes the count of `c` only by what left and what arrived. */
  lemma {:induction false} CountRowUpdate(row: seq<Cell>, j: int, d: Cell, c: Cell)
    requires 0 <= j < |row|
    ensures CountRow(row[j := d], c) ==
      CountRow(row, c) - (if row[j] == c then 1 else 0) + (if d == c then 1 else 0)
  {
    var n := |row|;
    var row' := row[j := d];
    if j == n - 1 {
      assert row'[..n - 1] == row[..n - 1];
    } else {
      assert row'[..n - 1] == row[..n - 1][j := d];
      CountRowUpdate(row[..n - 1], j, d, c);
    }
  }

  /** Overwriting one cell of a board changes the count of `c` only by what left and what arrived. */
  lemma {:induction false} CountUpdate(b: Board, i: int, j: int, d: Cell, c: Cell)
    requires 0 <= i < |b| && 0 <= j < |b[i]|
    ensures Count(b[i := b[i][j := d]], c) ==
      Count(b, c) - (if b[i][j] == c then 1 else 0) + (if d == c then 1 else 0)
  {
    var n := |b|;
    var b' := b[i := b[i][j := d]];
    if i == n - 1 {
      assert b'[..n - 1] == b[..n - 1];
      CountRowUpdate(b[i], j, d, c);
    } else {
      assert b'[..n - 1] == b[..n - 1][i := b[i][j := d]];
      CountUpdate(b[..n - 1], i, j, d, c);
    }
  }

  /** Some cell of the board holds `c` exactly when the count of `c` is positive. */
  lemma {:induction false} CountPositive(b: Board, c: Cell)
    ensures Count(b, c) > 0 <==> exists i, j :: 0 <= i < |b| && 0 <= j < |b[i]| && b[i][j] == c
  {
    if b != [] {
      var n := |b|;
      CountPositive(b[..n - 1], c);
      CountRowPositive(b[n - 1], c);
      if Count(b, c) > 0 {
        if Count(b[..n - 1], c) > 0 {
          var i, j :| 0 <= i < n - 1 && 0 <= j < |b[..n - 1][i]| && b[..n - 1][i][j] == c;
          assert b[i][j] == c;
        } else {
          var j :| 0 <= j < |b[n - 1]| && b[n - 1][j] == c;
        }
      } else {
        forall i, j | 0 <= i < n && 0 <= j < |b[i]|
          ensures b[i][j] != c
        {
          if i < n - 1 {
            assert b[..n - 1][i][j] == b[i][j];
          }
        }
      }
    }
  }

  /** Some cell of the row holds `c` exactly when the count of `c` is positive. */
  lemma {:induction false} CountRowPositive(row: seq<Cell>, c: Cell)
    ensures CountRow(row, c) > 0 <==> exists j :: 0 <= j < |row| && row[j] == c
  {
    if row != [] {
      var n := |row|;
      CountRowPositive(row[..n - 1], c);
      if CountRow(row[..n - 1], c) > 0 {
        var j :| 0 <= j < n - 1 && row[..n - 1][j] == c;
        assert row[j] == c;
      }
      if exists j :: 0 <= j < n && row[j] == c {
        var j :| 0 <= j < n && row[j] == c;
        if j < n - 1 {
          assert row[..n - 1][j] == c;
        }
      }
    }
  }

  // ===========================================================================
  // initial_state, player, actions, result

  /** The empty board. */
  function InitialState(): (b: Board)
    ensures IsBoard(b)
    ensures forall i, j :: 0 <= i < 3 && 0 <= j < 3 ==> b[i][j] == None
  {
    [[None, None, None], [None, None, None], [None, None, None]]
  }

  /** X moves when it has placed no more marks than O, otherwise O. */
  function Player(b: Board): Mark
  {
    if Count(b, Some(X)) <= Count(b, Some(O)) then X else O
  }

  /**
   * Counts X as +1 and O as -1 over every cell, row by row, and hands the
   * turn to X when the total is not positive.
   */
  method ComputePlayer(board: Board) returns (p: Mark)
    ensures p == Player(board)
    ensures p == X <==> Count(board, Some(X)) <= Count(board, Some(O))
  {
    var cnt := 0;
    for r := 0 to |board|
      invariant cnt == Count(board[..r], Some(X)) - Count(board[..r], Some(O))
    {
      var row := board[r];
      for k := 0 to |row|
        invariant cnt == Count(board[..r], Some(X)) - Count(board[..r], Some(O))
                       + CountRow(row[..k], Some(X)) - CountRow(row[..k], Some(O))
      {
        assert row[..k + 1][..k] == row[..k];
        if row[k] == Some(X) {
          cnt := cnt + 1;
        } else if row[k] == Some(O) {
          cnt := cnt - 1;
        }
      }
      assert row[..|row|] == row;
      assert board[..r + 1][..r] == board[..r];
    }
    assert board[..|board|] == board;
    if cnt <= 0 {
      p := X;
    } else {
      p := O;
    }
  }

  /** Every empty cell of the board. */
  function Actions(b: Board): set<Action>
    requires IsBoard(b)
  {
    set i: int, j: int | 0 <= i < 3 && 0 <= j < 3 && b[i][j] == None :: (i, j)
  }

  /** Collects the empty cells by scanning rows and columns. */
  method ComputeActions(board: Board) returns (ans: set<Action>)
    requires IsBoard(board)
    ensures ans == Actions(board)
    ensures forall a :: a in ans <==> 0 <= a.0 < 3 && 0 <= a.1 < 3 && board[a.0][a.1] == None
  {
    ans := {};
    for i := 0 to 3
      invariant forall a :: a in ans <==> 0 <= a.0 < i && 0 <= a.1 < 3 && board[a.0][a.1] == None
    {
      for j := 0 to 3
        invariant forall a :: a in ans <==>
          (0 <= a.0 < i && 0 <= a.1 < 3 && board[a.0][a.1] == None) ||
          (a.0 == i && 0 <= a.1 < j && board[a.0][a.1] == None)
      {
        if board[i][j] == None {
          ans := ans + {(i, j)};
        }
      }
    }
  }

  /** The board after the player to move marks the empty cell `a`. */
  function Move(b: Board, a: Action): (r: Board)
    requires IsBoard(b) && a in Actions(b)
    ensures IsBoard(r)
    ensures r[a.0][a.1] == Some(Player(b))
    ensures forall i, j :: 0 <= i < 3 && 0 <= j < 3 && (i, j) != a ==> r[i][j] == b[i][j]
    ensures Empties(r) == Empties(b) - 1
  {
    var (i, j) := a;
    CountUpdate(b, i, j, Some(Player(b)), None);
    b[i := b[i][j := Some(Player(b))]]
  }

  /**
   * The board after move `a`, or the error "Invalid action" when `a` is off
   * the board or its cell is taken; `b` itself is left as it was.
   */
  function Result(b: Board, a: Action): (r: Result<Board, string>)
    requires IsBoard(b)
    ensures r.Ok? <==> 0 <= a.0 <= 2 && 0 <= a.1 <= 2 && b[a.0][a.1] == None
    ensures r.Ok? <==> a in Actions(b)
    ensures r.Ok? ==> r.value == Move(b, a)
    ensures r.Err? ==> r.error == "Invalid action"
  {
    var (i, j) := a;
    if i < 0 || i > 2 || j < 0 || j > 2 then Err("Invalid action")
    else if b[i][j] != None then Err("Invalid action")
    else Ok(Move(b, a))
  }

  /** X has placed as many marks as O, or one more: true of every board reached by play. */
  predicate Balanced(b: Board)
  {
    Count(b, Some(X)) == Count(b, Some(O)) || Count(b, Some(X)) == Count(b, Some(O)) + 1
  }

  /** The game starts balanced with X to move and every cell free. */
  lemma InitialStateSpec()
    ensures Balanced(InitialState()) && Player(InitialState()) == X
    ensures Empties(InitialState()) == 9
    ensures forall i, j :: 0 <= i < 3 && 0 <= j < 3 ==> (i, j) in Actions(InitialState())
  {
    var b := InitialState();
    CountPositive(b, Some(X));
    CountPositive(b, Some(O));
    var row: seq<Cell> := [None, None, None];
    var one: seq<Cell> := [None];
    assert one[..0] == [] && CountRow(one, None) == 1;
    assert row[..2][..1] == one && CountRow(row[..2], None) == 2;
    assert CountRow(row, None) == 3;
    var first: Board := [row];
    assert first[..0] == [] && Count(first, None) == 3;
    assert b[..2][..1] == first && Count(b[..2], None) == 6;
    assert Count(b, None) == 9;
  }

  /** On a balanced board every move keeps the board balanced and passes the turn. */
  lemma PlayerAlternates(b: Board, a: Action)
    requires IsBoard(b) && Balanced(b) && a in Actions(b)
    ensures Balanced(Move(b, a))
    ensures Player(Move(b, a)) != Player(b)
  {
    var p := Player(b);
    CountUpdate(b, a.0, a.1, Some(p), Some(X));
    CountUpdate(b, a.0, a.1, Some(p), Some(O));
  }

  // ===========================================================================
  // winner, terminal, utility

  predicate Row(b: Board, i: int, m: Mark)
    requires IsBoard(b) && 0 <= i < 3
  {
    b[i][0] == Some(m) && b[i][1] == Some(m) && b[i][2] == Some(m)
  }

  predicate Column(b: Board, j: int, m: Mark)
    requires IsBoard(b) && 0 <= j < 3
  {
    b[0][j] == Some(m) && b[1][j] == Some(m) && b[2][j] == Some(m)
  }

  predicate Diagonal(b: Board, m: Mark)
    requires IsBoard(b)
  {
    b[0][0] == Some(m) && b[1][1] == Some(m) && b[2][2] == Some(m)
  }

  predicate AntiDiagonal(b: Board, m: Mark)
    requires IsBoard(b)
  {
    b[0][2] == Some(m) && b[1][1] == Some(m) && b[2][0] == Some(m)
  }

  /** `m` fills one of the eight lines: a row, a column or a diagonal. */
  predicate HasLine(b: Board, m: Mark)
    requires IsBoard(b)
  {
    (exists i :: 0 <= i < 3 && Row(b, i, m)) ||
    (exists j :: 0 <= j < 3 && Column(b, j, m)) ||
    Diagonal(b, m) || AntiDiagonal(b, m)
  }

  /**
   * The scan of winner from index `i` on: row `i`, then column `i`, then the
   * next index, and after the last index the two diagonals.
   */
  function WinnerFrom(b: Board, i: nat): (r: Option<Mark>)
    requires IsBoard(b) && i <= 3
    ensures r.Some? ==> HasLine(b, r.value)
    ensures r.None? ==> forall m, k :: i <= k < 3 ==> !Row(b, k, m)
    ensures r.None? ==> forall m, k :: i <= k < 3 ==> !Column(b, k, m)
    ensures r.None? ==> forall m :: !Diagonal(b, m) && !AntiDiagonal(b, m)
    decreases 3 - i
  {
    if i < 3 then
      if b[i][0] == b[i][1] && b[i][1] == b[i][2] && b[i][2] != None then
        assert Row(b, i, b[i][0].value);
        b[i][0]
      else if b[0][i] == b[1][i] && b[1][i] == b[2][i] && b[2][i] != None then
        assert Column(b, i, b[0][i].value);
        b[0][i]
      else
        WinnerFrom(b, i + 1)
    else if b[0][0] == b[1][1] && b[1][1] == b[2][2] && b[2][2] != None then
      b[0][0]
    else if b[0][2] == b[1][1] && b[1][1] == b[2][0] && b[2][0] != None then
      b[0][2]
    else
      None
  }

  /** The mark that fills a line, if any; the first line in scan order wins. */
  function Winner(b: Board): (r: Option<Mark>)
    requires IsBoard(b)
    ensures r.Some? ==> HasLine(b, r.value)
    ensures r.None? <==> !HasLine(b, X) && !HasLine(b, O)
  {
    var r := WinnerFrom(b, 0);
    assert r.Some? ==> HasLine(b, X) || HasLine(b, O) by {
      if r.Some? {
        assert r.value == X || r.value == O;
      }
    }
    r
  }

  /** Every cell is taken. */
  predicate Full(b: Board)
    requires IsBoard(b)
  {
    forall i, j :: 0 <= i < 3 && 0 <= j < 3 ==> b[i][j] != None
  }

  /** The game is over once someone has won or the board is full. */
  predicate Terminal(b: Board)
    requires IsBoard(b)
  {
    Winner(b).Some? || Full(b)
  }

  /** The game is over exactly when someone has a line or no move is left. */
  lemma TerminalSpec(b: Board)
    requires IsBoard(b)
    ensures Terminal(b) <==> HasLine(b, X) || HasLine(b, O) || Actions(b) == {}
    ensures !Terminal(b) ==> Empties(b) > 0
  {
    if !Full(b) {
      var i, j :| 0 <= i < 3 && 0 <= j < 3 && b[i][j] == None;
      assert (i, j) in Actions(b);
      CountPositive(b, None);
    }
  }

  /**
   * Starts from "over"; when nobody has won, any empty cell found while
   * scanning the rows makes it "not over".
   */
  method ComputeTerminal(board: Board) returns (flag: bool)
    requires IsBoard(board)
    ensures flag == Terminal(board)
  {
    flag := true;
    if Winner(board) == None {
      for i := 0 to 3
        invariant flag <==> forall r, c :: 0 <= r < i && 0 <= c < 3 ==> board[r][c] != None
      {
        for j := 0 to 3
          invariant flag <==> (forall r, c :: 0 <= r < i && 0 <= c < 3 ==> board[r][c] != None) &&
                              (forall c :: 0 <= c < j ==> board[i][c] != None)
        {
          if board[i][j] == None {
            flag := false;
            break;
          }
        }
      }
    }
  }

  /** 1 when X has won, -1 when O has won, 0 otherwise. */
  function Utility(b: Board): (r: int)
    requires IsBoard(b)
    ensures r == 1 <==> Winner(b) == Some(X)
    ensures r == -1 <==> Winner(b) == Some(O)
    ensures r == 0 <==> !HasLine(b, X) && !HasLine(b, O)
  {
    match Winner(b)
    case Some(X) => 1
    case Some(O) => -1
    case None => 0
  }

  // ===========================================================================
  // Minimax

  /** Below any utility: the starting best value of the maximising player. */
  const MinusInfinity := -2

  /** Above any utility: the starting best value of the minimising player. */
  const PlusInfinity := 2

  /** Some move of a non-empty set: the one the search below examines first. */
  ghost function Pick(moves: set<Action>): (a: Action)
    requires moves != {}
    ensures a in moves
  {
    var a :| a in moves; a
  }

  /** The game value of `b` under optimal play by both sides. */
  ghost function Value(b: Board): int
    requires IsBoard(b)
    decreases Empties(b), 2
  {
    if Terminal(b) then Utility(b)
    else if Player(b) == X then MaxOf(b, Actions(b))
    else MinOf(b, Actions(b))
  }

  /** The largest value among the boards `moves` lead to; minus infinity for none. */
  ghost function MaxOf(b: Board, moves: set<Action>): int
    requires IsBoard(b) && moves <= Actions(b)
    decreases Empties(b), 1, |moves|
  {
    if moves == {} then MinusInfinity
    else
      var v := Value(Move(b, Pick(moves)));
      var rest := MaxOf(b, moves - {Pick(moves)});
      if v > rest then v else rest
  }

  /** The smallest value among the boards `moves` lead to; plus infinity for none. */
  ghost function MinOf(b: Board, moves: set<Action>): int
    requires IsBoard(b) && moves <= Actions(b)
    decreases Empties(b), 1, |moves|
  {
    if moves == {} then PlusInfinity
    else
      var v := Value(Move(b, Pick(moves)));
      var rest := MinOf(b, moves - {Pick(moves)});
      if v < rest then v else rest
  }

  /** `v` is the value of some board `moves` leads to, and none is larger. */
  ghost predicate IsMax(b: Board, moves: set<Action>, v: int)
    requires IsBoard(b) && moves <= Actions(b)
  {
    && (forall a :: a in moves ==> Value(Move(b, a)) <= v)
    && (exists a :: a in moves && Value(Move(b, a)) == v)
  }

  /** `v` is the value of some board `moves` leads to, and none is smaller. */
  ghost predicate IsMin(b: Board, moves: set<Action>, v: int)
    requires IsBoard(b) && moves <= Actions(b)
  {
    && (forall a :: a in moves ==> Value(Move(b, a)) >= v)
    && (exists a :: a in moves && Value(Move(b, a)) == v)
  }

  /** MaxOf is the maximum over its moves, and a utility. */
  lemma {:induction false} MaxOfSpec(b: Board, moves: set<Action>)
    requires IsBoard(b) && moves <= Actions(b) && moves != {}
    ensures IsMax(b, moves, MaxOf(b, moves))
    ensures -1 <= MaxOf(b, moves) <= 1
    decreases Empties(b), 0, |moves|
  {
    var a := Pick(moves);
    var rest := moves - {a};
    ValueInRange(Move(b, a));
    if rest == {} {
      assert moves == {a};
    } else {
      MaxOfSpec(b, rest);
      var w :| w in rest && Value(Move(b, w)) == MaxOf(b, rest);
      if Value(Move(b, a)) <= MaxOf(b, rest) {
        assert w in moves;
      }
    }
  }

  /** MinOf is the minimum over its moves, and a utility. */
  lemma {:induction false} MinOfSpec(b: Board, moves: set<Action>)
    requires IsBoard(b) && moves <= Actions(b) && moves != {}
    ensures IsMin(b, moves, MinOf(b, moves))
    ensures -1 <= MinOf(b, moves) <= 1
    decreases Empties(b), 0, |moves|
  {
    var a := Pick(moves);
    var rest := moves - {a};
    ValueInRange(Move(b, a));
    if rest == {} {
      assert moves == {a};
    } else {
      MinOfSpec(b, rest);
      var w :| w in rest && Value(Move(b, w)) == MinOf(b, rest);
      if Value(Move(b, a)) >= MinOf(b, rest) {
        assert w in moves;
      }
    }
  }

  /**
   * A board that is not over has the value of its best move: for X no move
   * leads higher and some move reaches it, for O the same downwards.
   */
  lemma {:induction false} ValueOptimal(b: Board)
    requires IsBoard(b) && !Terminal(b)
    ensures Actions(b) != {}
    ensures Player(b) == X ==> IsMax(b, Actions(b), Value(b))
    ensures Player(b) == O ==> IsMin(b, Actions(b), Value(b))
    ensures -1 <= Value(b) <= 1
    decreases Empties(b), 1
  {
    TerminalSpec(b);
    if Player(b) == X {
      MaxOfSpec(b, Actions(b));
    } else {
      MinOfSpec(b, Actions(b));
    }
  }

  /** The game value is a utility: -1, 0 or 1. */
  lemma {:induction false} ValueInRange(b: Board)
    requires IsBoard(b)
    ensures -1 <= Value(b) <= 1
    decreases Empties(b), 2
  {
    if !Terminal(b) {
      ValueOptimal(b);
    }
  }

  /**
   * `line` is a principal variation of `b`: each move is legal and keeps the
   * game value, and the line ends with `None` on a board that is over.
   */
  ghost predicate PrincipalLine(b: Board, line: seq<Option<Action>>)
    requires IsBoard(b)
    decreases Empties(b), 1
  {
    if Terminal(b) then line == [None] else Leads(b, line, Value(b))
  }

  /** `line` starts with a legal move to a board of value `v` and goes on with a principal variation from there. */
  ghost predicate Leads(b: Board, line: seq<Option<Action>>, v: int)
    requires IsBoard(b)
    decreases Empties(b), 0
  {
    && |line| > 0 && line[0].Some? && line[0].value in Actions(b)
    && Value(Move(b, line[0].value)) == v
    && PrincipalLine(Move(b, line[0].value), line[1..])
  }

  /**
   * The minimax value of `board` and a line of optimal moves from it: on a
   * finished board its utility and `[None]`; otherwise the best child value
   * for the player to move, the first move that reaches it, and that child's
   * line.
   */
  method ValMinimax(board: Board) returns (v: int, ans: seq<Option<Action>>)
    requires IsBoard(board)
    ensures v == Value(board)
    ensures PrincipalLine(board, ans)
    decreases Empties(board), 2
  {
    var over := ComputeTerminal(board);
    if over {
      return Utility(board), [None];
    }
    var p := ComputePlayer(board);
    var acts := ComputeActions(board);
    ValueOptimal(board);
    if p == X {
      v, ans := MaxChild(board, acts);
      MaxUnique(board, acts, v, Value(board));
    } else {
      v, ans := MinChild(board, acts);
      MinUnique(board, acts, v, Value(board));
    }
  }

  /** A maximum is unique. */
  lemma MaxUnique(b: Board, moves: set<Action>, v: int, w: int)
    requires IsBoard(b) && moves <= Actions(b)
    requires IsMax(b, moves, v) && IsMax(b, moves, w)
    ensures v == w
  {
  }

  /** A minimum is unique. */
  lemma MinUnique(b: Board, moves: set<Action>, v: int, w: int)
    requires IsBoard(b) && moves <= Actions(b)
    requires IsMin(b, moves, v) && IsMin(b, moves, w)
    ensures v == w
  {
  }

  /** The loop of val_minimax for X: keeps the first child of strictly greater value. */
  method MaxChild(board: Board, acts: set<Action>) returns (v: int, ans: seq<Option<Action>>)
    requires IsBoard(board) && !Terminal(board)
    requires acts == Actions(board) && acts != {}
    ensures IsMax(board, acts, v)
    ensures Leads(board, ans, v)
    decreases Empties(board), 1
  {
    v := MinusInfinity;
    ans := [None];
    var todo := acts;
    ghost var done: set<Action> := {};
    while todo != {}
      invariant todo <= acts && done == acts - todo
      invariant MaxSoFar(board, done, v, ans)
    {
      var a :| a in todo;
      ghost var v0, ans0 := v, ans;
      v, ans := TryMax(board, a, v, ans);
      MaxStep(board, done, a, v0, ans0, v, ans);
      todo := todo - {a};
      done := done + {a};
    }
    assert done == acts;
  }

  /** One round of the X loop: explores move `a` and keeps it when its value beats `v0`. */
  method TryMax(board: Board, a: Action, v0: int, ans0: seq<Option<Action>>) returns (v: int, ans: seq<Option<Action>>)
    requires IsBoard(board) && a in Actions(board)
    ensures -1 <= Value(Move(board, a)) <= 1
    ensures v == if Value(Move(board, a)) > v0 then Value(Move(board, a)) else v0
    ensures v == v0 ==> ans == ans0
    ensures v != v0 ==> Leads(board, ans, v)
    decreases Empties(board), 0
  {
    var tmp := Result(board, a).value;
    var vv, aa := ValMinimax(tmp);
    ValueInRange(tmp);
    v, ans := v0, ans0;
    if vv > v {
      v := vv;
      ans := [Some(a)] + aa;
      assert ans[1..] == aa;
    }
  }

  /**
   * After examining the moves `done`, `v` is their maximum and `ans` a line
   * through a move reaching it; before any, `v` is minus infinity.
   */
  ghost predicate MaxSoFar(b: Board, done: set<Action>, v: int, ans: seq<Option<Action>>)
    requires IsBoard(b) && done <= Actions(b)
  {
    if done == {} then v == MinusInfinity else IsMax(b, done, v) && Leads(b, ans, v)
  }

  /** Adding move `a` to the moves examined keeps the maximum, as updated by val_minimax. */
  lemma MaxStep(b: Board, done: set<Action>, a: Action, v0: int, ans0: seq<Option<Action>>, v: int, ans: seq<Option<Action>>)
    requires IsBoard(b) && done <= Actions(b) && a in Actions(b) && a !in done
    requires MaxSoFar(b, done, v0, ans0)
    requires -1 <= Value(Move(b, a)) <= 1
    requires v == if Value(Move(b, a)) > v0 then Value(Move(b, a)) else v0
    requires v == v0 ==> ans == ans0
    requires v != v0 ==> Leads(b, ans, v)
    ensures MaxSoFar(b, done + {a}, v, ans)
  {
    if Value(Move(b, a)) > v0 {
      assert a in done + {a};
    } else {
      var w :| w in done && Value(Move(b, w)) == v0;
      assert w in done + {a};
    }
  }

  /** The loop of val_minimax for O: keeps the first child of strictly smaller value. */
  method MinChild(board: Board, acts: set<Action>) returns (v: int, ans: seq<Option<Action>>)
    requires IsBoard(board) && !Terminal(board)
    requires acts == Actions(board) && acts != {}
    ensures IsMin(board, acts, v)
    ensures Leads(board, ans, v)
    decreases Empties(board), 1
  {
    v := PlusInfinity;
    ans := [None];
    var todo := acts;
    ghost var done: set<Action> := {};
    while todo != {}
      invariant todo <= acts && done == acts - todo
      invariant MinSoFar(board, done, v, ans)
    {
      var a :| a in todo;
      ghost var v0, ans0 := v, ans;
      v, ans := TryMin(board, a, v, ans);
      MinStep(board, done, a, v0, ans0, v, ans);
      todo := todo - {a};
      done := done + {a};
    }
    assert done == acts;
  }

  /** One round of the O loop: explores move `a` and keeps it when its value is below `v0`. */
  method TryMin(board: Board, a: Action, v0: int, ans0: seq<Option<Action>>) returns (v: int, ans: seq<Option<Action>>)
    requires IsBoard(board) && a in Actions(board)
    ensures -1 <= Value(Move(board, a)) <= 1
    ensures v == if Value(Move(board, a)) < v0 then Value(Move(board, a)) else v0
    ensures v == v0 ==> ans == ans0
    ensures v != v0 ==> Leads(board, ans, v)
    decreases Empties(board), 0
  {
    var tmp := Result(board, a).value;
    var vv, aa := ValMinimax(tmp);
    ValueInRange(tmp);
    v, ans := v0, ans0;
    if vv < v {
      v := vv;
      ans := [Some(a)] + aa;
      assert ans[1..] == aa;
    }
  }

  /**
   * After examining the moves `done`, `v` is their minimum and `ans` a line
   * through a move reaching it; before any, `v` is plus infinity.
   */
  ghost predicate MinSoFar(b: Board, done: set<Action>, v: int, ans: seq<Option<Action>>)
    requires IsBoard(b) && done <= Actions(b)
  {
    if done == {} then v == PlusInfinity else IsMin(b, done, v) && Leads(b, ans, v)
  }

  /** Adding move `a` to the moves examined keeps the minimum, as updated by val_minimax. */
  lemma MinStep(b: Board, done: set<Action>, a: Action, v0: int, ans0: seq<Option<Action>>, v: int, ans: seq<Option<Action>>)
    requires IsBoard(b) && done <= Actions(b) && a in Actions(b) && a !in done
    requires MinSoFar(b, done, v0, ans0)
    requires -1 <= Value(Move(b, a)) <= 1
    requires v == if Value(Move(b, a)) < v0 then Value(Move(b, a)) else v0
    requires v == v0 ==> ans == ans0
    requires v != v0 ==> Leads(b, ans, v)
    ensures MinSoFar(b, done + {a}, v, ans)
  {
    if Value(Move(b, a)) < v0 {
      assert a in done + {a};
    } else {
      var w :| w in done && Value(Move(b, w)) == v0;
      assert w in done + {a};
    }
  }

  /**
   * The optimal move for the player to move: `None` on a finished board,
   * otherwise a legal move that keeps the game value.
   */
  method Minimax(board: Board) returns (a: Option<Action>)
    requires IsBoard(board)
    ensures a.None? <==> Terminal(board)
    ensures a.Some? ==> a.value in Actions(board) && Value(Move(board, a.value)) == Value(board)
  {
    var v, act := ValMinimax(board);
    a := act[0];
  }
}
