/**
 * Tetris pieces and the playing grid.  A piece is a list of rotation
 * states, each a list of linear cell indices (line * width + column); the
 * grid is a height x width matrix of free and token cells that the game
 * updates in place.
 */
module Tetris {

  datatype Name = O | I | S | Z | L | J | T

  datatype Cell = Free | Token

  /** What `Grid.action` asks the piece to do once the new state is free. */
  datatype Move = RotateMove | LeftMove | RightMove | DownMove

  // ---------------------------------------------------------------------
  // Cell arithmetic

  lemma MulNonneg(a: int, b: int)
    requires a >= 0 && b >= 0
    ensures a * b >= 0
  {
  }

  /** Quotient and remainder are determined by `v == q * w + r`. */
  lemma DivModUnique(v: int, w: int, q: int, r: int)
    requires w > 0 && 0 <= r < w && v == q * w + r
    ensures v / w == q && v % w == r
  {
    var q', r' := v / w, v % w;
    assert v == q' * w + r';
    var d := q' - q;
    assert d * w == r - r' by {
      assert q' * w - q * w == (q' - q) * w;
    }
    if d >= 1 {
      MulNonneg(d - 1, w);
      assert false;
    } else if d <= -1 {
      MulNonneg(-d - 1, w);
      assert false;
    }
  }

  /** The row of a cell index. */
  function Row(v: int, w: int): int
    requires w > 0
  {
    v / w
  }

  /** The column of a cell index. */
  function Col(v: int, w: int): int
    requires w > 0
  {
    v % w
  }

  lemma LeftCellFacts(v: int, w: int)
    requires w > 0
    ensures (v - 1) % w != w - 1 ==> (v - 1) / w == v / w && (v - 1) % w == (v % w - 1) % w
    ensures (v - 1) % w == w - 1 ==> (v - 1 + w) / w == v / w && (v - 1 + w) % w == (v % w - 1) % w
  {
    var q, c := v / w, v % w;
    assert v == q * w + c;
    if c > 0 {
      DivModUnique(v - 1, w, q, c - 1);
      DivModUnique(c - 1, w, 0, c - 1);
    } else {
      DivModUnique(v - 1, w, q - 1, w - 1);
      DivModUnique(v - 1 + w, w, q, w - 1);
      DivModUnique(-1, w, -1, w - 1);
    }
  }

  lemma RightCellFacts(v: int, w: int)
    requires w > 0
    ensures (v + 1) % w != 0 ==> (v + 1) / w == v / w && (v + 1) % w == (v % w + 1) % w
    ensures (v + 1) % w == 0 ==> (v + 1 - w) / w == v / w && (v + 1 - w) % w == (v % w + 1) % w
  {
    var q, c := v / w, v % w;
    assert v == q * w + c;
    if c < w - 1 {
      DivModUnique(v + 1, w, q, c + 1);
      DivModUnique(c + 1, w, 0, c + 1);
    } else {
      DivModUnique(v + 1, w, q + 1, 0);
      DivModUnique(v + 1 - w, w, q, 0);
      DivModUnique(w, w, 1, 0);
    }
  }

  /** One cell one column to the left, wrapping within its row. */
  function LeftCell(v: int, w: int): (u: int)
    requires w > 0
    ensures Row(u, w) == Row(v, w) && Col(u, w) == (Col(v, w) - 1) % w
  {
    LeftCellFacts(v, w);
    if (v - 1) % w != w - 1 then v - 1 else v - 1 + w
  }

  /** One cell one column to the right, wrapping within its row. */
  function RightCell(v: int, w: int): (u: int)
    requires w > 0
    ensures Row(u, w) == Row(v, w) && Col(u, w) == (Col(v, w) + 1) % w
  {
    RightCellFacts(v, w);
    if (v + 1) % w != 0 then v + 1 else v + 1 - w
  }

  /** `state_to_left`: every cell one column to the left, wrapping within
      its row. */
  function StateToLeft(state: seq<int>, w: int): (r: seq<int>)
    requires w > 0
    ensures |r| == |state|
    ensures forall k :: 0 <= k < |r| ==>
              Row(r[k], w) == Row(state[k], w) && Col(r[k], w) == (Col(state[k], w) - 1) % w
  {
    seq(|state|, k requires 0 <= k < |state| => LeftCell(state[k], w))
  }

  /** `state_to_right`: every cell one column to the right, wrapping within
      its row. */
  function StateToRight(state: seq<int>, w: int): (r: seq<int>)
    requires w > 0
    ensures |r| == |state|
    ensures forall k :: 0 <= k < |r| ==>
              Row(r[k], w) == Row(state[k], w) && Col(r[k], w) == (Col(state[k], w) + 1) % w
  {
    seq(|state|, k requires 0 <= k < |state| => RightCell(state[k], w))
  }

  /** `state_to_down`: every cell one row further down. */
  function StateToDown(state: seq<int>, w: int): (r: seq<int>)
    requires w > 0
    ensures |r| == |state|
    ensures forall k :: 0 <= k < |r| ==>
              Row(r[k], w) == Row(state[k], w) + 1 && Col(r[k], w) == Col(state[k], w)
  {
    seq(|state|, k requires 0 <= k < |state| => DownCell(state[k], w))
  }

  function DownCell(v: int, w: int): (u: int)
    requires w > 0
    ensures Row(u, w) == Row(v, w) + 1 && Col(u, w) == Col(v, w)
  {
    assert v == (v / w) * w + v % w;
    DivModUnique(v + w, w, v / w + 1, v % w);
    v + w
  }

  // ---------------------------------------------------------------------
  // Pieces

  /** The rotation states each piece is built with, around `p`, for rows of
      width `w` (the seven `construct` methods). */
  function Shapes(name: Name, w: int, p: int): seq<seq<int>> {
    match name
    case O => [[p, p + 1, p + w, p + w + 1]]
    case I => [[p, p + w, p + 2 * w, p + 3 * w],
               [p - 1, p, p + 1, p + 2]]
    case S => [[p, p + 1, p + w - 1, p + w],
               [p, p + w, p + w + 1, p + 2 * w + 1]]
    case Z => [[p, p + 1, p + w + 1, p + w + 2],
               [p, p + w - 1, p + w, p + 2 * w - 1]]
    case L => [[p, p + w, p + 2 * w, p + 2 * w + 1],
               [p + 1, p + w - 1, p + w, p + w + 1],
               [p, p + 1, p + w + 1, p + 2 * w + 1],
               [p + w - 1, p + w, p + w + 1, p + 2 * w - 1]]
    case J => [[p + 1, p + w + 1, p + 2 * w + 1, p + 2 * w],
               [p - 1, p, p + 1, p + w + 1],
               [p, p + 1, p + w, p + 2 * w],
               [p, p + w, p + w + 1, p + w + 2]]
    case T => [[p, p + w, p + w + 1, p + 2 * w],
               [p, p + w - 1, p + w, p + w + 1],
               [p + 1, p + w, p + w + 1, p + 2 * w + 1],
               [p, p + 1, p + 2, p + w + 1]]
  }

  /** Every state has four cells; O has one state, I, S and Z two, L, J and
      T four; and on rows at least three wide the four cells are distinct. */
  lemma ShapesWellFormed(name: Name, w: int, p: int)
    ensures var states := Shapes(name, w, p);
            |states| == (match name case O => 1 case I => 2 case S => 2 case Z => 2 case _ => 4) &&
            forall k :: 0 <= k < |states| ==>
              (|states[k]| == 4 &&
               (w >= 3 ==> forall a, b :: 0 <= a < b < 4 ==> states[k][a] != states[k][b]))
  {
  }

  /** What `move` does to one rotation state once the piece may move: a
      rotation keeps the states, a shift moves each of them. */
  function MovedState(state: seq<int>, move: Move, w: int): seq<int>
    requires w > 0
  {
    match move
    case RotateMove => state
    case LeftMove => StateToLeft(state, w)
    case RightMove => StateToRight(state, w)
    case DownMove => StateToDown(state, w)
  }

  /** The rotation states of a piece after `move`. */
  function MovedStates(states: seq<seq<int>>, move: Move, w: int): (r: seq<seq<int>>)
    requires w > 0
    ensures |r| == |states|
  {
    seq(|states|, k requires 0 <= k < |states| => MovedState(states[k], move, w))
  }

  /** The rotation after `move`: only a rotation advances it. */
  function MovedRotation(rotation: nat, move: Move, count: nat): (r: nat)
    requires rotation < count
    ensures r < count
    ensures move != RotateMove ==> r == rotation
    ensures move == RotateMove ==> r == if rotation + 1 == count then 0 else rotation + 1
  {
    if move == RotateMove then (rotation + 1) % count else rotation
  }

  /** A piece: its rotation states and the current rotation. */
  class Tetromino {
    const name: Name
    const newLine: int
    var stateList: seq<seq<int>>
    var rotation: nat

    ghost predicate Valid()
      reads this
    {
      newLine > 0 && rotation < |stateList|
    }

    /** `TetroBuilder.build`: a piece of the given kind around `position`. */
    constructor (name: Name, newLine: int, position: int)
      requires newLine > 0
      ensures Valid()
      ensures this.name == name && this.newLine == newLine
      ensures stateList == Shapes(name, newLine, position) && rotation == 0
    {
      this.name := name;
      this.newLine := newLine;
      stateList := Shapes(name, newLine, position);
      rotation := 0;
    }

    /** The current state. */
    function State(): seq<int>
      reads this
      requires Valid()
    {
      stateList[rotation]
    }

    /** The state a rotation would make current. */
    function NextRotate(): seq<int>
      reads this
      requires Valid()
    {
      stateList[(rotation + 1) % |stateList|]
    }

    method Rotate()
      requires Valid()
      modifies this
      ensures Valid() && stateList == old(stateList)
      ensures rotation == (old(rotation) + 1) % |stateList|
      ensures State() == old(NextRotate())
    {
      rotation := (rotation + 1) % |stateList|;
    }

    method MoveLeft()
      requires Valid()
      modifies this
      ensures Valid() && rotation == old(rotation) && |stateList| == |old(stateList)|
      ensures forall k :: 0 <= k < |stateList| ==> stateList[k] == StateToLeft(old(stateList)[k], newLine)
    {
      var newState: seq<seq<int>> := [];
      for k := 0 to |stateList|
        invariant |newState| == k
        invariant forall j :: 0 <= j < k ==> newState[j] == StateToLeft(stateList[j], newLine)
      {
        newState := newState + [StateToLeft(stateList[k], newLine)];
      }
      stateList := newState;
    }

    method MoveRight()
      requires Valid()
      modifies this
      ensures Valid() && rotation == old(rotation) && |stateList| == |old(stateList)|
      ensures forall k :: 0 <= k < |stateList| ==> stateList[k] == StateToRight(old(stateList)[k], newLine)
    {
      var newState: seq<seq<int>> := [];
      for k := 0 to |stateList|
        invariant |newState| == k
        invariant forall j :: 0 <= j < k ==> newState[j] == StateToRight(stateList[j], newLine)
      {
        newState := newState + [StateToRight(stateList[k], newLine)];
      }
      stateList := newState;
    }

    method MoveDown()
      requires Valid()
      modifies this
      ensures Valid() && rotation == old(rotation) && |stateList| == |old(stateList)|
      ensures forall k :: 0 <= k < |stateList| ==> stateList[k] == StateToDown(old(stateList)[k], newLine)
    {
      var newState: seq<seq<int>> := [];
      for k := 0 to |stateList|
        invariant |newState| == k
        invariant forall j :: 0 <= j < k ==> newState[j] == StateToDown(stateList[j], newLine)
      {
        newState := newState + [StateToDown(stateList[k], newLine)];
      }
      stateList := newState;
    }

    /** The state `move` makes current. */
    function After(move: Move): (r: seq<int>)
      reads this
      requires Valid()
      ensures r == MovedStates(stateList, move, newLine)[MovedRotation(rotation, move, |stateList|)]
    {
      match move
      case RotateMove => NextRotate()
      case LeftMove => StateToLeft(State(), newLine)
      case RightMove => StateToRight(State(), newLine)
      case DownMove => StateToDown(State(), newLine)
    }

    /** The bound method `Grid.action` is handed. */
    method Apply(move: Move)
      requires Valid()
      modifies this
      ensures Valid() && State() == old(After(move))
      ensures stateList == MovedStates(old(stateList), move, newLine)
      ensures rotation == MovedRotation(old(rotation), move, |stateList|)
    {
      match move
      case RotateMove => Rotate();
      case LeftMove => MoveLeft();
      case RightMove => MoveRight();
      case DownMove => MoveDown();
    }
  }

  // ---------------------------------------------------------------------
  // The grid

  /** Every cell index moved by `d`. */
  function Shifted(state: seq<int>, d: int): (r: seq<int>)
    ensures |r| == |state| && forall k :: 0 <= k < |r| ==> r[k] == state[k] + d
  {
    seq(|state|, k requires 0 <= k < |state| => state[k] + d)
  }

  /** A row of `width` free cells. */
  function FreeRow(width: nat): (row: seq<Cell>)
    ensures |row| == width && forall c :: 0 <= c < width ==> row[c] == Free
  {
    seq(width, _ => Free)
  }

  predicate FullRow(row: seq<Cell>) {
    forall c :: 0 <= c < |row| ==> row[c] == Token
  }

  /** How many rows at the bottom of `rows` are full. */
  function TrailingFull(rows: seq<seq<Cell>>): (k: nat)
    ensures k <= |rows|
  {
    if |rows| == 0 || !FullRow(rows[|rows| - 1]) then 0
    else 1 + TrailingFull(rows[..|rows| - 1])
  }

  /** `k` free rows. */
  function FreeRows(k: nat, width: nat): (rows: seq<seq<Cell>>)
    ensures |rows| == k && forall l :: 0 <= l < k ==> rows[l] == FreeRow(width)
  {
    seq(k, _ => FreeRow(width))
  }

  /** The rows after every full bottom row has been dropped and replaced by
      a free row on top. */
  function Broken(rows: seq<seq<Cell>>, width: nat): seq<seq<Cell>> {
    var k := TrailingFull(rows);
    FreeRows(k, width) + rows[..|rows| - k]
  }

  /** A free row above rows that are not all full leaves the count of full
      bottom rows unchanged. */
  lemma {:induction false} TrailingFullBelowFreeRow(rows: seq<seq<Cell>>, width: nat)
    requires width > 0
    ensures TrailingFull([FreeRow(width)] + rows) == TrailingFull(rows)
    decreases |rows|
  {
    var g := [FreeRow(width)] + rows;
    assert !FullRow(FreeRow(width)) by {
      assert FreeRow(width)[0] == Free;
    }
    if |rows| != 0 {
      assert g[|g| - 1] == rows[|rows| - 1];
      assert g[..|g| - 1] == [FreeRow(width)] + rows[..|rows| - 1];
      TrailingFullBelowFreeRow(rows[..|rows| - 1], width);
    }
  }

  /** Dropping a full bottom row and inserting a free row on top does not
      change what breaking the lines gives. */
  lemma BrokenStep(g: seq<seq<Cell>>, width: nat)
    requires width > 0 && |g| > 0 && FullRow(g[|g| - 1])
    ensures Broken([FreeRow(width)] + g[..|g| - 1], width) == Broken(g, width)
  {
    TrailingFullBelowFreeRow(g[..|g| - 1], width);
    var k := TrailingFull(g);
    var h := [FreeRow(width)] + g[..|g| - 1];
    assert TrailingFull(h) == k - 1;
    calc {
      Broken(h, width);
      FreeRows(k - 1, width) + h[..|g| - (k - 1)];
      { assert h[..|g| - (k - 1)] == [FreeRow(width)] + g[..|g| - k]; }
      FreeRows(k - 1, width) + ([FreeRow(width)] + g[..|g| - k]);
      { assert FreeRows(k - 1, width) + [FreeRow(width)] == FreeRows(k, width); }
      FreeRows(k, width) + g[..|g| - k];
    }
  }

  /** After the full bottom rows are dropped, the grid keeps its size and its
      bottom row is not full. */
  lemma BrokenKeepsShape(rows: seq<seq<Cell>>, width: nat)
    requires width > 0 && |rows| > 0
    requires forall l :: 0 <= l < |rows| ==> |rows[l]| == width
    ensures |Broken(rows, width)| == |rows|
    ensures forall l :: 0 <= l < |rows| ==> |Broken(rows, width)[l]| == width
    ensures !FullRow(Broken(rows, width)[|rows| - 1])
  {
    var k := TrailingFull(rows);
    var b := Broken(rows, width);
    if k < |rows| {
      TrailingFullStops(rows);
      assert b[|rows| - 1] == rows[|rows| - k - 1];
    } else {
      assert b[|rows| - 1] == FreeRow(width);
      assert FreeRow(width)[0] == Free;
    }
  }

  /** The row just above the full bottom rows is not full. */
  lemma {:induction false} TrailingFullStops(rows: seq<seq<Cell>>)
    requires TrailingFull(rows) < |rows|
    ensures !FullRow(rows[|rows| - 1 - TrailingFull(rows)])
    decreases |rows|
  {
    if FullRow(rows[|rows| - 1]) {
      var init := rows[..|rows| - 1];
      TrailingFullStops(init);
      assert init[|init| - 1 - TrailingFull(init)] == rows[|rows| - 1 - TrailingFull(rows)];
    }
  }

  /** The playing grid and the piece last placed on it. */
  class Grid {
    const height: nat
    const width: nat
    var piece: Tetromino?
    var cells: seq<seq<Cell>>

    /** The grid has `height` rows of `width` cells. */
    ghost predicate Shaped()
      reads this
    {
      width > 0 && Sized(cells)
    }

    predicate Sized(g: seq<seq<Cell>>) {
      |g| == height && forall l :: 0 <= l < height ==> |g[l]| == width
    }

    ghost predicate Valid()
      reads this, piece
    {
      Shaped() && (piece != null ==> piece.Valid() && piece.newLine == width)
    }

    constructor (height: nat, width: nat)
      requires width > 0
      ensures Valid() && this.height == height && this.width == width
      ensures piece == null && cells == FreeRows(height, width)
    {
      this.height := height;
      this.width := width;
      piece := null;
      cells := FreeRows(height, width);
    }

    function GetValue(line: int, column: int): int {
      line * width + column
    }

    function GetIndex(value: int): (int, int)
      requires width > 0
    {
      (value / width, value % width)
    }

    /** A cell index inside the grid. */
    predicate OnGrid(v: int)
      requires width > 0
    {
      0 <= v / width < height
    }

    predicate AllOnGrid(state: seq<int>)
      requires width > 0
    {
      forall v :: v in state ==> OnGrid(v)
    }

    /** The cell at index `v`. */
    function At(v: int): Cell
      reads this
      requires Shaped() && OnGrid(v)
    {
      CellOf(cells, v)
    }

    function CellOf(g: seq<seq<Cell>>, v: int): Cell
      requires width > 0 && Sized(g) && OnGrid(v)
    {
      g[v / width][v % width]
    }

    /** Splitting a cell index into line and column and joining them back is
        the identity on columns inside the grid. */
    lemma IndexOfValue(line: int, column: int)
      requires width > 0 && 0 <= column < width
      ensures GetIndex(GetValue(line, column)) == (line, column)
      ensures GetValue(GetIndex(GetValue(line, column)).0, GetIndex(GetValue(line, column)).1) == GetValue(line, column)
    {
      DivModUnique(line * width + column, width, line, column);
    }

    /** `cells` with exactly the listed cells set to `value`. */
    function Painted(g: seq<seq<Cell>>, state: seq<int>, value: Cell): (r: seq<seq<Cell>>)
      requires Sized(g)
      ensures Sized(r)
    {
      seq(height, l requires 0 <= l < height =>
        seq(width, c requires 0 <= c < width =>
          if GetValue(l, c) in state then value else g[l][c]))
    }

    /** `update_cell` sets exactly the listed cells and leaves every other cell
        as it was. */
    method UpdateCell(state: seq<int>, value: Cell)
      requires Valid() && AllOnGrid(state)
      modifies this
      ensures Valid() && piece == old(piece)
      ensures cells == Painted(old(cells), state, value)
    {
      ghost var g := cells;
      assert Painted(g, state[..0], value) == g by {
        forall l | 0 <= l < height ensures Painted(g, state[..0], value)[l] == g[l] {
        }
      }
      for k := 0 to |state|
        invariant Valid() && piece == old(piece)
        invariant cells == Painted(g, state[..k], value)
      {
        var v := state[k];
        assert v in state;
        var line, column := v / width, v % width;
        PaintOneMore(g, state, k, value);
        cells := cells[line := cells[line][column := value]];
      }
      assert state[..|state|] == state;
    }

    lemma PaintOneMore(g: seq<seq<Cell>>, state: seq<int>, k: nat, value: Cell)
      requires width > 0 && k < |state| && OnGrid(state[k])
      requires Sized(g)
      ensures var p := Painted(g, state[..k], value);
              var line, column := state[k] / width, state[k] % width;
              Painted(g, state[..k + 1], value) == p[line := p[line][column := value]]
    {
      var v := state[k];
      var p := Painted(g, state[..k], value);
      var line, column := v / width, v % width;
      assert state[..k + 1] == state[..k] + [v];
      assert v == line * width + column;
      var q := p[line := p[line][column := value]];
      var r := Painted(g, state[..k + 1], value);
      forall l | 0 <= l < height ensures r[l] == q[l] {
        forall c | 0 <= c < width ensures r[l][c] == q[l][c] {
          if GetValue(l, c) == v {
            IndexOfValue(l, c);
          }
          assert GetValue(l, c) in state[..k + 1] <==> GetValue(l, c) in state[..k] || GetValue(l, c) == v;
        }
      }
    }

    /** Some listed cell holds a token. */
    predicate Collides(state: seq<int>)
      reads this
      requires Shaped() && AllOnGrid(state)
    {
      CollidesIn(cells, state)
    }

    predicate CollidesIn(g: seq<seq<Cell>>, state: seq<int>)
      requires width > 0 && Sized(g)
    {
      exists v :: v in state && OnGrid(v) && CellOf(g, v) == Token
    }

    /** `state_valid`: none of the listed cells holds a token. */
    method StateValid(state: seq<int>) returns (valid: bool)
      requires Shaped() && AllOnGrid(state)
      ensures valid <==> !Collides(state)
    {
      for k := 0 to |state|
        invariant forall j :: 0 <= j < k ==> At(state[j]) != Token
      {
        assert state[k] in state;
        var line, column := state[k] / width, state[k] % width;
        if cells[line][column] == Token {
          assert At(state[k]) == Token;
          return false;
        }
      }
      return true;
    }

    predicate IsOnLeftFrontier()
      reads this, piece
      requires Valid() && piece != null
    {
      exists v :: v in piece.State() && v % width == 0
    }

    predicate IsOnRightFrontier()
      reads this, piece
      requires Valid() && piece != null
    {
      exists v :: v in piece.State() && v % width == width - 1
    }

    predicate IsOnFloor()
      reads this, piece
      requires Valid() && piece != null
    {
      exists v :: v in piece.State() && (height - 1) * width <= v
    }

    predicate IsGameOver()
      reads this
      requires Shaped() && height > 0
    {
      exists c :: 0 <= c < width && cells[0][c] == Token
    }

    /** The game is over exactly when the top row is not all free. */
    lemma GameOverIffTopRowTaken()
      requires Shaped() && height > 0
      ensures IsGameOver() <==> cells[0] != FreeRow(width)
    {
      if !IsGameOver() {
        forall c | 0 <= c < width ensures cells[0][c] == FreeRow(width)[c] {
          assert cells[0][c] != Token;
        }
      } else {
        var c :| 0 <= c < width && cells[0][c] == Token;
        assert FreeRow(width)[c] == Free;
      }
    }

    /** `break_line`: while the bottom row is full, drop it and insert a free
        row on top. */
    method BreakLine()
      requires Valid() && height > 0
      modifies this
      ensures Valid() && piece == old(piece)
      ensures cells == Broken(old(cells), width)
      decreases TrailingFull(cells)
    {
      var lastLine := cells[|cells| - 1];
      if FullRow(lastLine) {
        ghost var g := cells;
        cells := [FreeRow(width)] + cells[..|cells| - 1];
        TrailingFullBelowFreeRow(g[..|g| - 1], width);
        BrokenStep(g, width);
        BreakLine();
      }
    }

    /** `place`: the piece becomes current and its cells become tokens. */
    method Place(tetro: Tetromino)
      requires Valid() && tetro.Valid() && tetro.newLine == width && AllOnGrid(tetro.State())
      modifies this
      ensures Valid() && piece == tetro
      ensures cells == Painted(old(cells), tetro.State(), Token)
    {
      piece := tetro;
      UpdateCell(tetro.State(), Token);
    }

    /** The piece's cells are the tokens it left on the grid. */
    predicate Placed()
      reads this, piece
      requires Valid() && piece != null && AllOnGrid(piece.State())
    {
      forall v :: v in piece.State() ==> At(v) == Token
    }

    /** `action`: unless the piece is on the floor, free its cells, and if the
        new state collides with nothing, move the piece; then mark the
        piece's cells as tokens again. */
    method Action(newState: seq<int>, move: Move)
      requires Valid() && piece != null && AllOnGrid(piece.State())
      requires newState == piece.After(move)
      requires !IsOnFloor() ==> AllOnGrid(newState)
      modifies this, piece
      ensures Valid() && piece == old(piece)
      ensures old(IsOnFloor()) ==> cells == old(cells) && unchanged(piece)
      ensures !old(IsOnFloor()) ==>
                var freed := Painted(old(cells), old(piece.State()), Free);
                if CollidesIn(freed, newState) then
                  cells == Painted(freed, old(piece.State()), Token) && unchanged(piece)
                else
                  cells == Painted(freed, newState, Token) && piece.State() == newState &&
                  piece.stateList == MovedStates(old(piece.stateList), move, width) &&
                  piece.rotation == MovedRotation(old(piece.rotation), move, |piece.stateList|)
      ensures old(Placed()) && !old(IsOnFloor()) &&
              CollidesIn(Painted(old(cells), old(piece.State()), Free), newState) ==>
                cells == old(cells)
    {
      if !IsOnFloor() {
        var state := piece.State();
        ghost var before := cells;
        UpdateCell(state, Free);
        var valid := StateValid(newState);
        if valid {
          piece.Apply(move);
          UpdateCell(piece.State(), Token);
        } else {
          UpdateCell(piece.State(), Token);
          if old(Placed()) {
            FreeThenMarkRestores(before, state);
          }
        }
      }
    }
  
    /** Freeing the cells of a placed piece and marking them again gives
        back the grid it started from. */
    lemma FreeThenMarkRestores(g: seq<seq<Cell>>, state: seq<int>)
      requires width > 0 && Sized(g) && AllOnGrid(state)
      requires forall v :: v in state ==> CellOf(g, v) == Token
      ensures Painted(Painted(g, state, Free), state, Token) == g
    {
      var r := Painted(Painted(g, state, Free), state, Token);
      forall l | 0 <= l < height ensures r[l] == g[l] {
        forall c | 0 <= c < width ensures r[l][c] == g[l][c] {
          if GetValue(l, c) in state {
            IndexOfValue(l, c);
            assert CellOf(g, GetValue(l, c)) == g[l][c];
          }
        }
      }
    }

    /** `rotate`: turn the piece if the next state is free. */
    method Rotate()
      requires Valid() && piece != null && AllOnGrid(piece.State())
      requires !IsOnFloor() ==> AllOnGrid(piece.NextRotate())
      modifies this, piece
      ensures Valid() && piece == old(piece)
      ensures old(IsOnFloor()) ==> cells == old(cells) && unchanged(piece)
      ensures !old(IsOnFloor()) ==>
                var freed := Painted(old(cells), old(piece.State()), Free);
                var next := old(piece.NextRotate());
                if CollidesIn(freed, next) then
                  cells == Painted(freed, old(piece.State()), Token) && unchanged(piece)
                else
                  cells == Painted(freed, next, Token) && piece.State() == next &&
                  piece.stateList == old(piece.stateList) &&
                  piece.rotation == (old(piece.rotation) + 1) % |piece.stateList|
    {
      var stateRotate := piece.NextRotate();
      Action(stateRotate, RotateMove);
    }

    /** `left`: nothing happens when the piece touches the left border. */
    method Left()
      requires Valid() && piece != null && AllOnGrid(piece.State())
      modifies this, piece
      ensures Valid() && piece == old(piece)
      ensures old(IsOnLeftFrontier() || IsOnFloor()) ==> cells == old(cells) && unchanged(piece)
      ensures !old(IsOnLeftFrontier() || IsOnFloor()) ==>
                var freed := Painted(old(cells), old(piece.State()), Free);
                var shifted := Shifted(old(piece.State()), -1);
                if CollidesIn(freed, shifted) then
                  cells == Painted(freed, old(piece.State()), Token) && unchanged(piece)
                else
                  cells == Painted(freed, shifted, Token) && piece.State() == shifted &&
                  piece.stateList == MovedStates(old(piece.stateList), LeftMove, width) &&
                  piece.rotation == old(piece.rotation)
    {
      var stateLeft := StateToLeft(piece.State(), piece.newLine);
      if !IsOnLeftFrontier() {
        LeftAwayFromBorder(piece.State());
        Action(stateLeft, LeftMove);
      }
    }

    /** Away from the left border, moving left is one index down and stays
        in the row. */
    lemma LeftAwayFromBorder(state: seq<int>)
      requires width > 0 && AllOnGrid(state)
      requires forall v :: v in state ==> v % width != 0
      ensures AllOnGrid(StateToLeft(state, width))
      ensures StateToLeft(state, width) == Shifted(state, -1)
    {
      var r := StateToLeft(state, width);
      forall k | 0 <= k < |state| ensures r[k] == state[k] - 1 {
        var v := state[k];
        assert v in state;
        DivModUnique(v - 1, width, v / width, v % width - 1);
      }
      forall u | u in r ensures OnGrid(u) {
        var k :| 0 <= k < |r| && r[k] == u;
        assert state[k] in state;
      }
    }

    /** `right`: nothing happens when the piece touches the right border. */
    method Right()
      requires Valid() && piece != null && AllOnGrid(piece.State())
      modifies this, piece
      ensures Valid() && piece == old(piece)
      ensures old(IsOnRightFrontier() || IsOnFloor()) ==> cells == old(cells) && unchanged(piece)
      ensures !old(IsOnRightFrontier() || IsOnFloor()) ==>
                var freed := Painted(old(cells), old(piece.State()), Free);
                var shifted := Shifted(old(piece.State()), 1);
                if CollidesIn(freed, shifted) then
                  cells == Painted(freed, old(piece.State()), Token) && unchanged(piece)
                else
                  cells == Painted(freed, shifted, Token) && piece.State() == shifted &&
                  piece.stateList == MovedStates(old(piece.stateList), RightMove, width) &&
                  piece.rotation == old(piece.rotation)
    {
      var stateRight := StateToRight(piece.State(), piece.newLine);
      if !IsOnRightFrontier() {
        RightAwayFromBorder(piece.State());
        Action(stateRight, RightMove);
      }
    }

    /** Away from the right border, moving right is one index up and stays
        in the row. */
    lemma RightAwayFromBorder(state: seq<int>)
      requires width > 0 && AllOnGrid(state)
      requires forall v :: v in state ==> v % width != width - 1
      ensures AllOnGrid(StateToRight(state, width))
      ensures StateToRight(state, width) == Shifted(state, 1)
    {
      var r := StateToRight(state, width);
      forall k | 0 <= k < |state| ensures r[k] == state[k] + 1 {
        var v := state[k];
        assert v in state;
        DivModUnique(v + 1, width, v / width, v % width + 1);
      }
      forall u | u in r ensures OnGrid(u) {
        var k :| 0 <= k < |r| && r[k] == u;
        assert state[k] in state;
      }
    }

    /** `down`: one row further down unless the piece is on the floor. */
    method Down()
      requires Valid() && piece != null && AllOnGrid(piece.State())
      modifies this, piece
      ensures Valid() && piece == old(piece)
      ensures old(IsOnFloor()) ==> cells == old(cells) && unchanged(piece)
      ensures !old(IsOnFloor()) ==>
                var freed := Painted(old(cells), old(piece.State()), Free);
                var lowered := StateToDown(old(piece.State()), width);
                if CollidesIn(freed, lowered) then
                  cells == Painted(freed, old(piece.State()), Token) && unchanged(piece)
                else
                  cells == Painted(freed, lowered, Token) && piece.State() == lowered &&
                  piece.stateList == MovedStates(old(piece.stateList), DownMove, width) &&
                  piece.rotation == old(piece.rotation)
    {
      var stateDown := StateToDown(piece.State(), piece.newLine);
      if !IsOnFloor() {
        AboveFloorCanDrop(piece.State());
      }
      Action(stateDown, DownMove);
    }

    /** Cells above the bottom row can drop by one row and stay on the grid. */
    lemma AboveFloorCanDrop(state: seq<int>)
      requires width > 0 && AllOnGrid(state)
      requires forall v :: v in state ==> v < (height - 1) * width
      ensures AllOnGrid(StateToDown(state, width))
    {
      var r := StateToDown(state, width);
      forall u | u in r ensures OnGrid(u) {
        var k :| 0 <= k < |r| && r[k] == u;
        var v := state[k];
        assert v in state;
        var q := v / width;
        assert v == q * width + v % width;
        if q >= height - 1 {
          MulNonneg(q - (height - 1), width);
          assert false;
        }
      }
    }
  }
}
