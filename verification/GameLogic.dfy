/**
 The falling-block game: a frame divider that clocks the downward move, sideways motion computed between frames,
 and the board. Registers have their hardware widths; nonblocking assignments read the values before the edge.
 */
module GameLogic {
  import opened Words

  const BOARD_WIDTH: nat := 11
  const BOARD_HEIGHT: nat := 18
  const FRAMES_PER_MOVE: nat := 13
  const KEY_LEFT: Byte := 0x04
  const KEY_RIGHT: Byte := 0x07

  /** One value for each of the piece's four blocks. */
  datatype Quad = Quad(b1: nat, b2: nat, b3: nat, b4: nat)
  {
    predicate Below(n: nat) { b1 < n && b2 < n && b3 < n && b4 < n }
    predicate Above(n: nat) { b1 > n && b2 > n && b3 > n && b4 > n }
  }

  type Row = r: seq<bool> | |r| == 16 witness seq(16, _ => false)
  type Board = b: seq<Row> | |b| == BOARD_HEIGHT + 1 witness seq(BOARD_HEIGHT + 1, _ => seq(16, _ => false))

  datatype State = State(
      x: Quad, y: Quad, xMotion: nat, yMotion: nat, board: Board, pieceCount: nat, color: nat,
      frameCount: nat, moveClk: bool, reset: bool)

  // ------------------------------------------------------------------ what one edge does

  /** A 6-bit column plus a 7-bit motion: -1 is 127. */
  function Column(x: nat, motion: nat): nat { (x + motion) % 64 }

  /** A 7-bit row plus an 8-bit motion, in the 8 bits of the sum. */
  function RowSum(y: nat, motion: nat): nat { (y + motion) % 256 }

  /** The next value of a counter register that wraps at a size. */
  function Next(count: nat, size: nat): nat { if count + 1 == size then 0 else count + 1 }

  function Columns(x: Quad, motion: nat): Quad
  {
    Quad(Column(x.b1, motion), Column(x.b2, motion), Column(x.b3, motion), Column(x.b4, motion))
  }

  function Rows(y: Quad, motion: nat): Quad
  {
    Quad(RowSum(y.b1, motion) % 128, RowSum(y.b2, motion) % 128, RowSum(y.b3, motion) % 128, RowSum(y.b4, motion) % 128)
  }

  /** Block codes of rotation 0 of each piece: three bits of row, three of column. */
  function Piece(count: nat): Quad
  {
    if count == 1 then Quad(0x00, 0x01, 0x08, 0x09) else Quad(0x00, 0x08, 0x09, 0x11)
  }

  function PieceRows(count: nat): Quad
  {
    var p := Piece(count);
    Quad(p.b1 / 8, p.b2 / 8, p.b3 / 8, p.b4 / 8)
  }

  predicate Occupied(board: Board, row: nat, col: nat)
  {
    row < |board| && col < 16 && board[row][col]
  }

  /** Writing outside the board has no effect. */
  function Set(board: Board, row: nat, col: nat): Board
  {
    if row < |board| && col < 16 then board[row := board[row][col := true]] else board
  }

  function SetAll(board: Board, y: Quad, x: Quad): Board
  {
    Set(Set(Set(Set(board, y.b1, x.b1), y.b2, x.b2), y.b3, x.b3), y.b4, x.b4)
  }

  /** One block cannot move down: the cell below is set, or the sum is past the last row. */
  predicate Stops(board: Board, y: nat, x: nat, motion: nat)
  {
    Occupied(board, RowSum(y, motion), x) || RowSum(y, motion) >= BOARD_HEIGHT
  }

  predicate Blocked(s: State)
  {
    || Stops(s.board, s.y.b1, s.x.b1, s.yMotion) || Stops(s.board, s.y.b2, s.x.b2, s.yMotion)
    || Stops(s.board, s.y.b3, s.x.b3, s.yMotion) || Stops(s.board, s.y.b4, s.x.b4, s.yMotion)
  }

  /** MoveY_Block outside reset. */
  function MovedY(s: State): State
  {
    if Blocked(s) then
      s.(board := SetAll(s.board, s.y, s.x), y := PieceRows(s.pieceCount), color := Next(s.color, 16),
         pieceCount := if s.pieceCount == 2 then 0 else Next(s.pieceCount, 8))
    else s.(y := Rows(s.y, s.yMotion))
  }

  /** The divider raises the move clock on this frame edge. */
  predicate Rises(s: State) { !s.reset && s.frameCount > FRAMES_PER_MOVE && !s.moveClk }

  function Divided(s: State): State
  {
    if s.reset then s.(frameCount := 0)
    else if s.frameCount > FRAMES_PER_MOVE then s.(frameCount := 0, moveClk := true)
    else s.(frameCount := Next(s.frameCount, 64), moveClk := false)
  }

  /**
   A frame edge: the divider, then the columns, which move in reset too because the later assignments override the
   reset values; the move clock's own edge comes after both and sees the new columns. It never comes in reset, so
   the reset branch of the downward move is never taken.
   */
  function FrameStep(s: State): State
  {
    var moved := Divided(s).(x := Columns(s.x, s.xMotion));
    if Rises(s) then MovedY(moved) else moved
  }

  /** Input_Block, on every edge of Clk and at the start of a reset. */
  function Input(s: State, key: Byte): State
  {
    s.(xMotion := if key == KEY_LEFT && s.x.Above(0) then 127
                  else if key == KEY_RIGHT && s.x.Below(BOARD_WIDTH) then 1 else 0,
       yMotion := 1)
  }

  datatype Event = Clk(key: Byte) | ResetRise(key: Byte) | ResetFall | Frame

  function Step(s: State, e: Event): State
  {
    match e
    case Clk(key) => Input(s, key)
    case ResetRise(key) => Input(s, key).(reset := true, frameCount := 0)
    case ResetFall => s.(reset := false)
    case Frame => FrameStep(s)
  }

  // ------------------------------------------------------------------ what every run keeps

  predicate InRange(x: Quad) { x.Below(BOARD_WIDTH + 1) }

  /** The motion fits the columns: nothing leaves the board on the next frame edge. */
  predicate Fits(s: State)
  {
    s.xMotion == 0 || (s.xMotion == 127 && s.x.Above(0)) || (s.xMotion == 1 && s.x.Below(BOARD_WIDTH))
  }

  /** One block stays on the board exactly when its motion leads to it. */
  lemma ColumnStaysIff(x: nat, motion: nat)
    requires x <= BOARD_WIDTH && motion in {0, 1, 127}
    ensures Column(x, motion) <= BOARD_WIDTH <==>
              motion == 0 || (motion == 127 && x > 0) || (motion == 1 && x < BOARD_WIDTH)
  {
  }

  /** A frame edge keeps the columns on the board exactly when the motion fits them. */
  lemma ColumnsStayIff(s: State)
    requires InRange(s.x) && s.xMotion in {0, 1, 127}
    ensures InRange(FrameStep(s).x) <==> Fits(s)
  {
    ColumnStaysIff(s.x.b1, s.xMotion);
    ColumnStaysIff(s.x.b2, s.xMotion);
    ColumnStaysIff(s.x.b3, s.xMotion);
    ColumnStaysIff(s.x.b4, s.xMotion);
  }

  /** Columns and rows on the board; once there was a Clk edge since the last frame edge, motions that fit. */
  ghost predicate Good(s: State, armed: bool)
  {
    && InRange(s.x) && s.y.Below(BOARD_HEIGHT) && s.pieceCount <= 2 && s.color < 16
    && s.frameCount <= FRAMES_PER_MOVE + 1 && (s.frameCount > 0 ==> !s.moveClk)
    && (armed ==> Fits(s) && s.yMotion == 1)
  }

  predicate Armed(armed: bool, e: Event)
  {
    e.Clk? || e.ResetRise? || (armed && !e.Frame?)
  }

  /** Offsets between the blocks' columns. */
  predicate SameShape(x: Quad, z: Quad)
  {
    z.b2 - z.b1 == x.b2 - x.b1 && z.b3 - z.b1 == x.b3 - x.b1 && z.b4 - z.b1 == x.b4 - x.b1
  }

  lemma ColumnsMove(s: State)
    requires InRange(s.x) && Fits(s)
    ensures InRange(Columns(s.x, s.xMotion)) && SameShape(s.x, Columns(s.x, s.xMotion))
  {
  }

  /** The columns a piece is in after a move by so many. */
  predicate Shifted(x: Quad, z: Quad, shift: int)
  {
    z.b1 == x.b1 + shift && z.b2 == x.b2 + shift && z.b3 == x.b3 + shift && z.b4 == x.b4 + shift
  }

  lemma OneColumn(x: nat)
    requires x <= 11
    ensures Column(x, 0) == x && Column(x, 1) == x + 1 && (x > 0 ==> Column(x, 127) == x - 1)
  {
  }

  lemma ColumnsShift(x: Quad)
    requires InRange(x)
    ensures Shifted(x, Columns(x, 0), 0) && Shifted(x, Columns(x, 1), 1) && (x.Above(0) ==> Shifted(x, Columns(x, 127), -1))
  {
    OneColumn(x.b1);
    OneColumn(x.b2);
    OneColumn(x.b3);
    OneColumn(x.b4);
  }

  /** What the next frame edge after a key moves the piece by: A, 0x04, to the left, and D, 0x07, to the right. */
  function MovesBy(x: Quad, key: Byte): int
  {
    if key == 0x04 && 0 < x.b1 && 0 < x.b2 && 0 < x.b3 && 0 < x.b4 then -1
    else if key == 0x07 && x.b1 < 11 && x.b2 < 11 && x.b3 < 11 && x.b4 < 11 then 1
    else 0
  }

  /** A key moves the whole piece by one column, unless a block of it is at that edge; any other key moves nothing. */
  lemma KeyMoves(s: State, key: Byte)
    requires InRange(s.x)
    ensures Shifted(s.x, FrameStep(Step(s, Clk(key))).x, MovesBy(s.x, key))
    ensures Shifted(s.x, FrameStep(Step(s, ResetRise(key))).x, MovesBy(s.x, key))
  {
    ColumnsShift(s.x);
  }

  /**
   Only a frame edge moves the piece across, and only one with a move clock moves it down or changes the board. In reset the
   frames are not counted.
   */
  lemma NothingElseMoves(s: State, e: Event)
    ensures !e.Frame? ==> Step(s, e).x == s.x
    ensures !Moves(s, e) ==>
              var t := Step(s, e);
              t.y == s.y && t.board == s.board && t.pieceCount == s.pieceCount && t.color == s.color
    ensures Step(s, e).reset == (e.ResetRise? || (s.reset && !e.ResetFall?))
    ensures e.ResetRise? || (e.Frame? && s.reset) ==> Step(s, e).frameCount == 0
  {
  }

  predicate Free(board: Board, y: Quad, x: Quad)
  {
    && !Occupied(board, y.b1, x.b1) && !Occupied(board, y.b2, x.b2)
    && !Occupied(board, y.b3, x.b3) && !Occupied(board, y.b4, x.b4)
  }

  function OneDown(y: Quad): Quad { Quad(y.b1 + 1, y.b2 + 1, y.b3 + 1, y.b4 + 1) }

  /** One row down does not leave the hardware widths. */
  lemma RowBelow(y: nat)
    requires y < BOARD_HEIGHT
    ensures RowSum(y, 1) == y + 1 && RowSum(y, 1) % 128 == y + 1
  {
  }

  lemma StopsIff(s: State)
    requires s.y.Below(BOARD_HEIGHT) && s.yMotion == 1
    ensures Blocked(s) <==> !s.y.Below(BOARD_HEIGHT - 1) || !Free(s.board, OneDown(s.y), s.x)
    ensures Rows(s.y, s.yMotion) == OneDown(s.y)
  {
    RowBelow(s.y.b1);
    RowBelow(s.y.b2);
    RowBelow(s.y.b3);
    RowBelow(s.y.b4);
  }

  /** The downward move keeps the rows on the board and touches no column. */
  lemma MovedYKeeps(s: State)
    requires s.y.Below(BOARD_HEIGHT) && s.pieceCount <= 2 && s.yMotion == 1
    ensures var t := MovedY(s);
            && t.y.Below(BOARD_HEIGHT) && t.pieceCount <= 2 && t.x == s.x && (s.color < 16 ==> t.color < 16)
            && t.frameCount == s.frameCount && t.moveClk == s.moveClk && t.reset == s.reset
  {
    StopsIff(s);
  }

  lemma FrameKeepsGood(s: State)
    requires Good(s, true)
    ensures Good(FrameStep(s), false) && SameShape(s.x, FrameStep(s).x)
  {
    var moved := Divided(s).(x := Columns(s.x, s.xMotion));
    ColumnsMove(s);
    MovedYKeeps(moved);
  }

  lemma StepKeepsGood(s: State, e: Event, armed: bool)
    requires Good(s, armed) && (e.Frame? ==> armed)
    ensures Good(Step(s, e), Armed(armed, e)) && SameShape(s.x, Step(s, e).x)
  {
    if e.Frame? {
      FrameKeepsGood(s);
    }
  }

  /** The environment: at least one Clk edge before each frame edge since the previous one. */
  predicate Clocked(armed: bool, events: seq<Event>)
    decreases |events|
  {
    events == [] || ((events[0].Frame? ==> armed) && Clocked(Armed(armed, events[0]), events[1..]))
  }

  function After(s: State, events: seq<Event>): State
    decreases |events|
  {
    if events == [] then s else After(Step(s, events[0]), events[1..])
  }

  /** On every run with enough Clk edges the blocks stay on the board, and the piece keeps its shape across. */
  lemma {:induction false} BlocksStayOnBoard(s: State, events: seq<Event>, armed: bool)
    requires Good(s, armed) && Clocked(armed, events)
    ensures var t := After(s, events);
            InRange(t.x) && t.y.Below(BOARD_HEIGHT) && SameShape(s.x, t.x)
    decreases |events|
  {
    if events == [] {
    } else {
      StepKeepsGood(s, events[0], armed);
      BlocksStayOnBoard(Step(s, events[0]), events[1..], Armed(armed, events[0]));
    }
  }

  /** All columns on the board before, between and after all the events. */
  ghost predicate OnBoardAllAlong(s: State, events: seq<Event>)
    decreases |events|
  {
    InRange(s.x) && (events == [] || OnBoardAllAlong(Step(s, events[0]), events[1..]))
  }

  /** The motion fits the columns at every frame edge. */
  ghost predicate FitsAtEveryFrame(s: State, events: seq<Event>)
    decreases |events|
  {
    events == [] || ((events[0].Frame? ==> Fits(s)) && FitsAtEveryFrame(Step(s, events[0]), events[1..]))
  }

  /** Exactly when the blocks stay on the board on a run: when the motion fits at every frame edge of it. */
  lemma {:induction false} OnBoardAllAlongIff(s: State, events: seq<Event>)
    requires InRange(s.x) && s.xMotion in {0, 1, 127}
    ensures OnBoardAllAlong(s, events) <==> FitsAtEveryFrame(s, events)
    decreases |events|
  {
    if events == [] {
    } else {
      var next := Step(s, events[0]);
      StepColumns(s, events[0]);
      if InRange(next.x) {
        OnBoardAllAlongIff(next, events[1..]);
      }
    }
  }

  lemma StepColumns(s: State, e: Event)
    requires InRange(s.x) && s.xMotion in {0, 1, 127}
    ensures InRange(Step(s, e).x) <==> (e.Frame? ==> Fits(s))
    ensures Step(s, e).xMotion in {0, 1, 127}
  {
    ColumnsStayIff(s);
  }

  /** Set cells stay set, whatever happens, resets included. */
  lemma {:induction false} BoardOnlyFills(s: State, events: seq<Event>, row: nat, col: nat)
    ensures Occupied(s.board, row, col) ==> Occupied(After(s, events).board, row, col)
    decreases |events|
  {
    if events == [] {
    } else {
      StepOnlyFills(s, events[0], row, col);
      BoardOnlyFills(Step(s, events[0]), events[1..], row, col);
    }
  }

  lemma SetOnlyFills(board: Board, r: nat, c: nat, row: nat, col: nat)
    ensures Occupied(Set(board, r, c), row, col) <==>
              Occupied(board, row, col) || (row == r && col == c && r < |board| && c < 16)
  {
  }

  lemma SetAllFills(board: Board, y: Quad, x: Quad, row: nat, col: nat)
    requires y.Below(BOARD_HEIGHT + 1) && x.Below(16)
    ensures Occupied(SetAll(board, y, x), row, col) <==>
              || Occupied(board, row, col) || (row == y.b1 && col == x.b1) || (row == y.b2 && col == x.b2)
              || (row == y.b3 && col == x.b3) || (row == y.b4 && col == x.b4)
  {
    var one := Set(board, y.b1, x.b1);
    var two := Set(one, y.b2, x.b2);
    var three := Set(two, y.b3, x.b3);
    SetOnlyFills(board, y.b1, x.b1, row, col);
    SetOnlyFills(one, y.b2, x.b2, row, col);
    SetOnlyFills(two, y.b3, x.b3, row, col);
    SetOnlyFills(three, y.b4, x.b4, row, col);
  }

  lemma StepOnlyFills(s: State, e: Event, row: nat, col: nat)
    ensures Occupied(s.board, row, col) ==> Occupied(Step(s, e).board, row, col)
  {
    if e.Frame? && Rises(s) {
      var x := Columns(s.x, s.xMotion);
      var one := Set(s.board, s.y.b1, x.b1);
      var two := Set(one, s.y.b2, x.b2);
      SetOnlyFills(s.board, s.y.b1, x.b1, row, col);
      SetOnlyFills(one, s.y.b2, x.b2, row, col);
      SetOnlyFills(two, s.y.b3, x.b3, row, col);
      SetOnlyFills(Set(two, s.y.b3, x.b3), s.y.b4, x.b4, row, col);
    }
  }

  // ------------------------------------------------------------------ moving down and locking

  predicate Locks(s: State, e: Event)
  {
    e.Frame? && Rises(s) && Blocked(Divided(s).(x := Columns(s.x, s.xMotion)))
  }

  predicate Moves(s: State, e: Event) { e.Frame? && Rises(s) }

  /** A move clock that does not lock takes each block down one row, into cells that are free; the board stays. */
  lemma DownwardStep(s: State, e: Event)
    requires Good(s, true) && Moves(s, e) && !Locks(s, e)
    ensures var t := Step(s, e);
            && t.y == OneDown(s.y)
            && t.board == s.board && Free(t.board, t.y, t.x) && t.pieceCount == s.pieceCount
  {
    StopsIff(Divided(s).(x := Columns(s.x, s.xMotion)));
  }

  /** A lock sets exactly the piece's cells, in the columns after this frame, and starts the next piece at the top. */
  lemma LockStep(s: State, e: Event, row: nat, col: nat)
    requires Good(s, true) && Locks(s, e)
    ensures var t := Step(s, e);
            && (Occupied(t.board, row, col) <==>
                  || Occupied(s.board, row, col) || (row == s.y.b1 && col == t.x.b1) || (row == s.y.b2 && col == t.x.b2)
                  || (row == s.y.b3 && col == t.x.b3) || (row == s.y.b4 && col == t.x.b4))
            && t.y == (if s.pieceCount == 1 then Quad(0, 0, 1, 1) else Quad(0, 1, 1, 2)) && t.color == (s.color + 1) % 16
            && t.pieceCount == (s.pieceCount + 1) % 3
  {
    StepKeepsGood(s, e, true);
    SetAllFills(s.board, s.y, Columns(s.x, s.xMotion), row, col);
  }

  /** A piece locks exactly when the cell below one of its blocks is set or is the last row. */
  lemma LocksIff(s: State)
    requires Good(s, true) && Rises(s)
    ensures var x := FrameStep(s).x;
            Locks(s, Frame) <==>
              || !s.y.Below(17)
              || !Free(s.board, OneDown(s.y), x)
  {
    StopsIff(Divided(s).(x := Columns(s.x, s.xMotion)));
  }

  function MoveCount(s: State, events: seq<Event>): nat
    decreases |events|
  {
    if events == [] then 0 else (if Moves(s, events[0]) then 1 else 0) + MoveCount(Step(s, events[0]), events[1..])
  }

  function LockCount(s: State, events: seq<Event>): nat
    decreases |events|
  {
    if events == [] then 0 else (if Locks(s, events[0]) then 1 else 0) + LockCount(Step(s, events[0]), events[1..])
  }

  function FrameCount(events: seq<Event>): nat
  {
    if events == [] then 0 else (if events[0].Frame? then 1 else 0) + FrameCount(events[1..])
  }

  function Lowest(y: Quad): (r: nat)
    ensures y.Below(r + 1)
  {
    var a := if y.b1 > y.b2 then y.b1 else y.b2;
    var b := if y.b3 > y.b4 then y.b3 else y.b4;
    if a > b then a else b
  }

  /** Without a lock a piece moves down at most to row 17. */
  lemma {:induction false} FallIsBounded(s: State, events: seq<Event>, armed: bool)
    requires Good(s, armed) && Clocked(armed, events) && LockCount(s, events) == 0
    ensures Lowest(s.y) + MoveCount(s, events) < 18
    decreases |events|
  {
    if events == [] {
    } else {
      StepKeepsGood(s, events[0], armed);
      if Moves(s, events[0]) {
        DownwardStep(s, events[0]);
      }
      FallIsBounded(Step(s, events[0]), events[1..], Armed(armed, events[0]));
    }
  }

  /** Some piece locks within any 18 move clocks. */
  lemma LockWithinEighteen(s: State, events: seq<Event>, armed: bool)
    requires Good(s, armed) && Clocked(armed, events) && MoveCount(s, events) >= 18
    ensures LockCount(s, events) > 0
  {
    if LockCount(s, events) == 0 {
      FallIsBounded(s, events, armed);
    }
  }

  predicate NoReset(events: seq<Event>)
  {
    forall i :: 0 <= i < |events| ==> !events[i].ResetRise?
  }

  /** One event of the divider outside reset, by the count before it. */
  lemma DividerStep(s: State, e: Event, armed: bool)
    requires Good(s, armed) && !s.reset && !e.ResetRise?
    ensures !Step(s, e).reset
    ensures !e.Frame? ==> Step(s, e).frameCount == s.frameCount && !Moves(s, e)
    ensures e.Frame? ==> (Moves(s, e) <==> s.frameCount == FRAMES_PER_MOVE + 1)
    ensures e.Frame? ==> Step(s, e).frameCount == if Moves(s, e) then 0 else s.frameCount + 1
  {
  }

  /** Outside reset there is exactly one move clock every fifteen frames. */
  lemma {:induction false} OneMoveEveryFifteen(s: State, events: seq<Event>, armed: bool)
    requires Good(s, armed) && Clocked(armed, events) && !s.reset && NoReset(events)
    ensures MoveCount(s, events) == (s.frameCount + FrameCount(events)) / 15
    ensures After(s, events).frameCount == (s.frameCount + FrameCount(events)) % 15
    decreases |events|
  {
    if events == [] {
    } else {
      StepKeepsGood(s, events[0], armed);
      DividerStep(s, events[0], armed);
      OneMoveEveryFifteen(Step(s, events[0]), events[1..], Armed(armed, events[0]));
    }
  }

  // ------------------------------------------------------------------ missing Clk edges

  /** Without a Clk edge in between, two frame edges can take a block from column 1 past the left edge to 63. */
  lemma LeavesBoardWithoutClk(s: State)
    requires Good(s, true) && s.x.b1 == 1 && s.xMotion == 127
    ensures FrameStep(FrameStep(s)).x.b1 == 63
  {
  }

  // ------------------------------------------------------------------ the registers

  class Game {
    var x: Quad
    var y: Quad
    var xMotion: nat
    var yMotion: nat
    const board: array<Row>
    var pieceCount: nat
    var color: nat
    var frameCount: nat
    var moveClk: bool
    var reset: bool

    ghost predicate Valid() { board.Length == BOARD_HEIGHT + 1 }

    ghost function Snapshot(): State
      requires Valid()
      reads this, board
    {
      State(x, y, xMotion, yMotion, board[..], pieceCount, color, frameCount, moveClk, reset)
    }

    method SetCell(row: nat, col: nat)
      requires Valid()
      modifies board
      ensures board[..] == Set(old(board[..]), row, col)
    {
      if row < board.Length && col < 16 {
        board[row] := board[row][col := true];
      }
    }

    method Cell(row: nat, col: nat) returns (isSet: bool)
      requires Valid()
      ensures isSet == Occupied(board[..], row, col)
    {
      isSet := row < board.Length && col < 16 && board[row][col];
    }

    /** The condition of MoveY_Block, block by block. */
    method IsBlocked() returns (blocked: bool)
      requires Valid()
      ensures blocked == Blocked(Snapshot())
    {
      var c1 := Cell(RowSum(y.b1, yMotion), x.b1);
      var c2 := Cell(RowSum(y.b2, yMotion), x.b2);
      var c3 := Cell(RowSum(y.b3, yMotion), x.b3);
      var c4 := Cell(RowSum(y.b4, yMotion), x.b4);
      blocked :=
        || c1 || RowSum(y.b1, yMotion) >= BOARD_HEIGHT || c2 || RowSum(y.b2, yMotion) >= BOARD_HEIGHT
        || c3 || RowSum(y.b3, yMotion) >= BOARD_HEIGHT || c4 || RowSum(y.b4, yMotion) >= BOARD_HEIGHT;
    }

    /** MoveY_Block. */
    method MoveY()
      requires Valid() && !reset
      modifies this`y, this`color, this`pieceCount, board
      ensures Snapshot() == MovedY(old(Snapshot()))
    {
      var blocked := IsBlocked();
      if blocked {
        SetCell(y.b1, x.b1);
        SetCell(y.b2, x.b2);
        SetCell(y.b3, x.b3);
        SetCell(y.b4, x.b4);
        y := PieceRows(pieceCount);
        color := Next(color, 16);
        pieceCount := if pieceCount == 2 then 0 else Next(pieceCount, 8);
      } else {
        y := Rows(y, yMotion);
      }
    }

    /** An edge of frame_clk, and the edge of move_clk that it may cause. */
    method FrameEdge()
      requires Valid()
      modifies this, board
      ensures Snapshot() == FrameStep(old(Snapshot()))
    {
      var rises := false;
      if reset {
        frameCount := 0;
      } else if frameCount > FRAMES_PER_MOVE {
        rises := !moveClk;
        frameCount, moveClk := 0, true;
      } else {
        frameCount, moveClk := Next(frameCount, 64), false;
      }
      x := Columns(x, xMotion);
      if rises {
        MoveY();
      }
    }

    /** Input_Block. */
    method InputEdge(key: Byte)
      requires Valid()
      modifies this`xMotion, this`yMotion
      ensures Snapshot() == Input(old(Snapshot()), key)
    {
      xMotion, yMotion := 0, 1;
      if key == KEY_LEFT {
        if x.b1 > 0 && x.b2 > 0 && x.b3 > 0 && x.b4 > 0 {
          xMotion := 127;
        }
      } else if key == KEY_RIGHT {
        if x.b1 < BOARD_WIDTH && x.b2 < BOARD_WIDTH && x.b3 < BOARD_WIDTH && x.b4 < BOARD_WIDTH {
          xMotion := 1;
        }
      }
    }

    /** The rising edge of Reset. */
    method ResetEdge(key: Byte)
      requires Valid()
      modifies this`xMotion, this`yMotion, this`reset, this`frameCount
      ensures Snapshot() == Step(old(Snapshot()), ResetRise(key))
    {
      InputEdge(key);
      reset, frameCount := true, 0;
    }
  }
}
