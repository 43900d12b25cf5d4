/** The game controller (TetrisGame.java) without its windowing: the board,
    the falling piece, the counters and the flags, and the methods that move
    the piece, run one timer tick and reset the game. Each method is proved
    against the value-level rules of TetrisRules. */
module TetrisGame {
  import opened TetrisCell
  import opened TetrisBoard
  import opened TetrisPiece
  import opened TetrisRules

  class Game {
    const board: Board
    var piece: Piece?

    var lines: int
    var score: int
    var level: int
    var startLevel: int
    var moves: int
    var delay: int

    var paused: bool
    var isHuman: bool

    /** The objects of the current piece. */
    ghost function PieceFrame(): set<object>
      reads this`piece
    {
      if piece == null then {} else {piece, piece.cells}
    }

    /** The piece as a value; no piece at all reads as no cells, not falling. */
    ghost function PieceNow(): PieceState
      reads this`piece, PieceFrame()
    {
      if piece == null then PieceState([], Pos(0, 0), false)
      else PieceState(piece.cells[..], piece.Center(), piece.active)
    }

    /** The board is well formed, big enough for a new piece and isFull, its
        marks are the three named marks. */
    ghost predicate BoardValid()
      reads board.Footprint()
    {
      board.Valid() && board.Height() >= 2 && board.Width() >= PIECE_SIZE &&
      Marked(board.Snapshot())
    }

    /** The levels are not negative. */
    ghost predicate LevelsValid()
      reads this`startLevel, this`level
    {
      0 <= startLevel && 0 <= level
    }

    /** The board is valid, the piece sits on it in its proper geometry,
        and the ACTIVE cells of the board are exactly the cells of the piece
        while it falls (none once it is locked). */
    ghost predicate PieceValid()
      reads this`piece, board.Footprint(), PieceFrame()
    {
      BoardValid() &&
      (piece != null ==> piece.Valid(board)) &&
      ActiveExactly(board.Snapshot(), PieceNow().cells, PieceNow().active)
    }

    /** The invariant of the game between two calls. */
    ghost predicate Valid()
      reads this`piece, this`startLevel, this`level, board.Footprint(), PieceFrame()
    {
      PieceValid() && LevelsValid()
    }

    /** The counters as a value. */
    ghost function Counts(): Counters
      reads this`lines, this`score, this`level, this`moves, this`delay
    {
      Counters(lines, score, level, moves, delay)
    }

    /** The level is the start level plus one per ten cleared lines. */
    ghost predicate Progress()
      reads this`lines, this`level, this`startLevel
    {
      0 <= lines && level == startLevel + lines / LEVEL_BASE
    }

    /** The fields as the constructor leaves them: only the board and the
        start level are set; the game starts with ResetGame. */
    constructor (rows: nat, cols: nat, level: int, grid: bool)
      requires rows >= 2 && cols >= PIECE_SIZE && level >= 0
      ensures fresh(board) && fresh(board.Footprint())
      ensures board.Height() == rows && board.Width() == cols && board.grid == grid
      ensures board.Snapshot() == Uniform(rows, cols, CellState(EMPTY, NoColor))
      ensures startLevel == level && piece == null
      ensures lines == 0 && score == 0 && this.level == 0 && moves == 0 && delay == 0
      ensures !paused && !isHuman
      ensures Valid()
    {
      board := new Board(rows, cols, grid);
      startLevel := level;
      piece := null;
      lines := 0;
      score := 0;
      this.level := 0;
      moves := 0;
      delay := 0;
      paused := false;
      isHuman := false;
    }

    /** A new piece of shape `kind` at the top centre, falling, shown as
        ACTIVE in its colour on the board `g`. */
    ghost predicate Spawned(g: Grid, kind: Shape)
      reads this`piece, board.Footprint(), PieceFrame()
    {
      piece != null && piece.kind == kind && piece.active &&
      piece.cells[..] == SpawnCells(kind, 0, SpawnColumn(board.Width())) &&
      board.Snapshot() == Paint(g, piece.cells[..], CellState(ACTIVE, ShapeColor(kind)))
    }

    /** The board and piece after resetGame: a blank board and no piece,
        or with `start` a first piece of shape `kind` at the top centre,
        shown ACTIVE on the blank board. */
    ghost predicate ResetShown(start: bool, kind: Shape)
      reads this`piece, board.Footprint(), PieceFrame()
    {
      var blank := Uniform(board.Height(), board.Width(), BLANK);
      if start then Spawned(blank, kind)
      else
        piece == null && board.Snapshot() == blank
    }

    /** resetGame(isHuman, start): a blank board, zero counters, the start
        level and its delay, not paused; with `start` a first piece of shape
        `kind`, otherwise no piece. */
    method ResetGame(human: bool, start: bool, kind: Shape)
      requires BoardValid() && 0 <= startLevel
      modifies this`lines, this`score, this`level, this`moves, this`delay, this`paused, this`isHuman, this`piece
      modifies board.Footprint()
      ensures lines == 0 && score == 0 && moves == 0
      ensures level == startLevel
      ensures delay == ResetDelay(startLevel)
      ensures !paused && isHuman == human
      ensures ResetShown(start, kind) && (start ==> fresh(piece))
      ensures Valid() && Progress()
    {
      ResetBoard(start, kind);
      ResetCounters(human);
    }

    /** The board part of resetGame: clear, then addPiece or no piece. */
    method ResetBoard(start: bool, kind: Shape)
      requires BoardValid()
      modifies this`piece, board.Footprint()
      ensures ResetShown(start, kind) && (start ==> fresh(piece))
      ensures PieceValid()
    {
      board.Clear();
      BlankTidy(board.Height(), board.Width(), []);
      if start {
        AddPiece(kind);
      } else {
        piece := null;
      }
    }

    /** The counter and flag part of resetGame. */
    method ResetCounters(human: bool)
      requires 0 <= startLevel
      modifies this`lines, this`score, this`level, this`moves, this`delay, this`paused, this`isHuman
      ensures lines == 0 && score == 0 && moves == 0
      ensures level == startLevel
      ensures delay == ResetDelay(startLevel)
      ensures !paused && isHuman == human
      ensures Progress()
    {
      lines := 0;
      score := 0;
      level := startLevel;
      moves := 0;
      delay := ResetDelay(level);
      paused := false;
      isHuman := human;
    }

    /** addPiece: a new piece of shape `kind` at the top centre, shown on
        the board as ACTIVE in its colour. */
    method AddPiece(kind: Shape)
      requires BoardValid() && ActiveExactly(board.Snapshot(), [], false)
      modifies this`piece, board.Footprint()
      ensures piece != null && fresh(piece) && fresh(piece.cells)
      ensures Spawned(old(board.Snapshot()), kind)
      ensures piece.color == ShapeColor(kind) && piece.Center() == Pos(0, SpawnColumn(board.Width()))
      ensures PieceValid()
    {
      ghost var g0 := board.Snapshot();
      var p := NewPiece(kind);
      ghost var g1 := board.Snapshot();
      piece := p;
      assert board.Snapshot() == g1;
      SpawnTidy(g0, p.cells[..], p.color);
    }

    /** The piece addPiece creates, already shown on the board. */
    method NewPiece(kind: Shape) returns (p: Piece)
      requires BoardValid()
      modifies board.Footprint()
      ensures fresh(p) && fresh(p.cells) && p.Valid(board) && board.Valid()
      ensures p.kind == kind && p.color == ShapeColor(kind) && p.active
      ensures p.cells[..] == SpawnCells(kind, 0, SpawnColumn(board.Width()))
      ensures p.Center() == Pos(0, SpawnColumn(board.Width()))
      ensures board.Snapshot() == Paint(old(board.Snapshot()), p.cells[..], CellState(ACTIVE, ShapeColor(kind)))
    {
      SpawnFits(kind, board.Height(), board.Width());
      p := new Piece(board, kind);
      assert board.Snapshot() == old(board.Snapshot());
      p.SetActive(board);
    }

    /** move(col, row): counts the move, then drops, rotates or shifts the
        piece exactly as Play says; the counters other than `moves` and the
        flags stay. */
    method Move(col: int, row: int)
      requires Valid() && piece != null
      requires row <= 0 || col == 0
      modifies this`moves, piece, piece.cells, board.Footprint()
      ensures moves == old(moves) + 1
      ensures (board.Snapshot(), PieceNow()) == Play(old(board.Snapshot()), old(PieceNow()), piece.kind, piece.color, col, row)
      ensures Valid()
    {
      ghost var g0 := board.Snapshot();
      ghost var p0 := PieceNow();
      moves := moves + 1;
      if col == 0 && row == 0 {
        DropPiece();
      } else if row < 0 {
        TryRotate();
      } else {
        TryShift(col, row);
      }
      PlayTidy(g0, p0, piece.kind, piece.color, col, row);
    }

    /** The drop branch of move: descend while canMove(0, 1), then lock. */
    method DropPiece()
      requires Valid() && piece != null
      modifies piece, piece.cells, board.Footprint()
      ensures (board.Snapshot(), PieceNow()) == PlayDrop(old(board.Snapshot()), old(PieceNow()), piece.color)
      ensures piece.Valid(board)
    {
      Descend(piece);
      piece.SetInactive(board);
    }

    /** The loop of the drop branch: the piece ends as deep as FallDepth says,
        painted ACTIVE on every row it passed. */
    method Descend(p: Piece)
      requires board.Valid() && p.Valid(board)
      modifies p`centerRow, p`centerCol, p`active, p.cells, board.Footprint()
      ensures p.Valid(board)
      ensures var k := FallDepth(old(board.Snapshot()), old(p.cells[..]), CellState(ACTIVE, p.color), 0);
        board.Snapshot() == Dropped(old(board.Snapshot()), old(p.cells[..]), CellState(ACTIVE, p.color), k) &&
        p.cells[..] == Shifted(old(p.cells[..]), 0, k) &&
        p.Center() == Add(old(p.Center()), Pos(k, 0))
    {
      ghost var g0 := board.Snapshot();
      ghost var cs0 := p.cells[..];
      ghost var c0 := p.Center();
      ghost var st := CellState(ACTIVE, p.color);
      var can := DropStart(p);
      ghost var k := FallDepth(g0, cs0, st, 0);
      ghost var j := DropLoop(p, can, g0, cs0, c0, st, k);
      DropEnd(p, g0, cs0, c0, st, k, j);
    }

    /** The while-canMove loop of the drop: down one row at a time until
        the piece may go no further. */
    method DropLoop(p: Piece, can0: bool, ghost g0: Grid, ghost cs0: seq<Pos>, ghost c0: Pos, ghost st: CellState, ghost k: nat)
      returns (ghost j: nat)
      requires DropAt(p, g0, cs0, c0, st, k, 0, can0)
      modifies p`centerRow, p`centerCol, p`active, p.cells, board.Footprint()
      ensures DropAt(p, g0, cs0, c0, st, k, j, false)
    {
      var can := can0;
      j := 0;
      while can
        invariant DropAt(p, g0, cs0, c0, st, k, j, can)
        decreases board.Height() - j
      {
        can := DropStep(p, g0, cs0, c0, st, k, j);
        j := j + 1;
      }
    }

    /** The first canMove of the drop loop. */
    method DropStart(p: Piece) returns (can: bool)
      requires board.Valid() && p.Valid(board)
      ensures DropAt(p, board.Snapshot(), p.cells[..], p.Center(), CellState(ACTIVE, p.color), FallDepth(board.Snapshot(), p.cells[..], CellState(ACTIVE, p.color), 0), 0, can)
    {
      ShiftedZero(p.cells[..]);
      can := p.CanMove(board, 0, 1);
    }

    /** When the drop loop stops, the piece is k rows down. */
    lemma DropEnd(p: Piece, g0: Grid, cs0: seq<Pos>, c0: Pos, st: CellState, k: nat, j: nat)
      requires DropAt(p, g0, cs0, c0, st, k, j, false)
      ensures j == k
    {
      assert FallDepth(g0, cs0, st, j) == k;
    }

    /** The drop loop at depth j: the piece is j rows below where it
        started, every row it passed painted, and `can` says whether it may
        go one row further; the drop ends k rows down from where it
        started, counted from depth j. The depth fact is guarded so that the
        solver unfolds FallDepth only where a proof names it. */
    ghost predicate DropAt(p: Piece, g0: Grid, cs0: seq<Pos>, c0: Pos, st: CellState, k: nat, j: nat, can: bool)
      reads p, p.cells, board.Footprint()
    {
      board.Valid() && p.Valid(board) && st == CellState(ACTIVE, p.color) &&
      |g0| == board.Height() && |cs0| == SIZE && AllInside(cs0, board.Height(), board.Width()) &&
      board.Snapshot() == Dropped(g0, cs0, st, j) && p.cells[..] == Shifted(cs0, 0, j) &&
      p.Center() == Add(c0, Pos(j, 0)) &&
      (can <==> MoveAllowed(Dropped(g0, cs0, st, j), Shifted(cs0, 0, j), 0, 1)) &&
      (forall d {:trigger FallDepth(g0, cs0, st, d)} :: d == j ==> FallDepth(g0, cs0, st, d) == k)
    }

    /** One more row down keeps the final depth k ahead. */
    lemma DepthStep(g0: Grid, cs0: seq<Pos>, st: CellState, k: nat, j: nat)
      requires j < |g0| && MoveAllowed(Dropped(g0, cs0, st, j), Shifted(cs0, 0, j), 0, 1)
      requires forall d {:trigger FallDepth(g0, cs0, st, d)} :: d == j ==> FallDepth(g0, cs0, st, d) == k
      ensures forall d {:trigger FallDepth(g0, cs0, st, d)} :: d == j + 1 ==> FallDepth(g0, cs0, st, d) == k
    {
      assert FallDepth(g0, cs0, st, j) == k;
    }

    /** One step of the drop loop: down by one row, then ask again. */
    method DropStep(p: Piece, ghost g0: Grid, ghost cs0: seq<Pos>, ghost c0: Pos, ghost st: CellState, ghost k: nat, ghost j: nat) returns (can: bool)
      requires DropAt(p, g0, cs0, c0, st, k, j, true)
      modifies p`centerRow, p`centerCol, p`active, p.cells, board.Footprint()
      ensures DropAt(p, g0, cs0, c0, st, k, j + 1, can) && j < board.Height()
    {
      DepthStep(g0, cs0, st, k, j);
      ghost var next := Shifted(Shifted(cs0, 0, j), 0, 1);
      assert InGrid(Dropped(g0, cs0, st, j), next[0]);
      p.Move(board, 0, 1);
      DropOneMore(g0, cs0, st, j, board.Snapshot());
      ShiftedTwice(cs0, j);
      ghost var fp := board.Footprint();
      ghost var now := board.Snapshot();
      can := p.CanMove(board, 0, 1);
      assert board.Footprint() == fp;
      assert board.Snapshot() == now;
    }

    /** The rotate branch of move: turn when canRotate, else nothing. */
    method TryRotate()
      requires Valid() && piece != null
      modifies piece, piece.cells, board.Footprint()
      ensures (board.Snapshot(), PieceNow()) == PlayRotate(old(board.Snapshot()), old(PieceNow()), piece.kind, piece.color)
      ensures piece.Valid(board)
    {
      var ok := piece.CanRotate(board);
      if ok {
        piece.Rotate(board);
      }
    }

    /** The other branch of move: shift when canMove; a blocked downward
        move locks the piece, a blocked sideways move does nothing. */
    method TryShift(col: int, row: int)
      requires Valid() && piece != null
      requires row == 0 || col == 0
      modifies piece, piece.cells, board.Footprint()
      ensures (board.Snapshot(), PieceNow()) == PlayShift(old(board.Snapshot()), old(PieceNow()), piece.color, col, row)
      ensures piece.Valid(board)
    {
      var ok := piece.CanMove(board, col, row);
      if ok {
        piece.Move(board, col, row);
      } else if row > 0 {
        piece.SetInactive(board);
      }
    }

    /** aiMove with the random choice as a parameter. */
    method AiMove(choice: int)
      requires Valid() && piece != null
      modifies this`moves, piece, piece.cells, board.Footprint()
      ensures moves == old(moves) + (if 0 <= choice < 3 then 1 else 0)
      ensures (board.Snapshot(), PieceNow()) == AiPlay(old(board.Snapshot()), old(PieceNow()), piece.kind, piece.color, choice)
      ensures Valid()
    {
      if choice == 0 {
        Move(0, -1);
      } else if choice == 1 {
        Move(-1, 0);
      } else if choice == 2 {
        Move(1, 0);
      }
    }

    /** One timer tick (actionPerformed without the Update/Reset buttons):
        with no falling piece the spawn step runs, otherwise gravity.
        `kind` and `aiChoice` stand for the random draws. The result says
        whether the spawn step found the board full. */
    method Tick(kind: Shape, aiChoice: int) returns (gameOver: bool)
      requires Valid()
      requires piece == null || !piece.active ==> |CompleteRows(board.Snapshot())| <= PIECE_SIZE
      modifies this`lines, this`score, this`level, this`delay, this`moves, this`piece
      modifies board.Footprint(), PieceFrame()
      ensures Valid() && startLevel == old(startLevel) && isHuman == old(isHuman) && paused == old(paused)
      ensures old(Progress()) ==> Progress()
      ensures old(piece) == null || !old(piece.active) ==>
        var g0 := old(board.Snapshot());
        var cleared := ClearPrefix(g0, Lines(g0));
        Counts() == Tallied(old(Counts()), |PosList(Lines(g0))|, startLevel, isHuman) &&
        gameOver == FullGrid(cleared, board.Width()) &&
        (gameOver ==> piece == old(piece) && board.Snapshot() == cleared) &&
        (!gameOver ==> fresh(piece) && Spawned(cleared, kind))
      ensures old(piece) != null && old(piece.active) ==> !gameOver && piece == old(piece)
      ensures old(piece) != null && old(piece.active) && paused ==>
        Counts() == old(Counts()) && board.Snapshot() == old(board.Snapshot()) && PieceNow() == old(PieceNow())
      ensures old(piece) != null && old(piece.active) && !paused ==>
        (board.Snapshot(), PieceNow()) == Fall(old(board.Snapshot()), old(PieceNow()), piece.kind, piece.color, isHuman, aiChoice) &&
        Counts() == old(Counts()).(moves := old(moves) + 1 + (if !isHuman && 0 <= aiChoice < 3 then 1 else 0))
    {
      if piece == null || piece.IsInactive() {
        gameOver := Spawn(kind);
      } else {
        Gravity(aiChoice);
        gameOver := false;
      }
    }

    /** The gravity branch of a tick: unless paused, one row down, then for
        the computer player one random move. */
    method Gravity(aiChoice: int)
      requires Valid() && piece != null && piece.active
      modifies this`moves, piece, piece.cells, board.Footprint()
      ensures Valid()
      ensures paused ==> moves == old(moves) && board.Snapshot() == old(board.Snapshot()) && PieceNow() == old(PieceNow())
      ensures !paused ==>
        (board.Snapshot(), PieceNow()) == Fall(old(board.Snapshot()), old(PieceNow()), piece.kind, piece.color, isHuman, aiChoice) &&
        moves == old(moves) + 1 + (if !isHuman && 0 <= aiChoice < 3 then 1 else 0)
    {
      if !paused {
        FallStep(aiChoice);
      }
    }

    /** The moves of one unpaused gravity tick. */
    method FallStep(aiChoice: int)
      requires Valid() && piece != null
      modifies this`moves, piece, piece.cells, board.Footprint()
      ensures Valid()
      ensures (board.Snapshot(), PieceNow()) == Fall(old(board.Snapshot()), old(PieceNow()), piece.kind, piece.color, isHuman, aiChoice)
      ensures moves == old(moves) + 1 + (if !isHuman && 0 <= aiChoice < 3 then 1 else 0)
    {
      Move(0, 1);
      if !isHuman {
        AiMove(aiChoice);
      }
    }

    /** The spawn step of a tick: clear the reported rows, add the cleared
        lines, the points and the level step, set the delay, reset the move
        count, and add a piece of shape `kind` unless the board is full. */
    method Spawn(kind: Shape) returns (gameOver: bool)
      requires Valid() && (piece == null || !piece.active)
      requires |CompleteRows(board.Snapshot())| <= PIECE_SIZE
      modifies this`lines, this`score, this`level, this`delay, this`moves, this`piece, board.Footprint()
      ensures Valid() && startLevel == old(startLevel) && isHuman == old(isHuman) && paused == old(paused)
      ensures var g0 := old(board.Snapshot());
        var cleared := ClearPrefix(g0, Lines(g0));
        Counts() == Tallied(old(Counts()), |PosList(Lines(g0))|, startLevel, isHuman) &&
        gameOver == FullGrid(cleared, board.Width()) &&
        (gameOver ==> piece == old(piece) && board.Snapshot() == cleared) &&
        (!gameOver ==> fresh(piece) && Spawned(cleared, kind))
      ensures old(Progress()) ==> Progress()
    {
      ghost var g0 := board.Snapshot();
      ghost var cleared := ClearPrefix(g0, Lines(g0));
      Settle();
      gameOver := Respawn(kind, cleared);
    }

    /** The last part of the spawn step: isFull, and unless the board is
        full, addPiece. */
    method Respawn(kind: Shape, ghost g: Grid) returns (full: bool)
      requires board.Snapshot() == g && BoardValid() && LevelsValid() && Settled(board.Snapshot())
      requires piece != null ==> piece.Valid(board)
      requires !PieceNow().active
      modifies this`piece, board.Footprint()
      ensures Valid() && unchanged(this`lines, this`score, this`level, this`delay, this`moves, this`startLevel, this`isHuman, this`paused)
      ensures full == FullGrid(g, board.Width())
      ensures full ==> piece == old(piece) && board.Snapshot() == g
      ensures !full ==> fresh(piece) && Spawned(g, kind)
    {
      ghost var g1 := board.Snapshot();
      ghost var pv := PieceNow();
      full := board.IsFull();
      assert board.Snapshot() == g1 && PieceNow() == pv;
      if full {
        SettledTidy(g1, pv.cells);
      } else {
        SettledTidy(g1, []);
        Place(kind);
      }
    }

    /** addPiece on a settled board with no falling piece. */
    method Place(kind: Shape)
      requires BoardValid() && LevelsValid() && ActiveExactly(board.Snapshot(), [], false)
      modifies this`piece, board.Footprint()
      ensures Valid() && unchanged(this`lines, this`score, this`level, this`delay, this`moves, this`startLevel, this`isHuman, this`paused)
      ensures fresh(piece) && Spawned(old(board.Snapshot()), kind)
    {
      AddPiece(kind);
    }

    /** The first part of the spawn step: the reported rows are cleared and
        the counters updated; the piece, if any, stays as it was. */
    method Settle()
      requires Valid() && (piece == null || !piece.active)
      requires |CompleteRows(board.Snapshot())| <= PIECE_SIZE
      modifies this`lines, this`score, this`level, this`delay, this`moves, board.Footprint()
      ensures unchanged(this`startLevel, this`isHuman, this`paused, this`piece)
      ensures BoardValid() && LevelsValid() && Settled(board.Snapshot())
      ensures piece != null ==> piece.Valid(board)
      ensures PieceNow() == old(PieceNow())
      ensures var g0 := old(board.Snapshot());
        board.Snapshot() == ClearPrefix(g0, Lines(g0)) &&
        Counts() == Tallied(old(Counts()), |PosList(Lines(g0))|, startLevel, isHuman)
      ensures old(Progress()) ==> Progress()
    {
      ghost var g0 := board.Snapshot();
      SettledFromTidy(g0);
      ghost var pv := PieceNow();
      var updateLines := ClearLines();
      assert piece != null ==> piece.Valid(board);
      assert PieceNow() == pv;
      ghost var g1 := board.Snapshot();
      ghost var fp := board.Footprint();
      Tally(updateLines);
      assert board.Footprint() == fp;
      assert board.Snapshot() == g1;
      assert piece != null ==> piece.Valid(board);
      assert PieceNow() == pv;
      SettledTidy(g1, []);
    }

    /** The clearing part of the spawn step: getLines, then the loop over
        its entries. */
    method ClearLines() returns (count: int)
      requires board.Valid() && board.Height() > 0 && Settled(board.Snapshot())
      requires |CompleteRows(board.Snapshot())| <= PIECE_SIZE
      modifies board.Footprint()
      ensures count == |PosList(Lines(old(board.Snapshot())))| && 0 <= count <= PIECE_SIZE
      ensures board.Snapshot() == ClearPrefix(old(board.Snapshot()), Lines(old(board.Snapshot())))
      ensures Settled(board.Snapshot())
    {
      ghost var g0 := board.Snapshot();
      ghost var fp := board.Footprint();
      LinesReported(g0);
      var clearLines := board.GetLines();
      assert board.Footprint() == fp;
      assert board.Snapshot() == g0;
      count := ClearReported(clearLines);
      ClearPrefixSettled(g0, clearLines);
    }

    /** The counters of the spawn step: lines, score and level grow, the
        delay follows the level for the human player and is fixed for the
        computer, and the move count restarts. */
    method Tally(updateLines: int)
      requires 0 <= updateLines <= PIECE_SIZE && level >= 0
      modifies this`lines, this`score, this`level, this`delay, this`moves
      ensures Counts() == Tallied(old(Counts()), updateLines, startLevel, isHuman)
      ensures old(Progress()) ==> Progress()
    {
      if Progress() {
        TalliedProgress(Counts(), updateLines, startLevel, isHuman);
      }
      SetLines(updateLines);
      SetScore(ScoreDelta(moves, level, updateLines));
      var updateLevel := LevelStep(lines, level, startLevel);
      SetLevel(updateLevel);
      if !isHuman {
        delay := AI_DELAY;
      } else if updateLevel > 0 {
        delay := DELAY_BASE / (level + 1);
        if delay > 10 {
          delay := delay - 10;
        }
      }
      moves := 0;
    }

    /** With no falling piece the board is settled. */
    lemma SettledFromTidy(g: Grid)
      requires Valid() && (piece == null || !piece.active) && g == board.Snapshot()
      ensures Settled(g)
    {
      MarkedSettled(g, PieceNow().cells);
    }

    /** The clearing loop of the spawn step: each positive entry clears the
        row at that index plus the number of rows cleared before it. */
    method ClearReported(ls: seq<int>) returns (count: int)
      requires board.Valid() && board.Height() > 0 && Reported(ls, board.Height())
      modifies board.Footprint()
      ensures count == |PosList(ls)|
      ensures board.Snapshot() == ClearPrefix(old(board.Snapshot()), ls)
    {
      ghost var g0 := board.Snapshot();
      count := 0;
      var r := 0;
      while r < |ls|
        invariant ClearedTo(g0, ls, r, count)
      {
        count := ClearEntry(g0, ls, r, count);
        r := r + 1;
      }
      assert ls[..|ls|] == ls;
    }

    /** The clearing loop after its first r entries. */
    ghost predicate ClearedTo(g0: Grid, ls: seq<int>, r: int, count: int)
      reads board.Footprint()
    {
      board.Valid() && |g0| == board.Height() > 0 && IsGrid(g0, board.Width()) &&
      Reported(ls, board.Height()) && 0 <= r <= |ls| &&
      count == |PosList(ls[..r])| && board.Snapshot() == ClearPrefix(g0, ls[..r])
    }

    /** One pass of the clearing loop. */
    method ClearEntry(ghost g0: Grid, ls: seq<int>, r: int, count: int) returns (next: int)
      requires r < |ls| && ClearedTo(g0, ls, r, count)
      modifies board.Footprint()
      ensures ClearedTo(g0, ls, r + 1, next)
    {
      next := count;
      if ls[r] > 0 {
        ClearPrefixNextPositive(g0, ls, r, count);
        ReportedEntryRoom(ls, board.Height(), r);
        board.ClearLine(ls[r] + count);
        next := count + 1;
      } else {
        ClearPrefixNextOther(g0, ls, r);
      }
    }

    /** setLines */
    method SetLines(add: int)
      modifies this`lines
      ensures lines == old(lines) + add
    {
      lines := lines + add;
    }

    /** setScore */
    method SetScore(add: int)
      modifies this`score
      ensures score == old(score) + add
    {
      score := score + add;
    }

    /** setLevel */
    method SetLevel(add: int)
      modifies this`level
      ensures level == old(level) + add
    {
      level := level + add;
    }

    /** togglePause */
    method TogglePause()
      modifies this`paused
      ensures paused == !old(paused)
    {
      paused := !paused;
    }
  }
}
