/** The falling piece: its seven spawn shapes, the hand-written rotation
    table with its distance-2 special case for the Line, the bounds and
    collision checks, and the in-place move, rotate and lock operations
    (TetrisPiece.java). The piece holds the board positions of its four cells
    rather than references to the cell objects. */
module TetrisPiece {
  import opened TetrisCell
  import opened TetrisBoard

  const SIZE: nat := PIECE_SIZE

  /** The seven shapes, in the order of the source's type numbers 0..6. */
  datatype Shape = Square | Line | Pyramid | LLeft | LRight | SLeft | SRight

  /** The shape a random type number in [0, 7) selects. */
  function ShapeOf(t: int): (s: Shape)
    requires 0 <= t < 7
    ensures t == 0 <==> s == Square
    ensures t == 1 <==> s == Line
  {
    [Square, Line, Pyramid, LLeft, LRight, SLeft, SRight][t]
  }

  function ShapeColor(s: Shape): Color
  {
    match s
    case Square => Orange
    case Line => Red
    case Pyramid => Cyan
    case LLeft => Magenta
    case LRight => Yellow
    case SLeft => Blue
    case SRight => Green
  }

  // ---------------------------------------------------------------------
  // Positions and offsets

  function Add(p: Pos, d: Pos): Pos
  {
    Pos(p.row + d.row, p.col + d.col)
  }

  /** Where `p` lies relative to the pivot. */
  function Offset(p: Pos, center: Pos): Pos
  {
    Pos(p.row - center.row, p.col - center.col)
  }

  /** A quarter turn of an offset: (dr, dc) becomes (-dc, dr). */
  function Turn(o: Pos): Pos
  {
    Pos(-o.col, o.row)
  }

  /** An offset inside the 3 x 3 block around the pivot. */
  predicate IsUnit(o: Pos)
  {
    -1 <= o.row <= 1 && -1 <= o.col <= 1
  }

  /** An offset two steps from the pivot along one axis. */
  predicate IsFar(o: Pos)
  {
    o in {Pos(0, 2), Pos(0, -2), Pos(2, 0), Pos(-2, 0)}
  }

  /** Every position moved by (row, col). */
  function Shifted(cs: seq<Pos>, col: int, row: int): (ds: seq<Pos>)
    ensures |ds| == |cs| && forall i :: 0 <= i < |cs| ==> ds[i] == Add(cs[i], Pos(row, col))
  {
    seq(|cs|, i requires 0 <= i < |cs| => Add(cs[i], Pos(row, col)))
  }

  predicate Distinct(cs: seq<Pos>)
  {
    forall i, j :: 0 <= i < j < |cs| ==> cs[i] != cs[j]
  }

  // ---------------------------------------------------------------------
  // Spawn shapes

  /** Pivot column of a new piece on a board `w` columns wide. */
  function SpawnColumn(w: nat): int
  {
    w / 2 + w % 2 - 1
  }

  /** The four cells of each shape around the pivot (x, y). */
  function SpawnCells(s: Shape, x: int, y: int): seq<Pos>
  {
    match s
    case Square => [Pos(x, y), Pos(x + 1, y), Pos(x, y + 1), Pos(x + 1, y + 1)]
    case Line => [Pos(x, y - 1), Pos(x, y), Pos(x, y + 1), Pos(x, y + 2)]
    case Pyramid => [Pos(x, y - 1), Pos(x, y), Pos(x + 1, y), Pos(x, y + 1)]
    case LLeft => [Pos(x, y - 1), Pos(x + 1, y - 1), Pos(x, y), Pos(x, y + 1)]
    case LRight => [Pos(x, y - 1), Pos(x, y), Pos(x, y + 1), Pos(x + 1, y + 1)]
    case SLeft => [Pos(x, y - 1), Pos(x, y), Pos(x + 1, y), Pos(x + 1, y + 1)]
    case SRight => [Pos(x + 1, y - 1), Pos(x, y), Pos(x + 1, y), Pos(x, y + 1)]
  }

  /** One more entry of a prefix: what the paint loops rely on. */
  lemma PrefixGrows<T>(s: seq<T>, n: int)
    requires 0 <= n < |s|
    ensures forall x :: x in s[..n + 1] <==> x in s[..n] || x == s[n]
  {
    assert s[..n + 1] == s[..n] + [s[n]];
  }

  /** All four cells lie in [0, h) x [0, w). */
  predicate AllInside(cs: seq<Pos>, h: int, w: int)
  {
    forall i :: 0 <= i < |cs| ==> 0 <= cs[i].row < h && 0 <= cs[i].col < w
  }

  /** The geometry the rotation table relies on: relative to the pivot, the
      Line's cell 3 is two steps away along one axis and every other cell of
      a non-Square piece lies in the 3 x 3 block. */
  predicate Formed(s: Shape, cs: seq<Pos>, center: Pos)
  {
    |cs| == SIZE &&
    forall i :: 0 <= i < SIZE ==>
      if s == Square then true
      else if s == Line && i == 3 then IsFar(Offset(cs[i], center))
      else IsUnit(Offset(cs[i], center))
  }

  /** Every shape spawns as four distinct cells of the required geometry. */
  lemma SpawnFormed(s: Shape, x: int, y: int)
    ensures Formed(s, SpawnCells(s, x, y), Pos(x, y)) && Distinct(SpawnCells(s, x, y))
  {
  }

  /** A board of at least PIECE_SIZE columns and two rows has room for every
      shape at the spawn pivot (0, SpawnColumn(w)). */
  lemma SpawnFits(s: Shape, h: nat, w: nat)
    requires h >= 2 && w >= PIECE_SIZE
    ensures AllInside(SpawnCells(s, 0, SpawnColumn(w)), h, w)
  {
  }

  // ---------------------------------------------------------------------
  // Rotation (getRotation)

  /** getRotation: the change of (row, col) of cell i at position p when the
      pivot is `center`. The Square never moves; the Line's cell 3 has its own
      rule; every other cell is classified by whether its column and its row
      are less than, equal to or greater than the pivot's. On the geometry of
      `Formed` all three rules move the offset by a quarter turn. */
  function Rotation(s: Shape, i: int, p: Pos, center: Pos): Pos
  {
    if s == Square then Pos(0, 0)
    else if i == 3 && s == Line then
      if p.col != center.col then
        (if p.col > center.col then Pos(-2, -2) else Pos(2, 2))
      else
        (if p.row > center.row then Pos(-2, 2) else Pos(2, -2))
    else if p.col < center.col then
      (if p.row < center.row then Pos(2, 0) else if p.row == center.row then Pos(1, 1) else Pos(0, 2))
    else if p.col == center.col then
      (if p.row < center.row then Pos(1, -1) else if p.row == center.row then Pos(0, 0) else Pos(-1, 1))
    else
      (if p.row < center.row then Pos(0, -2) else if p.row == center.row then Pos(-1, -1) else Pos(-2, 0))
  }

  /** On the geometry of `Formed`, every entry of the table turns the cell's
      offset from the pivot a quarter: (dr, dc) becomes (-dc, dr). The Square's
      entries are all (0, 0). */
  lemma RotationTurns(s: Shape, i: int, p: Pos, center: Pos)
    ensures s == Square ==> Rotation(s, i, p, center) == Pos(0, 0)
    ensures s != Square && !(s == Line && i == 3) && IsUnit(Offset(p, center)) ==>
      Offset(Add(p, Rotation(s, i, p, center)), center) == Turn(Offset(p, center))
    ensures s == Line && i == 3 && IsFar(Offset(p, center)) ==>
      Offset(Add(p, Rotation(s, i, p, center)), center) == Turn(Offset(p, center))
  {
  }

  /** The four cells after one rotation about `center`. */
  function Rotated(s: Shape, cs: seq<Pos>, center: Pos): (ds: seq<Pos>)
    ensures |ds| == |cs| && forall i :: 0 <= i < |cs| ==> ds[i] == Add(cs[i], Rotation(s, i, cs[i], center))
  {
    seq(|cs|, i requires 0 <= i < |cs| => Add(cs[i], Rotation(s, i, cs[i], center)))
  }

  /** The Square is never moved by a rotation. */
  lemma SquareRotationIsIdentity(cs: seq<Pos>, center: Pos)
    ensures Rotated(Square, cs, center) == cs
  {
  }

  /** A rotation turns every offset a quarter and keeps the geometry, so it
      keeps the four cells distinct. */
  lemma RotatedTurns(s: Shape, cs: seq<Pos>, center: Pos)
    requires Formed(s, cs, center)
    ensures s != Square ==> TurnedFrom(Rotated(s, cs, center), cs, center)
    ensures Formed(s, Rotated(s, cs, center), center)
    ensures Distinct(cs) ==> Distinct(Rotated(s, cs, center))
  {
    var ds := Rotated(s, cs, center);
    forall i | 0 <= i < SIZE
      ensures s != Square ==> Offset(ds[i], center) == Turn(Offset(cs[i], center))
      ensures s == Square ==> ds[i] == cs[i]
    {
      RotationTurns(s, i, cs[i], center);
    }
    if s != Square {
      forall i, j | 0 <= i < j < SIZE && cs[i] != cs[j]
        ensures ds[i] != ds[j]
      {
        TurnInjective(Offset(cs[i], center), Offset(cs[j], center));
      }
    }
  }

  lemma TurnInjective(a: Pos, b: Pos)
    requires a != b
    ensures Turn(a) != Turn(b)
  {
  }

  /** Four rotations about a fixed pivot give back the original four cells. */
  lemma RotateFourTimes(s: Shape, cs: seq<Pos>, center: Pos)
    requires Formed(s, cs, center)
    ensures Rotated(s, Rotated(s, Rotated(s, Rotated(s, cs, center), center), center), center) == cs
  {
    if s == Square {
      SquareRotationIsIdentity(cs, center);
    } else {
      var r1 := Rotated(s, cs, center);
      RotatedTurns(s, cs, center);
      var r2 := Rotated(s, r1, center);
      RotatedTurns(s, r1, center);
      var r3 := Rotated(s, r2, center);
      RotatedTurns(s, r2, center);
      var r4 := Rotated(s, r3, center);
      RotatedTurns(s, r3, center);
      FourTurns(cs, r1, r2, r3, r4, center);
    }
  }

  /** Each cell of `ds` sits a quarter turn further round the pivot than
      the same cell of `cs`. */
  predicate TurnedFrom(ds: seq<Pos>, cs: seq<Pos>, center: Pos)
  {
    |ds| == |cs| == SIZE && forall i :: 0 <= i < SIZE ==> Offset(ds[i], center) == Turn(Offset(cs[i], center))
  }

  /** Four quarter turns make a full turn. */
  lemma FourTurns(a: seq<Pos>, b: seq<Pos>, c: seq<Pos>, d: seq<Pos>, e: seq<Pos>, center: Pos)
    requires TurnedFrom(b, a, center) && TurnedFrom(c, b, center)
    requires TurnedFrom(d, c, center) && TurnedFrom(e, d, center)
    ensures e == a
  {
    forall i | 0 <= i < SIZE
      ensures e[i] == a[i]
    {
      OffsetCancel(e[i], a[i], center);
    }
  }

  /** Two cells at the same offset from one pivot are the same cell. */
  lemma OffsetCancel(p: Pos, q: Pos, center: Pos)
    requires Offset(p, center) == Offset(q, center)
    ensures p == q
  {
  }

  /** A translation moving the pivot along keeps the geometry and keeps the
      cells distinct. */
  lemma ShiftedKeepsForm(s: Shape, cs: seq<Pos>, center: Pos, col: int, row: int)
    requires Formed(s, cs, center)
    ensures Formed(s, Shifted(cs, col, row), Add(center, Pos(row, col)))
    ensures Distinct(cs) ==> Distinct(Shifted(cs, col, row))
  {
    var ds := Shifted(cs, col, row);
    forall i | 0 <= i < SIZE
      ensures Offset(ds[i], Add(center, Pos(row, col))) == Offset(cs[i], center)
    {
    }
  }

  // ---------------------------------------------------------------------
  // Move and rotate checks (canMove, canRotate)

  /** Every target lies on the board and is not INACTIVE; EMPTY and ACTIVE
      targets are both acceptable. */
  predicate Placeable(g: Grid, ds: seq<Pos>)
  {
    forall i :: 0 <= i < |ds| ==> InGrid(g, ds[i]) && g[ds[i].row][ds[i].col].mark != INACTIVE
  }

  /** canMove: the displacement is not upward and not (0, 0), and every
      displaced cell is placeable. */
  predicate MoveAllowed(g: Grid, cs: seq<Pos>, col: int, row: int)
  {
    row >= 0 && (col, row) != (0, 0) && Placeable(g, Shifted(cs, col, row))
  }

  // ---------------------------------------------------------------------

  class Piece {
    const kind: Shape
    const color: Color
    const cells: array<Pos>
    var active: bool
    var centerRow: int
    var centerCol: int

    function Center(): Pos
      reads this
    {
      Pos(centerRow, centerCol)
    }

    /** Four distinct cells on board `b`, in the geometry the rotation table expects. */
    ghost predicate Valid(b: Board)
      reads this, cells
    {
      cells.Length == SIZE &&
      Formed(kind, cells[..], Center()) &&
      Distinct(cells[..]) &&
      AllInside(cells[..], b.Height(), b.Width())
    }

    /** A new piece of shape `kind` with its pivot in the middle of the top
        row. The board's cells are not touched; the game marks them with
        SetActive. The source's random choice of shape is the parameter. */
    constructor (b: Board, kind: Shape)
      requires AllInside(SpawnCells(kind, 0, SpawnColumn(b.Width())), b.Height(), b.Width())
      ensures this.kind == kind && color == ShapeColor(kind) && active
      ensures centerRow == 0 && centerCol == SpawnColumn(b.Width())
      ensures cells[..] == SpawnCells(kind, 0, SpawnColumn(b.Width()))
      ensures Valid(b) && fresh(cells)
    {
      this.kind := kind;
      active := true;
      centerRow := 0;
      centerCol := SpawnColumn(b.Width());
      var spawn := SpawnCells(kind, 0, SpawnColumn(b.Width()));
      cells := new Pos[SIZE](i requires 0 <= i < SIZE => spawn[i]);
      color := ShapeColor(kind);
      new;
      assert cells[..] == spawn;
      SpawnFormed(kind, 0, SpawnColumn(b.Width()));
    }

    /** canMove: true exactly when the move is not upward, not (0, 0), and
        every displaced cell is on the board and not INACTIVE. Only the edge
        the move heads toward is tested, which suffices because the cells are
        on the board and only one of `col`, `row` is nonzero. */
    method CanMove(b: Board, col: int, row: int) returns (valid: bool)
      requires Valid(b) && b.Valid()
      requires row == 0 || col == 0
      ensures valid <==> MoveAllowed(b.Snapshot(), cells[..], col, row)
    {
      ghost var g: Grid := b.Snapshot();
      ghost var ds := Shifted(cells[..], col, row);
      valid := true;
      var cell := 0;
      while cell < SIZE
        invariant 0 <= cell <= SIZE && valid
        invariant cell > 0 ==> row >= 0 && (col, row) != (0, 0)
        invariant forall i :: 0 <= i < cell ==> InGrid(g, ds[i]) && g[ds[i].row][ds[i].col].mark != INACTIVE
      {
        var nextRow := cells[cell].row + row;
        var nextCol := cells[cell].col + col;
        if (row > 0 && nextRow < b.Height()) || (col > 0 && nextCol < b.Width()) || (col < 0 && nextCol >= 0) {
          if b.cells[nextRow][nextCol].mark == INACTIVE {
            valid := false;
            break;
          }
        } else {
          valid := false;
          break;
        }
        cell := cell + 1;
      }
    }

    /** canRotate: true exactly when every rotated cell is on the board and
        not INACTIVE. */
    method CanRotate(b: Board) returns (valid: bool)
      requires Valid(b) && b.Valid()
      ensures valid <==> Placeable(b.Snapshot(), Rotated(kind, cells[..], Center()))
    {
      ghost var g: Grid := b.Snapshot();
      ghost var ds := Rotated(kind, cells[..], Center());
      valid := true;
      var cell := 0;
      while cell < SIZE
        invariant 0 <= cell <= SIZE && valid
        invariant forall i :: 0 <= i < cell ==> InGrid(g, ds[i]) && g[ds[i].row][ds[i].col].mark != INACTIVE
      {
        var rotated := Rotation(kind, cell, cells[cell], Center());
        var newRow := cells[cell].row + rotated.row;
        var newCol := cells[cell].col + rotated.col;
        if newRow < b.Height() && newRow >= 0 && newCol < b.Width() && newCol >= 0 {
          if b.cells[newRow][newCol].mark == INACTIVE {
            valid := false;
            break;
          }
        } else {
          valid := false;
          break;
        }
        cell := cell + 1;
      }
    }

    /** setEmpty: the listed cells become EMPTY with the empty colour; no other
        cell changes. */
    method SetEmpty(b: Board, ps: seq<Pos>)
      requires b.Valid() && |ps| == SIZE && AllInside(ps, b.Height(), b.Width())
      modifies b.Footprint()
      ensures b.Snapshot() == Paint(old(b.Snapshot()), ps, BLANK)
    {
      ghost var g0: Grid := b.Snapshot();
      var num := 0;
      while num < SIZE
        invariant 0 <= num <= SIZE
        invariant forall r, c :: 0 <= r < b.Height() && 0 <= c < b.Width() ==>
          b.StateAt(r, c) == if Pos(r, c) in ps[..num] then BLANK else g0[r][c]
      {
        b.Show(ps[num].row, ps[num].col, BLANK);
        PrefixGrows(ps, num);
        num := num + 1;
      }
      assert ps[..SIZE] == ps;
      b.SnapshotIs(Paint(g0, ps, BLANK));
    }

    /** setActive: the piece's cells become ACTIVE in the piece's colour and
        the piece counts as active. */
    method SetActive(b: Board)
      requires Valid(b) && b.Valid()
      modifies this`active, b.Footprint()
      ensures active && Center() == old(Center()) && cells[..] == old(cells[..])
      ensures b.Snapshot() == Paint(old(b.Snapshot()), cells[..], CellState(ACTIVE, color))
      ensures Valid(b)
    {
      ghost var g0: Grid := b.Snapshot();
      ghost var ps := cells[..];
      active := true;
      var num := 0;
      while num < SIZE
        invariant 0 <= num <= SIZE
        invariant active && Center() == old(Center())
        invariant forall r, c :: 0 <= r < b.Height() && 0 <= c < b.Width() ==>
          b.StateAt(r, c) == if Pos(r, c) in ps[..num] then CellState(ACTIVE, color) else g0[r][c]
      {
        b.Show(cells[num].row, cells[num].col, CellState(ACTIVE, color));
        PrefixGrows(ps, num);
        num := num + 1;
      }
      assert ps[..SIZE] == ps;
      b.SnapshotIs(Paint(g0, ps, CellState(ACTIVE, color)));
    }

    /** setInactive: the piece's cells become INACTIVE, keeping their colours,
        and the piece is no longer active. */
    method SetInactive(b: Board)
      requires Valid(b) && b.Valid()
      modifies this`active, b.Footprint()
      ensures !active && Center() == old(Center()) && cells[..] == old(cells[..])
      ensures b.Snapshot() == Remark(old(b.Snapshot()), cells[..], INACTIVE)
      ensures Valid(b)
    {
      ghost var g0: Grid := b.Snapshot();
      ghost var ps := cells[..];
      active := false;
      var num := 0;
      while num < SIZE
        invariant 0 <= num <= SIZE
        invariant !active && Center() == old(Center())
        invariant forall r, c :: 0 <= r < b.Height() && 0 <= c < b.Width() ==>
          b.StateAt(r, c) == if Pos(r, c) in ps[..num] then g0[r][c].(mark := INACTIVE) else g0[r][c]
      {
        var cell := b.cells[cells[num].row][cells[num].col];
        var _ := cell.SetMark(INACTIVE);
        PrefixGrows(ps, num);
        num := num + 1;
      }
      assert ps[..SIZE] == ps;
      b.SnapshotIs(Remark(g0, ps, INACTIVE));
    }

    /** isInactive */
    predicate IsInactive()
      reads this
    {
      !active
    }

    /** move(col, row): all four cells and the pivot shift by the same
        displacement; the old cells become EMPTY with the empty colour, then
        the new cells become ACTIVE in the piece's colour; nothing else on the
        board changes. */
    method Move(b: Board, col: int, row: int)
      requires Valid(b) && b.Valid()
      requires AllInside(Shifted(cells[..], col, row), b.Height(), b.Width())
      modifies this`centerRow, this`centerCol, this`active, cells, b.Footprint()
      ensures cells[..] == Shifted(old(cells[..]), col, row)
      ensures Center() == Add(old(Center()), Pos(row, col))
      ensures active
      ensures b.Snapshot() == Paint(Paint(old(b.Snapshot()), old(cells[..]), BLANK), cells[..], CellState(ACTIVE, color))
      ensures Valid(b)
    {
      SetEmpty(b, cells[..]);
      ghost var g1 := b.Snapshot();
      Relocate(b, col, row);
      assert b.Snapshot() == g1;
      SetActive(b);
    }

    /** The pivot and cell update inside move. */
    method Relocate(b: Board, col: int, row: int)
      requires Valid(b)
      requires AllInside(Shifted(cells[..], col, row), b.Height(), b.Width())
      modifies this`centerRow, this`centerCol, cells
      ensures cells[..] == Shifted(old(cells[..]), col, row)
      ensures Center() == Add(old(Center()), Pos(row, col))
      ensures Valid(b)
    {
      ShiftedKeepsForm(kind, cells[..], Center(), col, row);
      ShiftCells(col, row);
      centerRow := centerRow + row;
      centerCol := centerCol + col;
    }

    /** rotate: every cell moves by its entry in the rotation table; the
        pivot stays where it is; the old cells become EMPTY with the empty
        colour, then the new cells become ACTIVE in the piece's colour. */
    method Rotate(b: Board)
      requires Valid(b) && b.Valid()
      requires AllInside(Rotated(kind, cells[..], Center()), b.Height(), b.Width())
      modifies this`active, cells, b.Footprint()
      ensures cells[..] == Rotated(kind, old(cells[..]), old(Center()))
      ensures Center() == old(Center())
      ensures active
      ensures b.Snapshot() == Paint(Paint(old(b.Snapshot()), old(cells[..]), BLANK), cells[..], CellState(ACTIVE, color))
      ensures Valid(b)
    {
      RotatedTurns(kind, cells[..], Center());
      SetEmpty(b, cells[..]);
      ghost var g1 := b.Snapshot();
      RotateCells();
      assert b.Snapshot() == g1;
      SetActive(b);
    }

    /** The cell-by-cell reassignment inside move. */
    method ShiftCells(col: int, row: int)
      requires cells.Length == SIZE
      modifies cells
      ensures cells[..] == Shifted(old(cells[..]), col, row)
    {
      ghost var cs := cells[..];
      var cell := 0;
      while cell < SIZE
        invariant 0 <= cell <= SIZE
        invariant forall i :: 0 <= i < cell ==> cells[i] == Add(cs[i], Pos(row, col))
        invariant forall i :: cell <= i < SIZE ==> cells[i] == cs[i]
      {
        cells[cell] := Pos(cells[cell].row + row, cells[cell].col + col);
        cell := cell + 1;
      }
    }

    /** The cell-by-cell reassignment inside rotate: each cell's entry in the
        table is taken before that cell is moved. */
    method RotateCells()
      requires cells.Length == SIZE
      modifies cells
      ensures cells[..] == Rotated(kind, old(cells[..]), Center())
    {
      ghost var cs := cells[..];
      var cell := 0;
      while cell < SIZE
        invariant 0 <= cell <= SIZE
        invariant forall i :: 0 <= i < cell ==> cells[i] == Add(cs[i], Rotation(kind, i, cs[i], Center()))
        invariant forall i :: cell <= i < SIZE ==> cells[i] == cs[i]
      {
        var rotated := Rotation(kind, cell, cells[cell], Center());
        cells[cell] := Pos(cells[cell].row + rotated.row, cells[cell].col + rotated.col);
        cell := cell + 1;
      }
    }
  }
}
