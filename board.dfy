/** The well: a rows x cols grid of cells with completed-row detection, the
    conditional row shift, the spawn-band game-over test and reset
    (TetrisBoard.java). The class works on the cell objects in place; the
    functions on `Grid` values above it are its specification. */
module TetrisBoard {
  import opened TetrisCell

  /** Number of cells in a piece (TetrisPiece.SIZE); the board uses it as the
      length of the completed-lines array and as the spawn-band width. */
  const PIECE_SIZE: nat := 4

  /** What a cell holds at one moment. */
  datatype CellState = CellState(mark: int, color: Color)

  /** A value picture of the board, row by row. */
  type Grid = seq<seq<CellState>>

  /** A board coordinate. */
  datatype Pos = Pos(row: int, col: int)

  const BLANK: CellState := CellState(EMPTY, COLOR_EMPTY)

  /** Every row of `g` has `w` cells. */
  predicate IsGrid(g: Grid, w: nat)
  {
    forall r :: 0 <= r < |g| ==> |g[r]| == w
  }

  predicate InGrid(g: Grid, p: Pos)
  {
    0 <= p.row < |g| && 0 <= p.col < |g[p.row]|
  }

  /** The marks of a grid, without the colours. */
  function MarkRows(g: Grid): (m: seq<seq<int>>)
    ensures |m| == |g|
    ensures forall r :: 0 <= r < |g| ==> |m[r]| == |g[r]|
  {
    seq(|g|, r requires 0 <= r < |g| => seq(|g[r]|, c requires 0 <= c < |g[r]| => g[r][c].mark))
  }

  // ---------------------------------------------------------------------
  // Completed rows (getLines)

  /** Every cell of row `r` is INACTIVE. */
  predicate RowComplete(g: Grid, r: int)
    requires 0 <= r < |g|
  {
    forall c :: 0 <= c < |g[r]| ==> g[r][c].mark == INACTIVE
  }

  /** The complete rows with index in [lo, hi), highest index first: the order
      in which a bottom-to-top scan meets them. */
  function CompleteRowsIn(g: Grid, lo: int, hi: int): seq<int>
    requires 0 <= lo <= hi <= |g|
    decreases hi - lo
  {
    if lo == hi then [] else CompleteRowsIn(g, lo + 1, hi) + (if RowComplete(g, lo) then [lo] else [])
  }

  function CompleteRows(g: Grid): seq<int>
  {
    CompleteRowsIn(g, 0, |g|)
  }

  /** `rs` followed by zeros up to length `n`, as in a zero-initialised array. */
  function ZeroPadded(rs: seq<int>, n: nat): seq<int>
    requires |rs| <= n
  {
    rs + seq(n - |rs|, _ => 0)
  }

  /** The array getLines returns. */
  function Lines(g: Grid): seq<int>
    requires |CompleteRows(g)| <= PIECE_SIZE
  {
    ZeroPadded(CompleteRows(g), PIECE_SIZE)
  }

  /** Scanning [lo, hi) is scanning [mid, hi) and then [lo, mid). */
  lemma {:induction false} CompleteRowsSplit(g: Grid, lo: int, mid: int, hi: int)
    requires 0 <= lo <= mid <= hi <= |g|
    ensures CompleteRowsIn(g, lo, hi) == CompleteRowsIn(g, mid, hi) + CompleteRowsIn(g, lo, mid)
    decreases mid - lo
  {
    if lo < mid {
      CompleteRowsSplit(g, lo + 1, mid, hi);
    }
  }

  /** A scan of the rows from `r` down is no longer than the full scan. */
  lemma CompleteRowsSuffix(g: Grid, r: int)
    requires 0 <= r <= |g|
    ensures |CompleteRowsIn(g, r, |g|)| <= |CompleteRows(g)|
  {
    CompleteRowsSplit(g, 0, r, |g|);
  }

  /** Where getLines' scan stands after visiting rows |g|-1 down to r+1: the
      first `found` entries of the buffer are the complete rows met so far and
      the rest are still zero. */
  ghost predicate Scanned(g: Grid, buf: seq<int>, found: int, r: int)
  {
    -1 <= r < |g| && |buf| == PIECE_SIZE && 0 <= found <= PIECE_SIZE &&
    buf[..found] == CompleteRowsIn(g, r + 1, |g|) &&
    forall i :: found <= i < PIECE_SIZE ==> buf[i] == 0
  }

  /** Visiting row r appends it to the buffer exactly when it is complete, and
      while the grid has at most PIECE_SIZE complete rows the buffer has room. */
  lemma ScanStep(g: Grid, buf: seq<int>, found: int, r: int, complete: bool)
    requires Scanned(g, buf, found, r) && 0 <= r && |CompleteRows(g)| <= PIECE_SIZE
    requires complete <==> RowComplete(g, r)
    ensures complete ==> found < PIECE_SIZE && Scanned(g, buf[found := r], found + 1, r - 1)
    ensures !complete ==> Scanned(g, buf, found, r - 1)
  {
    CompleteRowsSuffix(g, r);
    assert CompleteRowsIn(g, r, |g|) == CompleteRowsIn(g, r + 1, |g|) + (if complete then [r] else []);
    if complete {
      assert buf[found := r][..found + 1] == buf[..found] + [r];
    }
  }

  /** An array of PIECE_SIZE entries that starts with the full scan and is
      zero after it holds `Lines(g)`. */
  lemma ScanPadded(g: Grid, lines: seq<int>, found: int)
    requires |lines| == PIECE_SIZE && 0 <= found <= PIECE_SIZE
    requires lines[..found] == CompleteRowsIn(g, 0, |g|)
    requires forall i :: found <= i < PIECE_SIZE ==> lines[i] == 0
    ensures |CompleteRows(g)| <= PIECE_SIZE && lines == Lines(g)
  {
    assert lines == lines[..found] + lines[found..];
    assert lines[found..] == seq(PIECE_SIZE - found, _ => 0);
  }

  /** The rows reported from [lo, hi) are exactly the complete rows of that
      range, each once, in strictly decreasing order. */
  lemma CompleteRowsInExactly(g: Grid, lo: int, hi: int)
    requires 0 <= lo <= hi <= |g|
    ensures forall i :: 0 <= i < |CompleteRowsIn(g, lo, hi)| ==>
      lo <= CompleteRowsIn(g, lo, hi)[i] < hi && RowComplete(g, CompleteRowsIn(g, lo, hi)[i])
    ensures forall i, j :: 0 <= i < j < |CompleteRowsIn(g, lo, hi)| ==>
      CompleteRowsIn(g, lo, hi)[i] > CompleteRowsIn(g, lo, hi)[j]
    ensures forall r :: lo <= r < hi && RowComplete(g, r) ==> r in CompleteRowsIn(g, lo, hi)
  {
    CompleteRowsInBounds(g, lo, hi);
    CompleteRowsInDecreasing(g, lo, hi);
    CompleteRowsInCovers(g, lo, hi);
  }

  /** Every reported row lies in [lo, hi) and is complete. */
  lemma {:induction false} CompleteRowsInBounds(g: Grid, lo: int, hi: int)
    requires 0 <= lo <= hi <= |g|
    ensures forall i :: 0 <= i < |CompleteRowsIn(g, lo, hi)| ==>
      lo <= CompleteRowsIn(g, lo, hi)[i] < hi && RowComplete(g, CompleteRowsIn(g, lo, hi)[i])
    decreases hi - lo
  {
    if lo < hi {
      CompleteRowsInBounds(g, lo + 1, hi);
    }
  }

  /** The reported rows come highest first, each once. */
  lemma {:induction false} CompleteRowsInDecreasing(g: Grid, lo: int, hi: int)
    requires 0 <= lo <= hi <= |g|
    ensures forall i, j :: 0 <= i < j < |CompleteRowsIn(g, lo, hi)| ==>
      CompleteRowsIn(g, lo, hi)[i] > CompleteRowsIn(g, lo, hi)[j]
    decreases hi - lo
  {
    if lo < hi {
      CompleteRowsInDecreasing(g, lo + 1, hi);
      CompleteRowsInBounds(g, lo + 1, hi);
    }
  }

  /** No complete row of [lo, hi) is missed. */
  lemma {:induction false} CompleteRowsInCovers(g: Grid, lo: int, hi: int)
    requires 0 <= lo <= hi <= |g|
    ensures forall r :: lo <= r < hi && RowComplete(g, r) ==> r in CompleteRowsIn(g, lo, hi)
    decreases hi - lo
  {
    if lo < hi {
      CompleteRowsInCovers(g, lo + 1, hi);
    }
  }

  /** getLines' result: length PIECE_SIZE; its first entries are the complete
      rows, bottom to top; every other entry is 0; a row holding any cell that
      is not INACTIVE is never among the reported ones. */
  lemma LinesExactly(g: Grid)
    requires |CompleteRows(g)| <= PIECE_SIZE
    ensures |Lines(g)| == PIECE_SIZE
    ensures Lines(g)[..|CompleteRows(g)|] == CompleteRows(g)
    ensures forall i :: |CompleteRows(g)| <= i < PIECE_SIZE ==> Lines(g)[i] == 0
    ensures forall i, j :: 0 <= i < j < |CompleteRows(g)| ==> Lines(g)[i] > Lines(g)[j]
    ensures forall r :: 0 <= r < |g| ==> (r in CompleteRows(g) <==> RowComplete(g, r))
    ensures forall r, c :: 0 <= r < |g| && 0 <= c < |g[r]| && g[r][c].mark != INACTIVE ==> r !in CompleteRows(g)
  {
    CompleteRowsInExactly(g, 0, |g|);
  }

  // ---------------------------------------------------------------------
  // Row shift (clearLine)

  /** The copy condition of clearLine: one of the two cells is INACTIVE. */
  predicate Shifts(here: int, above: int)
  {
    here == INACTIVE || above == INACTIVE
  }

  /** The board after clearLine(k): in rows 1..k each cell takes over the
      mark and colour of the cell above it, but only when one of the two is
      INACTIVE. */
  function ClearLineGrid(g: Grid, k: int): (h: Grid)
    requires |g| > 0 && IsGrid(g, |g[0]|)
    ensures |h| == |g| && IsGrid(h, |g[0]|)
  {
    seq(|g|, r requires 0 <= r < |g| =>
      if 0 < r <= k then
        seq(|g[r]|, c requires 0 <= c < |g[r]| =>
          if Shifts(g[r][c].mark, g[r - 1][c].mark) then g[r - 1][c] else g[r][c])
      else g[r])
  }

  /** Row 0 and every row below row k are left as they were. */
  lemma ClearLineKeeps(g: Grid, k: int)
    requires |g| > 0 && IsGrid(g, |g[0]|)
    ensures ClearLineGrid(g, k)[0] == g[0]
    ensures forall r :: 0 <= r < |g| && k < r ==> ClearLineGrid(g, k)[r] == g[r]
  {
  }

  /** Every mark is EMPTY or INACTIVE (no piece is falling). */
  predicate Settled(g: Grid)
  {
    forall r, c :: 0 <= r < |g| && 0 <= c < |g[r]| ==> g[r][c].mark in {EMPTY, INACTIVE}
  }

  /** `s` without entry k and with its first entry repeated on top. */
  function DropRow<T>(s: seq<T>, k: int): seq<T>
    requires 0 <= k < |s|
  {
    [s[0]] + s[..k] + s[k + 1..]
  }

  /** On a settled board, clearing row k (0 < k) deletes that row's marks and
      repeats the marks of row 0 on top: each row 1..k takes the marks of the
      row above it. */
  lemma {:induction false} ClearLineDeletesRow(g: Grid, k: int)
    requires |g| > 0 && IsGrid(g, |g[0]|) && Settled(g)
    requires 0 < k < |g|
    ensures MarkRows(ClearLineGrid(g, k)) == DropRow(MarkRows(g), k)
  {
    var h := ClearLineGrid(g, k);
    var lhs := MarkRows(h);
    var rhs := DropRow(MarkRows(g), k);
    assert |lhs| == |rhs|;
    forall r | 0 <= r < |lhs|
      ensures lhs[r] == rhs[r]
    {
      if r == 0 {
        assert rhs[0] == MarkRows(g)[0];
      } else if r <= k {
        assert rhs[r] == MarkRows(g)[r - 1];
        forall c | 0 <= c < |lhs[r]|
          ensures lhs[r][c] == rhs[r][c]
        {
          assert g[r][c].mark in {EMPTY, INACTIVE} && g[r - 1][c].mark in {EMPTY, INACTIVE};
        }
      } else {
        assert rhs[r] == MarkRows(g)[r];
      }
    }
  }

  /** The shift is not exact where the falling piece meets an empty cell:
      in the rows it shifts, an ACTIVE cell is neither carried down onto an
      EMPTY cell below it nor overwritten by an EMPTY cell above it. */
  lemma ClearLineSkipsActive(g: Grid, k: int, r: int, c: int)
    requires |g| > 0 && IsGrid(g, |g[0]|)
    requires 0 < r <= k < |g| && 0 <= c < |g[0]|
    ensures g[r][c].mark == EMPTY && g[r - 1][c].mark == ACTIVE ==> ClearLineGrid(g, k)[r][c] == g[r][c]
    ensures g[r][c].mark == ACTIVE && g[r - 1][c].mark == EMPTY ==> ClearLineGrid(g, k)[r][c] == g[r][c]
  {
  }

  // ---------------------------------------------------------------------
  // Spawn band (isFull)

  /** First column of the band the next piece spawns in. */
  function BandLeft(w: int): int
    requires w >= PIECE_SIZE
  {
    (w - PIECE_SIZE) / 2
  }

  /** The band is centred: PIECE_SIZE wide for an even width, one more for an odd one. */
  lemma BandWidth(w: int)
    requires w >= PIECE_SIZE
    ensures 0 <= BandLeft(w) && BandLeft(w) + (w - 2 * BandLeft(w)) == w - BandLeft(w) <= w
    ensures w - 2 * BandLeft(w) == if w % 2 == 0 then PIECE_SIZE else PIECE_SIZE + 1
  {
  }

  /** Some INACTIVE cell lies in the top two rows inside the spawn band. ACTIVE
      cells do not count. */
  predicate FullGrid(g: Grid, w: nat)
    requires w >= PIECE_SIZE && |g| >= 2 && IsGrid(g, w)
  {
    exists r, c :: 0 <= r < 2 && BandLeft(w) <= c < w - BandLeft(w) && g[r][c].mark == INACTIVE
  }

  // ---------------------------------------------------------------------
  // Whole-board pictures used by the piece operations and by reset

  /** A board of `h` rows of `w` copies of `st`. */
  function Uniform(h: nat, w: nat, st: CellState): (g: Grid)
    ensures |g| == h && IsGrid(g, w)
  {
    seq(h, _ => seq(w, _ => st))
  }

  /** `g` with every position listed in `ps` set to `st`. */
  function Paint(g: Grid, ps: seq<Pos>, st: CellState): (h: Grid)
    ensures |h| == |g| && forall r :: 0 <= r < |g| ==> |h[r]| == |g[r]|
  {
    seq(|g|, r requires 0 <= r < |g| =>
      seq(|g[r]|, c requires 0 <= c < |g[r]| => if Pos(r, c) in ps then st else g[r][c]))
  }

  /** `g` with the mark of every position listed in `ps` set to `m`, colours kept. */
  function Remark(g: Grid, ps: seq<Pos>, m: int): (h: Grid)
    ensures |h| == |g| && forall r :: 0 <= r < |g| ==> |h[r]| == |g[r]|
  {
    seq(|g|, r requires 0 <= r < |g| =>
      seq(|g[r]|, c requires 0 <= c < |g[r]| => if Pos(r, c) in ps then g[r][c].(mark := m) else g[r][c]))
  }

  /** A later painting of every position an earlier one listed hides the
      earlier one: blanking cells and then showing the same cells again is
      the same as showing them. */
  lemma PaintOverwrites(g: Grid, ps: seq<Pos>, qs: seq<Pos>, s1: CellState, s2: CellState)
    requires forall p :: p in ps ==> p in qs
    ensures Paint(Paint(g, ps, s1), qs, s2) == Paint(g, qs, s2)
  {
    var lhs := Paint(Paint(g, ps, s1), qs, s2);
    var rhs := Paint(g, qs, s2);
    forall r | 0 <= r < |g|
      ensures lhs[r] == rhs[r]
    {
      assert |lhs[r]| == |rhs[r]|;
      forall c | 0 <= c < |g[r]|
        ensures lhs[r][c] == rhs[r][c]
      {
        if Pos(r, c) !in qs {
          assert Pos(r, c) !in ps;
        }
      }
    }
  }

  /** Paintings of positions no two of which coincide can be done in either
      order. */
  lemma PaintCommutes(g: Grid, ps: seq<Pos>, qs: seq<Pos>, s1: CellState, s2: CellState)
    requires forall p :: p in ps ==> p !in qs
    ensures Paint(Paint(g, ps, s1), qs, s2) == Paint(Paint(g, qs, s2), ps, s1)
  {
    var lhs := Paint(Paint(g, ps, s1), qs, s2);
    var rhs := Paint(Paint(g, qs, s2), ps, s1);
    forall r | 0 <= r < |g|
      ensures lhs[r] == rhs[r]
    {
      assert |lhs[r]| == |rhs[r]|;
      forall c | 0 <= c < |g[r]|
        ensures lhs[r][c] == rhs[r][c]
      {
        if Pos(r, c) in ps {
          assert Pos(r, c) !in qs;
        }
      }
    }
  }

  /** Painting cells that already show `st` changes nothing. */
  lemma PaintShown(g: Grid, ps: seq<Pos>, st: CellState)
    requires forall r, c :: 0 <= r < |g| && 0 <= c < |g[r]| && Pos(r, c) in ps ==> g[r][c] == st
    ensures Paint(g, ps, st) == g
  {
    var h := Paint(g, ps, st);
    forall r | 0 <= r < |g|
      ensures h[r] == g[r]
    {
      assert |h[r]| == |g[r]|;
      forall c | 0 <= c < |g[r]|
        ensures h[r][c] == g[r][c]
      {
      }
    }
  }

  // ---------------------------------------------------------------------

  /** A cell as the board's constructor leaves it. */
  twostate predicate Made(new x: Cell, r: int, c: int)
    reads x
  {
    fresh(x) && x.row == r && x.col == c && x.mark == EMPTY && x.color == NoColor
  }

  class Board {
    /** The cell objects, row by row. The grid of references is built once
        by the constructor and never stored into again; only the cells
        themselves change. */
    const cells: seq<seq<Cell>>
    const cols: nat
    const grid: bool

    function Height(): nat
    {
      |cells|
    }

    function Width(): nat
    {
      cols
    }

    predicate InBounds(r: int, c: int)
    {
      0 <= r < Height() && 0 <= c < Width()
    }

    /** The cell objects the board owns. */
    ghost function Footprint(): set<Cell>
    {
      set r, c | 0 <= r < |cells| && 0 <= c < |cells[r]| :: cells[r][c]
    }

    /** Every row has `cols` cells and each cell knows its own place; in
        particular no cell object is shared between two places. */
    ghost predicate Valid()
    {
      (forall r :: 0 <= r < |cells| ==> |cells[r]| == cols) &&
      (forall r, c :: 0 <= r < |cells| && 0 <= c < |cells[r]| ==> cells[r][c].row == r && cells[r][c].col == c)
    }

    /** The current marks and colours as a value. */
    ghost function Snapshot(): (g: Grid)
      reads Footprint()
      ensures |g| == Height() && forall r :: 0 <= r < |g| ==> |g[r]| == |cells[r]|
      ensures Valid() ==> IsGrid(g, Width())
    {
      seq(|cells|, r requires 0 <= r < |cells| reads Footprint() =>
        seq(|cells[r]|, c requires 0 <= c < |cells[r]| reads Footprint() =>
          CellState(cells[r][c].mark, cells[r][c].color)))
    }

    /** What cell (r, c) holds now. */
    ghost function StateAt(r: int, c: int): CellState
      requires Valid() && InBounds(r, c)
      reads cells[r][c]
    {
      CellState(cells[r][c].mark, cells[r][c].color)
    }

    /** The snapshot is `g` as soon as every cell agrees with `g`. */
    lemma SnapshotIs(g: Grid)
      requires Valid() && |g| == Height() && IsGrid(g, Width())
      requires forall r, c :: 0 <= r < Height() && 0 <= c < Width() ==>
        CellState(cells[r][c].mark, cells[r][c].color) == g[r][c]
      ensures Snapshot() == g
    {
      forall i | 0 <= i < Height()
        ensures Snapshot()[i] == g[i]
      {
        assert |Snapshot()[i]| == |g[i]|;
      }
    }

    /** A board none of whose cells changed shows the same snapshot. */
    twostate lemma SnapshotKept()
      requires Valid() && unchanged(Footprint())
      ensures Snapshot() == old(Snapshot())
    {
      SnapshotIs(old(Snapshot()));
    }

    /** After construction cell [r][c] exists for every r < rows and c < cols,
        has coordinates (r, c), is EMPTY and has no colour yet. */
    constructor (rows: nat, cols: nat, grid: bool)
      ensures Valid() && Height() == rows && Width() == cols && this.grid == grid
      ensures Snapshot() == Uniform(rows, cols, CellState(EMPTY, NoColor))
      ensures fresh(Footprint())
    {
      var built: seq<seq<Cell>> := [];
      var r := 0;
      while r < rows
        invariant 0 <= r <= rows && |built| == r
        invariant forall i :: 0 <= i < r ==> |built[i]| == cols
        invariant forall i, j :: 0 <= i < r && 0 <= j < cols ==> Made(built[i][j], i, j)
      {
        var line: seq<Cell> := [];
        var c := 0;
        while c < cols
          invariant 0 <= c <= cols && |line| == c
          invariant forall j :: 0 <= j < c ==> Made(line[j], r, j)
          invariant forall i, j :: 0 <= i < r && 0 <= j < cols ==> Made(built[i][j], i, j)
        {
          var x := new Cell(r, c);
          line := line + [x];
          c := c + 1;
        }
        built := built + [line];
        r := r + 1;
      }
      cells := built;
      this.cols := cols;
      this.grid := grid;
      new;
      ghost var g: Grid := Snapshot();
      ghost var u := Uniform(rows, cols, CellState(EMPTY, NoColor));
      forall i | 0 <= i < rows
        ensures g[i] == u[i]
      {
        assert |g[i]| == |u[i]|;
      }
    }

    /** getCell: the cell object at (r, c). */
    function GetCell(r: int, c: int): (x: Cell)
      requires Valid() && InBounds(r, c)
      ensures x.row == r && x.col == c
      ensures x in Footprint()
    {
      cells[r][c]
    }

    /** setCell: sets the mark of one cell, leaving its colour and every other cell alone. */
    /** Cell (r, c) takes the mark and colour of `st`, as setEmpty and
        setActive do to each cell of a piece; no other cell changes. */
    method Show(r: int, c: int, st: CellState)
      requires Valid() && InBounds(r, c)
      modifies Footprint()
      ensures forall i, j :: 0 <= i < Height() && 0 <= j < Width() ==>
        StateAt(i, j) == if (i, j) == (r, c) then st else old(StateAt(i, j))
    {
      var cell := cells[r][c];
      var _ := cell.SetMark(st.mark);
      cell.SetColor(st.color);
    }

    method SetCell(r: int, c: int, m: int)
      requires Valid() && InBounds(r, c)
      modifies Footprint()
      ensures Snapshot() == Remark(old(Snapshot()), [Pos(r, c)], m)
    {
      ghost var g0: Grid := Snapshot();
      var _ := cells[r][c].SetMark(m);
      ghost var g1 := Snapshot();
      ghost var g2 := Remark(g0, [Pos(r, c)], m);
      forall i | 0 <= i < Height()
        ensures g1[i] == g2[i]
      {
        assert |g1[i]| == |g2[i]|;
      }
    }

    /** The inner loop of getLines: row `r` is complete when no cell of it
        is anything but INACTIVE. `g` is any grid whose row `r` has the marks
        the cells hold now, such as the current snapshot. */
    method IsComplete(r: int, ghost g: Grid) returns (complete: bool)
      requires Valid() && 0 <= r < Height() && |g| == Height() && IsGrid(g, Width())
      requires forall c :: 0 <= c < Width() ==> cells[r][c].mark == g[r][c].mark
      ensures complete <==> RowComplete(g, r)
    {
      var c := 0;
      while c < cols
        invariant 0 <= c <= cols
        invariant forall j :: 0 <= j < c ==> g[r][j].mark == INACTIVE
      {
        if cells[r][c].mark != INACTIVE {
          assert g[r][c].mark != INACTIVE;
          return false;
        }
        c := c + 1;
      }
      return true;
    }

    /** The outer loop of getLines: visits the rows from the bottom up and
        records each complete one in the next free entry of `a`. `g` holds
        the marks the cells show. */
    method ScanRows(a: array<int>, ghost g: Grid) returns (found: int)
      requires Valid() && |g| == Height() && IsGrid(g, Width()) && |CompleteRows(g)| <= PIECE_SIZE
      requires forall i, j :: 0 <= i < Height() && 0 <= j < Width() ==> cells[i][j].mark == g[i][j].mark
      requires a.Length == PIECE_SIZE && forall i :: 0 <= i < a.Length ==> a[i] == 0
      modifies a
      ensures Scanned(g, a[..], found, -1)
    {
      found := 0;
      var r: int := Height() - 1;
      while r >= 0
        invariant Scanned(g, a[..], found, r)
      {
        var complete := IsComplete(r, g);
        ScanStep(g, a[..], found, r, complete);
        if complete {
          a[found] := r;
          found := found + 1;
        }
        r := r - 1;
      }
    }

    /** getLines: the completed rows, scanned bottom to top, in an array of
        length PIECE_SIZE. The source writes past that array on a fifth
        completed row, so at most PIECE_SIZE may be complete. */
    method GetLines() returns (lines: seq<int>)
      requires Valid() && Height() > 0
      requires |CompleteRows(Snapshot())| <= PIECE_SIZE
      ensures |CompleteRows(Snapshot())| <= PIECE_SIZE && lines == Lines(Snapshot())
      ensures |lines| == PIECE_SIZE
    {
      ghost var g: Grid := Snapshot();
      var a := new int[PIECE_SIZE](_ => 0);
      var found := ScanRows(a, g);
      lines := a[..];
      ScanPadded(g, lines, found);
      SnapshotKept();
    }

    /** clearLine(k): for r = k down to 1, cell (r, c) takes over the mark and
        colour of (r-1, c) when either of the two is INACTIVE. Rows are visited
        bottom-up, so each row above is still unmodified when it is read. */
    method ClearLine(k: int)
      requires Valid() && Height() > 0 && k < Height()
      modifies Footprint()
      ensures Snapshot() == ClearLineGrid(old(Snapshot()), k)
    {
      ghost var g0: Grid := Snapshot();
      ghost var g1: Grid := ClearLineGrid(g0, k);
      var r := k;
      while r > 0
        invariant r <= k
        invariant forall i, j :: 0 <= i < Height() && 0 <= j < Width() ==>
          StateAt(i, j) == if r < i then g1[i][j] else g0[i][j]
      {
        ShiftRow(r);
        r := r - 1;
      }
      SnapshotIs(g1);
    }

    /** One pass of clearLine's inner loop: each cell of row r takes over the
        cell above it when one of the two is INACTIVE. */
    method ShiftRow(r: int)
      requires Valid() && 0 < r < Height()
      modifies Footprint()
      ensures forall i, j :: 0 <= i < Height() && 0 <= j < Width() ==>
        StateAt(i, j) == if i == r && Shifts(old(cells[r][j].mark), old(cells[r - 1][j].mark))
                         then old(StateAt(r - 1, j)) else old(StateAt(i, j))
    {
      var cols := Width();
      var c := 0;
      while c < cols
        invariant 0 <= c <= cols
        invariant Valid()
        invariant forall i, j :: 0 <= i < Height() && 0 <= j < Width() ==>
          StateAt(i, j) == if i == r && j < c && Shifts(old(cells[r][j].mark), old(cells[r - 1][j].mark))
                           then old(StateAt(r - 1, j)) else old(StateAt(i, j))
      {
        assert StateAt(r, c) == old(StateAt(r, c));
        assert StateAt(r - 1, c) == old(StateAt(r - 1, c));
        ghost var before := StateAt(r - 1, c);
        if cells[r][c].mark == INACTIVE || cells[r - 1][c].mark == INACTIVE {
          var _ := cells[r][c].SetMark(cells[r - 1][c].mark);
          cells[r][c].SetColor(cells[r - 1][c].color);
          assert StateAt(r, c) == before;
        }
        assert forall i, j :: 0 <= i < Height() && 0 <= j < Width() && (i, j) != (r, c) ==> cells[i][j] != cells[r][c];
        c := c + 1;
      }
    }

    /** isFull: whether an INACTIVE cell sits in the top two rows within the
        centred spawn band. */
    method IsFull() returns (full: bool)
      requires Valid() && Height() >= 2 && Width() >= PIECE_SIZE
      ensures full <==> FullGrid(Snapshot(), Width())
    {
      ghost var g: Grid := Snapshot();
      var left := (Width() - PIECE_SIZE) / 2;
      var right := Width() - left;
      full := false;
      var r := 0;
      while r < 2
        invariant 0 <= r <= 2
        invariant full <==> exists i, j :: 0 <= i < r && left <= j < right && g[i][j].mark == INACTIVE
      {
        var c := left;
        var hit := false;
        while c < right
          invariant left <= c <= right && !hit
          invariant forall j :: left <= j < c ==> g[r][j].mark != INACTIVE
        {
          if cells[r][c].mark == INACTIVE {
            hit := true;
            assert g[r][c].mark == INACTIVE;
            break;
          }
          c := c + 1;
        }
        assert hit <==> exists j :: left <= j < right && g[r][j].mark == INACTIVE;
        if hit {
          full := true;
        }
        r := r + 1;
      }
    }

    /** clear: every cell becomes EMPTY with the empty colour; the dimensions stay. */
    method Clear()
      requires Valid() && Height() > 0
      modifies Footprint()
      ensures Snapshot() == Uniform(Height(), Width(), BLANK)
    {
      var rows := Height();
      var cols := Width();
      var r := 0;
      while r < rows
        invariant 0 <= r <= rows
        invariant forall i, j :: 0 <= i < r && 0 <= j < cols ==> CellState(cells[i][j].mark, cells[i][j].color) == BLANK
      {
        var c := 0;
        while c < cols
          invariant 0 <= c <= cols
          invariant forall i, j :: 0 <= i < r && 0 <= j < cols ==> CellState(cells[i][j].mark, cells[i][j].color) == BLANK
          invariant forall j :: 0 <= j < c ==> CellState(cells[r][j].mark, cells[r][j].color) == BLANK
        {
          var _ := cells[r][c].SetMark(EMPTY);
          cells[r][c].SetColor(COLOR_EMPTY);
          c := c + 1;
        }
        r := r + 1;
      }
      ghost var g1 := Snapshot();
      ghost var g2 := Uniform(rows, cols, BLANK);
      forall i | 0 <= i < rows
        ensures g1[i] == g2[i]
      {
        assert |g1[i]| == |g2[i]|;
      }
    }
  }
}
