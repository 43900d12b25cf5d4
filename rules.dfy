/** The rules the game controller applies (TetrisGame.java), stated on
    values: the score, level and delay formulas, the line clearing of the
    spawn step with its index compensation, and what one move does to the
    board and the falling piece. The `Game` class is proved against these. */
module TetrisRules {
  import opened TetrisCell
  import opened TetrisBoard
  import opened TetrisPiece

  const LINES_BASE: int := 200
  const SCORE_BASE: int := 100
  const LEVEL_BASE: int := 10
  const DELAY_BASE: int := 1000
  /** The timer delay while the computer plays. */
  const AI_DELAY: int := 100

  // ---------------------------------------------------------------------
  // Score, level and delay

  /** Points for one spawn: (level + 1) * 200 per cleared line plus 100 / moves
      (integer division), and nothing at all when no move was made. */
  function ScoreDelta(moves: int, level: int, cleared: int): int
  {
    if moves > 0 then (level + 1) * (cleared * LINES_BASE) + SCORE_BASE / moves else 0
  }

  /** A spawn earns points exactly when at least one move was made and
      either a line was cleared or the move bonus 100 / moves is not zero;
      cleared lines with no move earn nothing. */
  lemma ScorePositive(moves: int, level: int, cleared: int)
    requires level >= 0 && cleared >= 0
    ensures ScoreDelta(moves, level, cleared) >= 0
    ensures ScoreDelta(moves, level, cleared) > 0 <==> moves > 0 && (cleared > 0 || moves <= SCORE_BASE)
  {
    if moves > 0 {
      assert (level + 1) * (cleared * LINES_BASE) >= 0;
      if cleared > 0 {
        assert (level + 1) * (cleared * LINES_BASE) >= LINES_BASE;
      } else if moves > SCORE_BASE {
        assert SCORE_BASE / moves == 0;
      } else {
        assert SCORE_BASE / moves >= 1;
      }
    }
  }

  /** The line points grow by (level + 1) * 200 per line, and the move bonus
      lies in [0, 100]. */
  lemma ScoreDeltaShape(moves: int, level: int, cleared: int)
    requires moves > 0 && level >= 0 && cleared >= 0
    ensures 0 <= ScoreDelta(moves, level, cleared) - (level + 1) * cleared * LINES_BASE <= SCORE_BASE
    ensures ScoreDelta(moves, level, cleared + 1) == ScoreDelta(moves, level, cleared) + (level + 1) * LINES_BASE
  {
    assert (level + 1) * ((cleared + 1) * LINES_BASE) == (level + 1) * (cleared * LINES_BASE) + (level + 1) * LINES_BASE;
    assert (level + 1) * (cleared * LINES_BASE) == (level + 1) * cleared * LINES_BASE;
  }

  /** Integer division by a larger divisor gives no more. */
  lemma DivAntitone(n: nat, x: int, y: int)
    requires 0 < x <= y
    ensures n / x >= n / y
  {
    var q := n / y;
    var t := n / x;
    assert q * y <= n;
    MulMonotone(q, x, y);
    assert n < (t + 1) * x;
    MulCancel(q, t + 1, x);
  }

  lemma MulMonotone(q: int, x: int, y: int)
    requires q >= 0 && x <= y
    ensures q * x <= q * y
  {
  }

  lemma MulCancel(a: int, b: int, x: int)
    requires x > 0 && a * x < b * x
    ensures a < b
  {
  }

  /** Fewer moves on a piece never earn fewer points. */
  lemma FewerMovesScoreMore(m1: int, m2: int, level: int, cleared: int)
    requires 0 < m1 <= m2
    ensures ScoreDelta(m1, level, cleared) >= ScoreDelta(m2, level, cleared)
  {
    DivAntitone(SCORE_BASE, m1, m2);
  }

  /** 1 when the new line total reaches the next multiple of ten above the
      start level's, else 0. */
  function LevelStep(lines: int, level: int, start: int): (up: int)
    ensures up == 0 || up == 1
  {
    if lines >= (level - start + 1) * LEVEL_BASE then 1 else 0
  }

  /** The level is the start level plus a tenth of the lines: when that holds
      and at most PIECE_SIZE lines are added (a spawn clears no more), one
      level step keeps it. */
  lemma LevelTracksLines(lines: nat, added: nat, level: int, start: int)
    requires level == start + lines / LEVEL_BASE && added <= PIECE_SIZE
    ensures level + LevelStep(lines + added, level, start) == start + (lines + added) / LEVEL_BASE
  {
    var k := lines / LEVEL_BASE;
    assert lines == LEVEL_BASE * k + lines % LEVEL_BASE;
    if lines + added >= (k + 1) * LEVEL_BASE {
      assert (lines + added) / LEVEL_BASE == k + 1;
    } else {
      assert (lines + added) / LEVEL_BASE == k;
    }
  }

  /** The delay a reset game starts with: 1000 / (level + 1). */
  function ResetDelay(level: int): int
    requires level >= 0
  {
    DELAY_BASE / (level + 1)
  }

  /** The human player's delay after a level-up: 1000 / (level + 1), less 10
      when that exceeds 10. */
  function LevelDelay(level: int): int
    requires level >= 0
  {
    var d := DELAY_BASE / (level + 1);
    if d > 10 then d - 10 else d
  }

  /** The delay lies in [0, 990], and it reaches 0 exactly from level 1000 on. */
  lemma LevelDelayRange(level: int)
    requires level >= 0
    ensures 0 <= LevelDelay(level) <= DELAY_BASE - 10
    ensures LevelDelay(level) > 0 <==> level < DELAY_BASE
  {
    DivAntitone(DELAY_BASE, 1, level + 1);
    if level < DELAY_BASE {
      assert DELAY_BASE / (level + 1) >= 1;
    } else {
      assert DELAY_BASE / (level + 1) == 0;
    }
  }

  /** While 1000 / (level + 1) stays above 10 a higher level is never slower. */
  lemma LevelDelayFalls(a: int, b: int)
    requires 0 <= a <= b && DELAY_BASE / (b + 1) > 10
    ensures LevelDelay(a) >= LevelDelay(b)
  {
    DivAntitone(DELAY_BASE, a + 1, b + 1);
  }

  /** Past that point the subtraction stops: from level 90 on the delay is
      the bare 1000 / (level + 1), at most 10 ms, while every level from 0 to
      89 has its 10 ms taken off, so level 89 waits 1 ms and level 90 waits
      10. */
  lemma LevelDelayJumps(level: int)
    requires level >= 0
    ensures level >= 90 ==> LevelDelay(level) == DELAY_BASE / (level + 1) <= 10
    ensures level < 90 ==> LevelDelay(level) == DELAY_BASE / (level + 1) - 10
    ensures LevelDelay(89) == 1 && LevelDelay(90) == 10
  {
    if level >= 90 {
      DivAntitone(DELAY_BASE, 91, level + 1);
    } else {
      DivAntitone(DELAY_BASE, level + 1, 90);
    }
  }

  /** The delay after a spawn: always 100 for the computer; for the human
      player recomputed from the new level on a level-up, else unchanged. */
  function NextDelay(isHuman: bool, up: int, level: int, delay: int): (d: int)
    requires level >= 0
    ensures !isHuman ==> d == AI_DELAY
    ensures isHuman && up == 0 ==> d == delay
    ensures isHuman && up > 0 ==> d == LevelDelay(level)
  {
    if !isHuman then AI_DELAY else if up > 0 then LevelDelay(level) else delay
  }

  /** The game's counters. */
  datatype Counters = Counters(lines: int, score: int, level: int, moves: int, delay: int)

  /** The counters after a spawn step that cleared `n` lines: lines and
      score grow, the level takes its step, the delay follows, and the move
      count restarts. */
  function Tallied(c: Counters, n: int, start: int, isHuman: bool): (d: Counters)
    requires c.level >= 0
    ensures d.lines == c.lines + n && d.moves == 0
    ensures d.level == c.level || d.level == c.level + 1
  {
    var up := LevelStep(c.lines + n, c.level, start);
    Counters(c.lines + n, c.score + ScoreDelta(c.moves, c.level, n), c.level + up, 0,
             NextDelay(isHuman, up, c.level + up, c.delay))
  }

  /** A spawn step keeps the level at the start level plus a tenth of the
      lines. */
  lemma TalliedProgress(c: Counters, n: int, start: int, isHuman: bool)
    requires c.level >= 0 && 0 <= c.lines && c.level == start + c.lines / LEVEL_BASE
    requires 0 <= n <= PIECE_SIZE
    ensures var d := Tallied(c, n, start, isHuman);
      0 <= d.lines && d.level == start + d.lines / LEVEL_BASE
  {
    LevelTracksLines(c.lines, n, c.level, start);
  }

  // ---------------------------------------------------------------------
  // Line clearing in the spawn step

  /** The positive entries of `ls`, in order. */
  function PosList(ls: seq<int>): (d: seq<int>)
    ensures |d| <= |ls|
    ensures forall i :: 0 <= i < |d| ==> d[i] > 0
  {
    if ls == [] then []
    else PosList(ls[..|ls| - 1]) + (if ls[|ls| - 1] > 0 then [ls[|ls| - 1]] else [])
  }

  lemma {:induction false} PosListMembers(ls: seq<int>)
    ensures forall x :: x in PosList(ls) <==> x in ls && x > 0
  {
    if ls != [] {
      var init := ls[..|ls| - 1];
      PosListMembers(init);
      assert ls == init + [ls[|ls| - 1]];
    }
  }

  /** The board after the loop of the spawn step has handled the entries of
      `ls`: each positive entry k clears row k plus the number of rows cleared
      before it, since every row above a cleared one has moved down by one. */
  function ClearPrefix(g: Grid, ls: seq<int>): (h: Grid)
    requires |g| > 0 && IsGrid(g, |g[0]|)
    ensures |h| == |g| && IsGrid(h, |g[0]|)
  {
    if ls == [] then g
    else
      var h := ClearPrefix(g, ls[..|ls| - 1]);
      var k := ls[|ls| - 1];
      if k > 0 then ClearLineGrid(h, k + |PosList(ls[..|ls| - 1])|) else h
  }

  /** One more entry: a positive one clears one more row, below the
      `count` rows already cleared, */
  lemma ClearPrefixNextPositive(g: Grid, ls: seq<int>, r: int, count: int)
    requires |g| > 0 && IsGrid(g, |g[0]|) && 0 <= r < |ls| && ls[r] > 0
    requires count == |PosList(ls[..r])|
    ensures ClearPrefix(g, ls[..r + 1]) == ClearLineGrid(ClearPrefix(g, ls[..r]), ls[r] + count)
    ensures |PosList(ls[..r + 1])| == count + 1
  {
    assert ls[..r + 1][..r] == ls[..r];
  }

  /** and any other entry changes nothing. */
  lemma ClearPrefixNextOther(g: Grid, ls: seq<int>, r: int)
    requires |g| > 0 && IsGrid(g, |g[0]|) && 0 <= r < |ls| && ls[r] <= 0
    ensures ClearPrefix(g, ls[..r + 1]) == ClearPrefix(g, ls[..r])
    ensures |PosList(ls[..r + 1])| == |PosList(ls[..r])|
  {
    assert ls[..r + 1][..r] == ls[..r];
  }

  /** What getLines reports: the positive entries appear in strictly
      decreasing order, and every entry is a row index below `n`. */
  predicate Reported(ls: seq<int>, n: int)
  {
    (forall i, j :: 0 <= i < j < |ls| && ls[j] > 0 ==> ls[i] > ls[j]) &&
    (forall i :: 0 <= i < |ls| ==> ls[i] < n)
  }

  predicate StrictlyDescending(d: seq<int>)
  {
    forall i, j :: 0 <= i < j < |d| ==> d[i] > d[j]
  }

  /** Strictly decreasing entries below n leave room: entry j is at most n - 1 - j. */
  lemma {:induction false} DescendingRoom(d: seq<int>, n: int)
    requires StrictlyDescending(d) && forall i :: 0 <= i < |d| ==> d[i] < n
    ensures forall j :: 0 <= j < |d| ==> d[j] + j < n
  {
    if |d| > 1 {
      var init := d[..|d| - 1];
      DescendingRoom(init, n);
      assert init[|d| - 2] == d[|d| - 2];
      assert d[|d| - 1] < d[|d| - 2];
    }
  }

  /** The positive entries of a report are strictly decreasing, and each
      positive entry plus the number of positive entries before it is still
      a row of the board: the index the spawn step clears is in range. */
  lemma ReportedRoom(ls: seq<int>, n: int)
    requires Reported(ls, n)
    ensures StrictlyDescending(PosList(ls))
    ensures forall j :: 0 <= j < |PosList(ls)| ==> PosList(ls)[j] + j < n
    ensures ls != [] && ls[|ls| - 1] > 0 ==> ls[|ls| - 1] + |PosList(ls[..|ls| - 1])| < n
  {
    ReportedDescending(ls, n);
    var d := PosList(ls);
    PosListMembers(ls);
    forall i | 0 <= i < |d|
      ensures d[i] < n
    {
      assert d[i] in ls;
      var j :| 0 <= j < |ls| && ls[j] == d[i];
    }
    DescendingRoom(d, n);
    if ls != [] && ls[|ls| - 1] > 0 {
      var init := ls[..|ls| - 1];
      assert d == PosList(init) + [ls[|ls| - 1]];
      assert d[|PosList(init)|] == ls[|ls| - 1];
    }
  }

  /** The same for entry r of a report: with the entries cleared before it,
      it still names a row of the board. */
  lemma ReportedEntryRoom(ls: seq<int>, n: int, r: int)
    requires Reported(ls, n) && 0 <= r < |ls| && ls[r] > 0
    ensures ls[r] + |PosList(ls[..r])| < n
  {
    var pre := ls[..r + 1];
    assert pre[..r] == ls[..r];
    assert Reported(pre, n);
    ReportedRoom(pre, n);
  }

  lemma {:induction false} ReportedDescending(ls: seq<int>, n: int)
    requires Reported(ls, n)
    ensures StrictlyDescending(PosList(ls))
  {
    if ls != [] {
      var init := ls[..|ls| - 1];
      assert Reported(init, n);
      ReportedDescending(init, n);
      var k := ls[|ls| - 1];
      if k > 0 {
        var d := PosList(init);
        assert PosList(ls) == d + [k];
        PosListMembers(init);
        forall i, j | 0 <= i < j < |d| + 1
          ensures (d + [k])[i] > (d + [k])[j]
        {
          if j == |d| {
            assert d[i] in init;
            var m :| 0 <= m < |init| && init[m] == d[i];
            assert ls[m] > ls[|ls| - 1];
          }
        }
      } else {
        assert PosList(ls) == PosList(init);
      }
    }
  }

  /** `n` copies of `x`. */
  function Repeat<T>(x: T, n: nat): (s: seq<T>)
    ensures |s| == n && forall i :: 0 <= i < n ==> s[i] == x
  {
    seq(n, _ => x)
  }

  /** `s` with the entries at the indices of `ds` deleted one after another. */
  function Without<T>(s: seq<T>, ds: seq<int>): seq<T>
  {
    if ds == [] then s
    else
      var w := Without(s, ds[..|ds| - 1]);
      var k := ds[|ds| - 1];
      if 0 <= k < |w| then w[..k] + w[k + 1..] else w
  }

  lemma WithoutLast<T>(s: seq<T>, ds: seq<int>, k: int)
    requires 0 <= k < |Without(s, ds)|
    ensures Without(s, ds + [k]) == Without(s, ds)[..k] + Without(s, ds)[k + 1..]
  {
    assert (ds + [k])[..|ds|] == ds;
  }

  /** Deleting strictly decreasing indices removes one entry each and leaves
      the entries below every deleted index in place. */
  lemma {:induction false} WithoutKeepsLow<T>(s: seq<T>, ds: seq<int>)
    requires StrictlyDescending(ds)
    requires forall j :: 0 <= j < |ds| ==> 0 <= ds[j] && ds[j] + j < |s|
    ensures |Without(s, ds)| == |s| - |ds|
    ensures forall i :: 0 <= i < |s| - |ds| && (forall j :: 0 <= j < |ds| ==> ds[j] > i) ==> Without(s, ds)[i] == s[i]
  {
    if ds != [] {
      var init := ds[..|ds| - 1];
      WithoutKeepsLow(s, init);
      var k := ds[|ds| - 1];
      forall i | 0 <= i < |s| - |ds| && (forall j :: 0 <= j < |ds| ==> ds[j] > i)
        ensures Without(s, ds)[i] == s[i]
      {
        assert forall j :: 0 <= j < |init| ==> init[j] > i by {
          forall j | 0 <= j < |init| ensures init[j] > i { assert init[j] == ds[j]; }
        }
        assert k > i;
      }
    }
  }

  /** clearLine keeps a settled board settled. */
  lemma ClearLineSettled(g: Grid, k: int)
    requires |g| > 0 && IsGrid(g, |g[0]|) && Settled(g)
    ensures Settled(ClearLineGrid(g, k))
  {
    var h: Grid := ClearLineGrid(g, k);
    forall r, c | 0 <= r < |h| && 0 <= c < |h[r]|
      ensures h[r][c].mark in {EMPTY, INACTIVE}
    {
      if 0 < r <= k {
        assert h[r][c] == g[r - 1][c] || h[r][c] == g[r][c];
      }
    }
  }

  /** The rows `s` after deleting the rows at `ds` one after another and
      refilling the top with as many copies of row 0. */
  function Compacted<T>(s: seq<T>, ds: seq<int>): seq<T>
    requires |s| > 0
  {
    Repeat(s[0], |ds|) + Without(s, ds)
  }

  lemma RepeatCons<T>(x: T, n: nat)
    ensures Repeat(x, n + 1) == [x] + Repeat(x, n)
  {
  }

  lemma SlicesAround<T>(a: seq<T>, b: seq<T>, k: int)
    requires 0 <= k < |b|
    ensures (a + b)[..|a| + k] == a + b[..k] && (a + b)[|a| + k + 1..] == b[k + 1..]
  {
  }

  /** One more deletion at k, counted from below the copies already on top,
      deletes that row and puts one more copy of row 0 on top. */
  lemma CompactedLast<T>(s: seq<T>, ds: seq<int>, k: int)
    requires |s| > 0 && 0 <= k < |Without(s, ds)|
    ensures |Compacted(s, ds)| == |ds| + |Without(s, ds)| && Compacted(s, ds)[0] == s[0]
    ensures Compacted(s, ds + [k]) == DropRow(Compacted(s, ds), k + |ds|)
  {
    CompactedTop(s, ds);
    CompactedSplice(s, ds, k);
  }

  lemma CompactedTop<T>(s: seq<T>, ds: seq<int>)
    requires |s| > 0 && 0 < |Without(s, ds)|
    ensures |Compacted(s, ds)| == |ds| + |Without(s, ds)| && Compacted(s, ds)[0] == s[0]
  {
    if ds == [] {
      assert Compacted(s, ds) == Without(s, ds) == s;
    }
  }

  lemma CompactedSplice<T>(s: seq<T>, ds: seq<int>, k: int)
    requires |s| > 0 && 0 <= k < |Without(s, ds)|
    ensures Compacted(s, ds + [k]) == [s[0]] + Compacted(s, ds)[..k + |ds|] + Compacted(s, ds)[k + |ds| + 1..]
  {
    var w := Without(s, ds);
    var u := |ds|;
    var r := Repeat(s[0], u);
    var c := Compacted(s, ds);
    calc {
      Compacted(s, ds + [k]);
      Repeat(s[0], u + 1) + Without(s, ds + [k]);
      { RepeatCons(s[0], u);
        WithoutLast(s, ds, k); }
      ([s[0]] + r) + (w[..k] + w[k + 1..]);
      { ConcatRegroup([s[0]], r, w[..k], w[k + 1..]); }
      [s[0]] + (r + w[..k]) + w[k + 1..];
      { SlicesAround(r, w, k); }
      [s[0]] + c[..k + u] + c[k + u + 1..];
    }
  }

  lemma ConcatRegroup<T>(a: seq<T>, b: seq<T>, c: seq<T>, d: seq<T>)
    ensures (a + b) + (c + d) == a + (b + c) + d
  {
  }

  /** The spawn loop keeps a settled board settled. */
  lemma {:induction false} ClearPrefixSettled(g: Grid, ls: seq<int>)
    requires |g| > 0 && IsGrid(g, |g[0]|) && Settled(g)
    ensures Settled(ClearPrefix(g, ls))
  {
    if ls != [] {
      var init := ls[..|ls| - 1];
      ClearPrefixSettled(g, init);
      ClearLineSettled(ClearPrefix(g, init), ls[|ls| - 1] + |PosList(init)|);
    }
  }

  /** The spawn step compacts a settled board: the rows named by the
      positive entries are deleted, every row above them moves down, and as
      many copies of row 0 fill the top. */
  lemma {:induction false} ClearPrefixCompacts(g: Grid, ls: seq<int>)
    requires |g| > 0 && IsGrid(g, |g[0]|) && Settled(g)
    requires Reported(ls, |g|)
    ensures MarkRows(ClearPrefix(g, ls)) == Compacted(MarkRows(g), PosList(ls))
  {
    if ls == [] {
      assert Repeat(MarkRows(g)[0], 0) == [];
    } else {
      var init := ls[..|ls| - 1];
      assert Reported(init, |g|);
      ClearPrefixCompacts(g, init);
      if ls[|ls| - 1] > 0 {
        ClearPrefixCompactsStep(g, ls);
      } else {
        assert PosList(ls) == PosList(init);
      }
    }
  }

  /** The inductive step of ClearPrefixCompacts for a positive last entry. */
  lemma ClearPrefixCompactsStep(g: Grid, ls: seq<int>)
    requires |g| > 0 && IsGrid(g, |g[0]|) && Settled(g)
    requires Reported(ls, |g|) && ls != [] && ls[|ls| - 1] > 0
    requires MarkRows(ClearPrefix(g, ls[..|ls| - 1])) == Compacted(MarkRows(g), PosList(ls[..|ls| - 1]))
    ensures MarkRows(ClearPrefix(g, ls)) == Compacted(MarkRows(g), PosList(ls))
  {
    var init := ls[..|ls| - 1];
    var h := ClearPrefix(g, init);
    StepRoom(ls, MarkRows(g));
    ClearPrefixSettled(g, init);
    CompactsOneMore(h, MarkRows(g), PosList(init), ls[|ls| - 1]);
    ClearPrefixLast(g, ls);
  }

  /** The last entry of a report, shifted by the deletions before it, is
      still a row of the grid, and those deletions shorten it by their number. */
  lemma StepRoom<T>(ls: seq<int>, s: seq<T>)
    requires Reported(ls, |s|) && ls != [] && ls[|ls| - 1] > 0
    ensures ls[|ls| - 1] + |PosList(ls[..|ls| - 1])| < |s|
    ensures |Without(s, PosList(ls[..|ls| - 1]))| == |s| - |PosList(ls[..|ls| - 1])|
  {
    ReportedEntryRoom(ls, |s|, |ls| - 1);
    ReportedInit(ls, |s|);
    ReportedWithoutLength(ls[..|ls| - 1], s);
  }

  /** ClearPrefix unfolded once at a positive last entry. */
  lemma ClearPrefixLast(g: Grid, ls: seq<int>)
    requires |g| > 0 && IsGrid(g, |g[0]|) && ls != [] && ls[|ls| - 1] > 0
    ensures PosList(ls) == PosList(ls[..|ls| - 1]) + [ls[|ls| - 1]]
    ensures ClearPrefix(g, ls) == ClearLineGrid(ClearPrefix(g, ls[..|ls| - 1]), ls[|ls| - 1] + |PosList(ls[..|ls| - 1])|)
  {
  }

  /** A report without its last entry is still a report. */
  lemma ReportedInit(ls: seq<int>, n: int)
    requires Reported(ls, n) && ls != []
    ensures Reported(ls[..|ls| - 1], n)
  {
  }

  /** Deleting the rows a report names shortens the grid by their number. */
  lemma ReportedWithoutLength<T>(ls: seq<int>, s: seq<T>)
    requires Reported(ls, |s|)
    ensures |Without(s, PosList(ls))| == |s| - |PosList(ls)|
  {
    ReportedRoom(ls, |s|);
    WithoutKeepsLow(s, PosList(ls));
  }

  /** Clearing one more row of a settled, already compacted grid compacts
      it by one more deletion. */
  lemma CompactsOneMore(h: Grid, m: seq<seq<int>>, d: seq<int>, k: int)
    requires |h| > 0 && IsGrid(h, |h[0]|) && Settled(h)
    requires 0 < k && k + |d| < |h| == |m| && |Without(m, d)| == |m| - |d|
    requires MarkRows(h) == Compacted(m, d)
    ensures MarkRows(ClearLineGrid(h, k + |d|)) == Compacted(m, d + [k])
  {
    ClearLineDeletesRow(h, k + |d|);
    CompactedAgain(MarkRows(h), MarkRows(ClearLineGrid(h, k + |d|)), m, d, k);
  }

  /** A sequence that is `m` compacted by `d` becomes `m` compacted by one
      more deletion when that row is dropped from it. */
  lemma CompactedAgain<T>(x: seq<T>, y: seq<T>, m: seq<T>, d: seq<int>, k: int)
    requires |m| > 0 && 0 <= k < |Without(m, d)|
    requires x == Compacted(m, d) && k + |d| < |x| && y == DropRow(x, k + |d|)
    ensures y == Compacted(m, d + [k])
  {
    CompactedLast(m, d, k);
  }

  /** What the spawn step receives from getLines on a settled board with at
      most PIECE_SIZE complete rows: a valid report whose positive entries
      are exactly the complete rows other than row 0. */
  lemma LinesReported(g: Grid)
    requires |g| > 0 && |CompleteRows(g)| <= PIECE_SIZE
    ensures Reported(Lines(g), |g|)
    ensures |PosList(Lines(g))| <= PIECE_SIZE
    ensures forall r :: r in PosList(Lines(g)) <==> 0 < r < |g| && RowComplete(g, r)
  {
    var ls := Lines(g);
    var cr := CompleteRows(g);
    LinesExactly(g);
    CompleteRowsInExactly(g, 0, |g|);
    PosListMembers(ls);
    forall i, j | 0 <= i < j < |ls| && ls[j] > 0
      ensures ls[i] > ls[j]
    {
      assert j < |cr|;
    }
    forall i | 0 <= i < |ls|
      ensures ls[i] < |g|
    {
      if i < |cr| {
        assert ls[i] == cr[i];
      }
    }
    forall r
      ensures r in ls && r > 0 <==> 0 < r < |g| && RowComplete(g, r)
    {
      if r in ls && r > 0 {
        var i :| 0 <= i < |ls| && ls[i] == r;
        assert i < |cr| && cr[i] == r;
      }
      if 0 < r < |g| && RowComplete(g, r) {
        var i :| 0 <= i < |cr| && cr[i] == r;
        assert ls[i] == r;
      }
    }
  }

  // ---------------------------------------------------------------------
  // One move of the falling piece (TetrisGame.move)

  /** The falling piece as the controller sees it: its four positions, its
      pivot and whether it is still falling. */
  datatype PieceState = PieceState(cells: seq<Pos>, center: Pos, active: bool)

  /** The board after the piece at `cs` has fallen k rows, one move at a
      time: each move blanks the piece's positions and then shows `st` at
      the positions one row further down. */
  function Dropped(g: Grid, cs: seq<Pos>, st: CellState, k: nat): Grid
  {
    if k == 0 then g
    else Paint(Paint(Dropped(g, cs, st, k - 1), Shifted(cs, 0, k - 1), BLANK), Shifted(cs, 0, k), st)
  }

  /** The number of rows the drop loop descends from depth j: it continues
      while a move one row down is allowed. */
  function FallDepth(g: Grid, cs: seq<Pos>, st: CellState, j: nat): (k: nat)
    ensures k >= j
    decreases |g| - j
  {
    if j < |g| && MoveAllowed(Dropped(g, cs, st, j), Shifted(cs, 0, j), 0, 1) then FallDepth(g, cs, st, j + 1)
    else j
  }

  /** One more row of the drop loop: the board it paints is the next
      Dropped picture, and the final depth is unchanged. */
  lemma DropOneMore(g: Grid, cs: seq<Pos>, st: CellState, j: nat, h: Grid)
    requires j < |g| && MoveAllowed(Dropped(g, cs, st, j), Shifted(cs, 0, j), 0, 1)
    requires h == Paint(Paint(Dropped(g, cs, st, j), Shifted(cs, 0, j), BLANK), Shifted(Shifted(cs, 0, j), 0, 1), st)
    ensures h == Dropped(g, cs, st, j + 1)
    ensures FallDepth(g, cs, st, j + 1) == FallDepth(g, cs, st, j)
  {
    ShiftedTwice(cs, j);
  }

  /** Drop (0, 0): fall while possible, then lock. */
  function PlayDrop(g: Grid, p: PieceState, color: Color): (Grid, PieceState)
  {
    var st := CellState(ACTIVE, color);
    var k := FallDepth(g, p.cells, st, 0);
    var ds := Shifted(p.cells, 0, k);
    (Remark(Dropped(g, p.cells, st, k), ds, INACTIVE), PieceState(ds, Add(p.center, Pos(k, 0)), false))
  }

  /** Rotate (row < 0): turn if allowed, otherwise nothing changes. */
  function PlayRotate(g: Grid, p: PieceState, kind: Shape, color: Color): (Grid, PieceState)
  {
    var ds := Rotated(kind, p.cells, p.center);
    if Placeable(g, ds) then (Paint(Paint(g, p.cells, BLANK), ds, CellState(ACTIVE, color)), PieceState(ds, p.center, true))
    else (g, p)
  }

  /** A gravity tick of a falling piece: one row down, then for the
      computer player one random move. */
  function Fall(g: Grid, p: PieceState, kind: Shape, color: Color, isHuman: bool, choice: int): (Grid, PieceState)
  {
    var next := Play(g, p, kind, color, 0, 1);
    if isHuman then next else AiPlay(next.0, next.1, kind, color, choice)
  }

  /** Any other move: shift if allowed; a blocked downward move locks the
      piece, a blocked sideways move changes nothing. */
  function PlayShift(g: Grid, p: PieceState, color: Color, col: int, row: int): (Grid, PieceState)
  {
    var ds := Shifted(p.cells, col, row);
    if MoveAllowed(g, p.cells, col, row) then
      (Paint(Paint(g, p.cells, BLANK), ds, CellState(ACTIVE, color)), PieceState(ds, Add(p.center, Pos(row, col)), true))
    else if row > 0 then (Remark(g, p.cells, INACTIVE), p.(active := false))
    else (g, p)
  }

  /** The dispatch of TetrisGame.move. */
  function Play(g: Grid, p: PieceState, kind: Shape, color: Color, col: int, row: int): (Grid, PieceState)
  {
    if col == 0 && row == 0 then PlayDrop(g, p, color)
    else if row < 0 then PlayRotate(g, p, kind, color)
    else PlayShift(g, p, color, col, row)
  }

  /** aiMove: for the random choice 0, 1 or 2 the computer rotates, moves
      left or moves right; any other value makes no move. */
  function AiPlay(g: Grid, p: PieceState, kind: Shape, color: Color, choice: int): (Grid, PieceState)
  {
    if choice == 0 then Play(g, p, kind, color, 0, -1)
    else if choice == 1 then Play(g, p, kind, color, -1, 0)
    else if choice == 2 then Play(g, p, kind, color, 1, 0)
    else (g, p)
  }

  /** A blocked rotation and a blocked sideways move leave the board and the
      piece as they were; a blocked downward move locks the piece where it is. */
  lemma PlayBlocked(g: Grid, p: PieceState, kind: Shape, color: Color, col: int, row: int)
    ensures row < 0 && !Placeable(g, Rotated(kind, p.cells, p.center)) ==>
      Play(g, p, kind, color, col, row) == (g, p)
    ensures row == 0 && col != 0 && !MoveAllowed(g, p.cells, col, row) ==>
      Play(g, p, kind, color, col, row) == (g, p)
    ensures row > 0 && !MoveAllowed(g, p.cells, col, row) ==>
      Play(g, p, kind, color, col, row) == (Remark(g, p.cells, INACTIVE), p.(active := false))
  {
  }

  /** Rotating a falling Square that the board shows leaves the board and
      the piece as they were: the table moves no cell, and showing the cells
      again after blanking them repaints what was there. */
  lemma SquareRotateKeepsBoard(g: Grid, p: PieceState, color: Color)
    requires p.active
    requires forall i :: 0 <= i < |p.cells| ==>
      InGrid(g, p.cells[i]) && g[p.cells[i].row][p.cells[i].col] == CellState(ACTIVE, color)
    ensures PlayRotate(g, p, Square, color) == (g, p)
  {
    var st := CellState(ACTIVE, color);
    SquareRotationIsIdentity(p.cells, p.center);
    assert Placeable(g, p.cells);
    PaintOverwrites(g, p.cells, p.cells, BLANK, st);
    forall r, c | 0 <= r < |g| && 0 <= c < |g[r]| && Pos(r, c) in p.cells
      ensures g[r][c] == st
    {
      var i :| 0 <= i < |p.cells| && p.cells[i] == Pos(r, c);
    }
    PaintShown(g, p.cells, st);
  }

  /** The cells of a new piece lie in the top two rows inside the band that
      isFull inspects. */
  lemma SpawnInBand(s: Shape, w: int)
    requires w >= PIECE_SIZE
    ensures var sp := SpawnCells(s, 0, SpawnColumn(w));
      forall i :: 0 <= i < |sp| ==> 0 <= sp[i].row < 2 && BandLeft(w) <= sp[i].col < w - BandLeft(w)
  {
  }

  /** So when isFull is false a new piece only covers cells that are not
      locked: addPiece never paints over a fixed block. */
  lemma SpawnPlaceable(g: Grid, s: Shape, w: int)
    requires w >= PIECE_SIZE && |g| >= 2 && IsGrid(g, w) && !FullGrid(g, w)
    ensures Placeable(g, SpawnCells(s, 0, SpawnColumn(w)))
  {
    SpawnInBand(s, w);
    var sp := SpawnCells(s, 0, SpawnColumn(w));
    forall i | 0 <= i < |sp|
      ensures InGrid(g, sp[i]) && g[sp[i].row][sp[i].col].mark != INACTIVE
    {
      assert 0 <= sp[i].row < 2 && BandLeft(w) <= sp[i].col < w - BandLeft(w);
    }
  }

  // ---------------------------------------------------------------------
  // Facts about the drop

  lemma ShiftedZero(cs: seq<Pos>)
    ensures Shifted(cs, 0, 0) == cs
  {
  }

  lemma ShiftedTwice(cs: seq<Pos>, j: int)
    ensures Shifted(Shifted(cs, 0, j), 0, 1) == Shifted(cs, 0, j + 1)
  {
  }

  /** The ACTIVE cells of `g` are exactly the positions `cs` when `on`, and
      there are none otherwise. */
  predicate ActiveExactly(g: Grid, cs: seq<Pos>, on: bool)
  {
    forall r, c :: 0 <= r < |g| && 0 <= c < |g[r]| ==> (g[r][c].mark == ACTIVE <==> on && Pos(r, c) in cs)
  }

  /** Every mark is one of the three named marks. */
  predicate Marked(g: Grid)
  {
    forall r, c :: 0 <= r < |g| && 0 <= c < |g[r]| ==> g[r][c].mark in {EMPTY, ACTIVE, INACTIVE}
  }

  /** With no ACTIVE cell, a marked board is settled. */
  lemma MarkedSettled(g: Grid, cs: seq<Pos>)
    requires Marked(g) && ActiveExactly(g, cs, false)
    ensures Settled(g)
  {
  }

  /** Moving the piece leaves exactly its new cells ACTIVE. */
  lemma PaintMoveTidy(g: Grid, cs: seq<Pos>, ds: seq<Pos>, on: bool, color: Color)
    requires Marked(g) && ActiveExactly(g, cs, on)
    ensures Marked(Paint(Paint(g, cs, BLANK), ds, CellState(ACTIVE, color)))
    ensures ActiveExactly(Paint(Paint(g, cs, BLANK), ds, CellState(ACTIVE, color)), ds, true)
  {
  }

  /** A settled board is marked and has no ACTIVE cell. */
  lemma SettledTidy(g: Grid, cs: seq<Pos>)
    requires Settled(g)
    ensures Marked(g) && ActiveExactly(g, cs, false)
  {
  }

  /** The blank board is marked and has no ACTIVE cell. */
  lemma BlankTidy(h: nat, w: nat, cs: seq<Pos>)
    ensures Marked(Uniform(h, w, BLANK)) && ActiveExactly(Uniform(h, w, BLANK), cs, false)
  {
  }

  /** Showing a new piece on a board with no ACTIVE cell leaves exactly its
      cells ACTIVE. */
  lemma SpawnTidy(g: Grid, ds: seq<Pos>, color: Color)
    requires Marked(g) && ActiveExactly(g, [], false)
    ensures Marked(Paint(g, ds, CellState(ACTIVE, color)))
    ensures ActiveExactly(Paint(g, ds, CellState(ACTIVE, color)), ds, true)
  {
  }

  /** Locking the piece leaves no ACTIVE cell. */
  lemma LockTidy(g: Grid, cs: seq<Pos>, on: bool)
    requires Marked(g) && ActiveExactly(g, cs, on)
    ensures Marked(Remark(g, cs, INACTIVE)) && ActiveExactly(Remark(g, cs, INACTIVE), cs, false)
  {
  }

  /** Every move keeps the board marked and keeps the ACTIVE cells exactly
      those of the falling piece. */
  lemma PlayTidy(g: Grid, p: PieceState, kind: Shape, color: Color, col: int, row: int)
    requires Marked(g) && ActiveExactly(g, p.cells, p.active)
    ensures var (h, q) := Play(g, p, kind, color, col, row);
      Marked(h) && ActiveExactly(h, q.cells, q.active)
  {
    if col == 0 && row == 0 {
      PlayDropTidy(g, p, color);
    } else if row < 0 {
      PaintMoveTidy(g, p.cells, Rotated(kind, p.cells, p.center), p.active, color);
    } else {
      PlayShiftTidy(g, p, color, col, row);
    }
  }

  lemma PlayDropTidy(g: Grid, p: PieceState, color: Color)
    requires Marked(g) && ActiveExactly(g, p.cells, p.active)
    ensures var (h, q) := PlayDrop(g, p, color);
      Marked(h) && ActiveExactly(h, q.cells, q.active)
  {
    var st := CellState(ACTIVE, color);
    var k := FallDepth(g, p.cells, st, 0);
    DroppedTidy(g, p.cells, p.active, color, k);
    LockTidy(Dropped(g, p.cells, st, k), Shifted(p.cells, 0, k), k > 0 || p.active);
  }

  lemma PlayShiftTidy(g: Grid, p: PieceState, color: Color, col: int, row: int)
    requires Marked(g) && ActiveExactly(g, p.cells, p.active)
    ensures var (h, q) := PlayShift(g, p, color, col, row);
      Marked(h) && ActiveExactly(h, q.cells, q.active)
  {
    if MoveAllowed(g, p.cells, col, row) {
      PaintMoveTidy(g, p.cells, Shifted(p.cells, col, row), p.active, color);
    } else if row > 0 {
      LockTidy(g, p.cells, p.active);
    }
  }

  /** During the drop, exactly the piece's current cells are ACTIVE. */
  lemma {:induction false} DroppedTidy(g: Grid, cs: seq<Pos>, on: bool, color: Color, k: nat)
    requires Marked(g) && ActiveExactly(g, cs, on)
    ensures Marked(Dropped(g, cs, CellState(ACTIVE, color), k))
    ensures ActiveExactly(Dropped(g, cs, CellState(ACTIVE, color), k), Shifted(cs, 0, k), k > 0 || on)
  {
    var st := CellState(ACTIVE, color);
    if k == 0 {
      ShiftedZero(cs);
    } else {
      DroppedTidy(g, cs, on, color, k - 1);
      PaintMoveTidy(Dropped(g, cs, st, k - 1), Shifted(cs, 0, k - 1), Shifted(cs, 0, k), k - 1 > 0 || on, color);
    }
  }

  /** Two boards of the same shape with INACTIVE in the same places. */
  predicate SameLocked(g: Grid, h: Grid)
  {
    |g| == |h| &&
    (forall r :: 0 <= r < |g| ==> |g[r]| == |h[r]|) &&
    forall r, c :: 0 <= r < |g| && 0 <= c < |g[r]| ==> (g[r][c].mark == INACTIVE <==> h[r][c].mark == INACTIVE)
  }

  /** None of `ps` is INACTIVE on `g` (positions off the board are ignored). */
  predicate Unlocked(g: Grid, ps: seq<Pos>)
  {
    forall i :: 0 <= i < |ps| && InGrid(g, ps[i]) ==> g[ps[i].row][ps[i].col].mark != INACTIVE
  }

  /** Placeability only looks at the board's shape and its INACTIVE cells. */
  lemma PlaceableSameLocked(g: Grid, h: Grid, ds: seq<Pos>)
    requires SameLocked(g, h)
    ensures Placeable(g, ds) <==> Placeable(h, ds)
  {
  }

  /** While the piece falls through unlocked cells, the locked cells are
      those of the starting board. */
  lemma {:induction false} DroppedSameLocked(g: Grid, cs: seq<Pos>, st: CellState, k: nat)
    requires st.mark != INACTIVE
    requires forall i :: 0 <= i <= k ==> Unlocked(g, Shifted(cs, 0, i))
    ensures SameLocked(Dropped(g, cs, st, k), g)
  {
    if k > 0 {
      DroppedSameLocked(g, cs, st, k - 1);
      var h0: Grid := Dropped(g, cs, st, k - 1);
      var h: Grid := Dropped(g, cs, st, k);
      var above := Shifted(cs, 0, k - 1);
      var below := Shifted(cs, 0, k);
      assert Unlocked(g, above) && Unlocked(g, below);
      forall r, c | 0 <= r < |g| && 0 <= c < |g[r]|
        ensures h[r][c].mark == INACTIVE <==> g[r][c].mark == INACTIVE
      {
        if Pos(r, c) in below {
          var i :| 0 <= i < |below| && below[i] == Pos(r, c);
        } else if Pos(r, c) in above {
          var i :| 0 <= i < |above| && above[i] == Pos(r, c);
        }
      }
    }
  }

  /** The depth at which a piece falling from depth j comes to rest when
      judged against the starting board alone: the first depth whose next
      row down is not placeable there. */
  function Landing(g: Grid, cs: seq<Pos>, j: nat): (k: nat)
    ensures k >= j
    decreases |g| - j
  {
    if j < |g| && Placeable(g, Shifted(cs, 0, j + 1)) then Landing(g, cs, j + 1) else j
  }

  /** Every depth the piece passes is placeable on the starting board, and
      the one below its resting depth is not. */
  lemma {:induction false} LandingLands(g: Grid, cs: seq<Pos>, j: nat)
    requires |cs| > 0 && 0 <= cs[0].row
    requires forall i :: 1 <= i <= j ==> Placeable(g, Shifted(cs, 0, i))
    ensures var k := Landing(g, cs, j);
      (forall i :: 1 <= i <= k ==> Placeable(g, Shifted(cs, 0, i))) && !Placeable(g, Shifted(cs, 0, k + 1))
    decreases |g| - j
  {
    if j < |g| && Placeable(g, Shifted(cs, 0, j + 1)) {
      LandingLands(g, cs, j + 1);
      assert Landing(g, cs, j) == Landing(g, cs, j + 1);
    } else {
      assert Landing(g, cs, j) == j;
      if j >= |g| {
        BelowGrid(g, cs, j + 1);
      }
    }
  }

  /** A piece moved down past the last row is off the grid. */
  lemma BelowGrid(g: Grid, cs: seq<Pos>, d: int)
    requires |cs| > 0 && 0 <= cs[0].row && d > |g|
    ensures !Placeable(g, Shifted(cs, 0, d))
  {
    assert Shifted(cs, 0, d)[0].row >= |g|;
  }

  /** The drop loop, which tests each move on the board as it is after the
      moves before, stops at the resting depth judged on the starting board:
      falling never unlocks or locks anything on the way. (The piece's own
      cells must not be locked, which holds whenever the piece is falling.) */
  lemma {:induction false} FallDepthIsLanding(g: Grid, cs: seq<Pos>, st: CellState, j: nat)
    requires st.mark != INACTIVE
    requires Unlocked(g, cs) && forall i :: 1 <= i <= j ==> Placeable(g, Shifted(cs, 0, i))
    ensures FallDepth(g, cs, st, j) == Landing(g, cs, j)
    decreases |g| - j
  {
    DropStepAllowed(g, cs, st, j);
    if j < |g| && Placeable(g, Shifted(cs, 0, j + 1)) {
      FallDepthIsLanding(g, cs, st, j + 1);
    }
  }

  /** One more step down is allowed exactly when the piece's position one
      row further down is placeable on the starting board. */
  lemma DropStepAllowed(g: Grid, cs: seq<Pos>, st: CellState, j: nat)
    requires st.mark != INACTIVE
    requires Unlocked(g, cs) && forall i :: 1 <= i <= j ==> Placeable(g, Shifted(cs, 0, i))
    ensures MoveAllowed(Dropped(g, cs, st, j), Shifted(cs, 0, j), 0, 1) <==> Placeable(g, Shifted(cs, 0, j + 1))
  {
    forall i | 0 <= i <= j
      ensures Unlocked(g, Shifted(cs, 0, i))
    {
      if i == 0 {
        ShiftedZero(cs);
      }
    }
    DroppedSameLocked(g, cs, st, j);
    ShiftedTwice(cs, j);
    PlaceableSameLocked(Dropped(g, cs, st, j), g, Shifted(cs, 0, j + 1));
  }
}
