/** The two static option helpers of the game controller (TetrisGame.java):
    `parseArgs` collects the values of the six command-line flags, and
    `getOptions` turns the collected strings into validated, clamped integers.
    A Java `null` string is `None`; the exceptions the Java integer parser can
    throw are the `None` result of `GetOptions`. */
module TetrisOptions {

  datatype Option<T> = None | Some(value: T)

  /** The flags in the order of the slots they fill: rows, cols, level, grid,
      window width, window height. */
  const FLAGS: seq<string> := ["-r", "-c", "-l", "-g", "-w", "-h"]

  const DEFAULT_WIDTH: int := 500
  const DEFAULT_HEIGHT: int := 575
  const DEFAULT_ROWS: int := 20
  const DEFAULT_COLS: int := 10
  const DEFAULT_LEVEL: int := 0
  const DEFAULT_GRID: bool := false

  const MIN_ROWS: int := 4 + 2
  const MIN_COLS: int := 4
  const MAX_ROWS: int := 100
  const MAX_COLS: int := 30
  const MAX_STARTLEVEL: int := 50

  /** Largest value of a Java `int`. */
  const INT_MAX: int := 2147483647

  // ---------------------------------------------------------------------
  // parseArgs

  /** The value of the last complete (flag, value) pair among the first `n`
      pairs of `args` whose flag is `flag`. */
  function LastValue(args: seq<string>, flag: string, n: nat): Option<string>
    requires 2 * n <= |args|
  {
    if n == 0 then None
    else if args[2 * (n - 1)] == flag then Some(args[2 * n - 1])
    else LastValue(args, flag, n - 1)
  }

  /** What parseArgs returns: slot k holds the value of the last complete pair
      whose flag is FLAGS[k]. */
  function Parsed(args: seq<string>): (vals: seq<Option<string>>)
    ensures |vals| == |FLAGS|
  {
    seq(|FLAGS|, k requires 0 <= k < |FLAGS| => LastValue(args, FLAGS[k], |args| / 2))
  }

  /** The last pair wins: `LastValue` is `Some(v)` exactly when some pair with
      that flag carries `v` and no later pair repeats the flag, and `None`
      exactly when no pair has that flag. */
  lemma {:induction false} LastValueExactly(args: seq<string>, flag: string, n: nat, v: string)
    requires 2 * n <= |args|
    ensures LastValue(args, flag, n) == Some(v) <==>
      exists i :: 0 <= i < n && args[2 * i] == flag && args[2 * i + 1] == v &&
        forall j :: i < j < n ==> args[2 * j] != flag
    ensures LastValue(args, flag, n) == None <==> forall i :: 0 <= i < n ==> args[2 * i] != flag
  {
    if n > 0 {
      LastValueExactly(args, flag, n - 1, v);
      if args[2 * (n - 1)] == flag {
        assert LastValue(args, flag, n) == Some(args[2 * n - 1]);
        if LastValue(args, flag, n) != Some(v) {
          forall i | 0 <= i < n && args[2 * i] == flag && args[2 * i + 1] == v
            ensures exists j :: i < j < n && args[2 * j] == flag
          {
            assert i != n - 1;
            assert args[2 * (n - 1)] == flag;
          }
        }
      } else {
        if LastValue(args, flag, n) == Some(v) {
          var i :| 0 <= i < n - 1 && args[2 * i] == flag && args[2 * i + 1] == v &&
            forall j :: i < j < n - 1 ==> args[2 * j] != flag;
          assert forall j :: i < j < n ==> args[2 * j] != flag;
        } else {
          forall i | 0 <= i < n && args[2 * i] == flag && args[2 * i + 1] == v
            ensures exists j :: i < j < n && args[2 * j] == flag
          {
            assert i < n - 1;
          }
        }
      }
    }
  }

  /** Elements past the first `n` pairs play no part in their last value. */
  lemma {:induction false} LastValuePrefix(args: seq<string>, more: seq<string>, flag: string, n: nat)
    requires 2 * n <= |args|
    ensures LastValue(args + more, flag, n) == LastValue(args, flag, n)
  {
    if n > 0 {
      assert (args + more)[2 * (n - 1)] == args[2 * (n - 1)];
      assert (args + more)[2 * n - 1] == args[2 * n - 1];
      LastValuePrefix(args, more, flag, n - 1);
    }
  }

  /** Appending a pair for a known flag sets that slot to the pair's value and
      leaves every other slot as it was. */
  lemma LaterFlagOverrides(args: seq<string>, k: nat, v: string)
    requires |args| % 2 == 0 && k < |FLAGS|
    ensures Parsed(args + [FLAGS[k], v])[k] == Some(v)
    ensures forall j :: 0 <= j < |FLAGS| && j != k ==> Parsed(args + [FLAGS[k], v])[j] == Parsed(args)[j]
  {
    var ext := args + [FLAGS[k], v];
    var n := |args| / 2;
    assert |ext| / 2 == n + 1;
    assert ext[2 * n] == FLAGS[k] && ext[2 * n + 1] == v;
    forall j | 0 <= j < |FLAGS| && j != k
      ensures Parsed(ext)[j] == Parsed(args)[j]
    {
      assert FLAGS[j] != FLAGS[k];
      LastValuePrefix(args, [FLAGS[k], v], FLAGS[j], n);
    }
  }

  /** A pair whose flag is none of the six changes nothing. */
  lemma UnknownFlagIgnored(args: seq<string>, f: string, v: string)
    requires |args| % 2 == 0 && f !in FLAGS
    ensures Parsed(args + [f, v]) == Parsed(args)
  {
    var ext := args + [f, v];
    var n := |args| / 2;
    assert |ext| / 2 == n + 1;
    assert ext[2 * n] == f;
    forall j | 0 <= j < |FLAGS|
      ensures Parsed(ext)[j] == Parsed(args)[j]
    {
      assert FLAGS[j] != f;
      LastValuePrefix(args, [f, v], FLAGS[j], n);
    }
  }

  /** A final flag without a value is ignored. */
  lemma DanglingFlagIgnored(args: seq<string>, f: string)
    requires |args| % 2 == 0
    ensures Parsed(args + [f]) == Parsed(args)
  {
    var n := |args| / 2;
    assert |args + [f]| / 2 == n;
    forall j | 0 <= j < |FLAGS|
      ensures Parsed(args + [f])[j] == Parsed(args)[j]
    {
      LastValuePrefix(args, [f], FLAGS[j], n);
    }
  }

  /** parseArgs: walks the arguments two at a time and, for each complete
      pair whose flag is one of the six, stores the value in that flag's slot. */
  method ParseArgs(args: seq<string>) returns (vals: seq<Option<string>>)
    ensures vals == Parsed(args)
  {
    var slots := new Option<string>[|FLAGS|](_ => None);
    var pos := 0;
    while pos < |args|
      invariant 0 <= pos <= |args| + 1 && pos % 2 == 0
      invariant forall k :: 0 <= k < |FLAGS| ==>
        slots[k] == LastValue(args, FLAGS[k], if pos / 2 <= |args| / 2 then pos / 2 else |args| / 2)
    {
      if |args| > pos + 1 {
        if args[pos] == "-r" { slots[0] := Some(args[pos + 1]); }
        else if args[pos] == "-c" { slots[1] := Some(args[pos + 1]); }
        else if args[pos] == "-l" { slots[2] := Some(args[pos + 1]); }
        else if args[pos] == "-g" { slots[3] := Some(args[pos + 1]); }
        else if args[pos] == "-w" { slots[4] := Some(args[pos + 1]); }
        else if args[pos] == "-h" { slots[5] := Some(args[pos + 1]); }
      }
      pos := pos + 2;
    }
    vals := slots[..];
  }

  // ---------------------------------------------------------------------
  // getOptions

  /** Java's `String.trim` at the front: drops every leading character whose
      code is at most that of the space character. */
  function TrimStart(s: string): string
  {
    if |s| > 0 && s[0] <= ' ' then TrimStart(s[1..]) else s
  }

  /** TrimStart keeps a suffix, cuts only characters up to the space, and
      stops at the first printable one. */
  lemma {:induction false} TrimStartExactly(s: string)
    ensures |TrimStart(s)| <= |s| && TrimStart(s) == s[|s| - |TrimStart(s)|..]
    ensures forall i :: 0 <= i < |s| - |TrimStart(s)| ==> s[i] <= ' '
    ensures |TrimStart(s)| > 0 ==> TrimStart(s)[0] > ' '
  {
    if |s| > 0 && s[0] <= ' ' {
      TrimStartExactly(s[1..]);
      assert forall i :: 1 <= i < |s| - |TrimStart(s)| ==> s[i] == s[1..][i - 1];
    }
  }

  /** Java's `String.trim` at the back. */
  function TrimEnd(s: string): string
  {
    if |s| > 0 && s[|s| - 1] <= ' ' then TrimEnd(s[..|s| - 1]) else s
  }

  /** TrimEnd keeps a prefix, cuts only characters up to the space, and
      stops at the last printable one. */
  lemma {:induction false} TrimEndExactly(s: string)
    ensures |TrimEnd(s)| <= |s| && TrimEnd(s) == s[..|TrimEnd(s)|]
    ensures forall i :: |TrimEnd(s)| <= i < |s| ==> s[i] <= ' '
    ensures |TrimEnd(s)| > 0 ==> TrimEnd(s)[|TrimEnd(s)| - 1] > ' '
  {
    if |s| > 0 && s[|s| - 1] <= ' ' {
      TrimEndExactly(s[..|s| - 1]);
      assert forall i :: |TrimEnd(s)| <= i < |s| - 1 ==> s[i] == s[..|s| - 1][i];
    }
  }

  function Trim(s: string): string
  {
    TrimEnd(TrimStart(s))
  }

  /** `matches("[0-9]*")`: the whole string is decimal digits (possibly none). */
  predicate AllDigits(s: string)
  {
    forall i :: 0 <= i < |s| ==> '0' <= s[i] <= '9'
  }

  /** The decimal value of a digit string. */
  function DigitsValue(s: string): (n: nat)
    requires AllDigits(s)
    ensures |s| > 0 && s[0] != '0' ==> n >= Pow10(|s| - 1)
    ensures n < Pow10(|s|)
  {
    if |s| == 0 then 0
    else
      assert AllDigits(s[..|s| - 1]);
      var d := (s[|s| - 1] as int) - ('0' as int);
      var m := DigitsValue(s[..|s| - 1]);
      assert |s| > 1 && s[0] != '0' ==> s[..|s| - 1][0] != '0';
      m * 10 + d
  }

  function Pow10(k: nat): (p: nat)
    ensures p >= 1
  {
    if k == 0 then 1 else 10 * Pow10(k - 1)
  }

  /** What one slot of the input contributes: nothing (the default stays),
      a value, or a NumberFormatException from the Java integer parser. */
  datatype Field = Keep | Take(n: int) | Fail

  /** The grid slot after trimming: "false" and "true" are read as "0" and
      "1", and only those two are accepted. */
  function GridField(t: string): (f: Field)
    ensures f == Keep || f == Take(0) || f == Take(1)
  {
    var u := if t == "false" then "0" else if t == "true" then "1" else t;
    if u == "0" then Take(0) else if u == "1" then Take(1) else Keep
  }

  /** A numeric slot after trimming: a string of digits is parsed, and the
      parser rejects the empty string and values beyond the `int` range;
      anything else leaves the default. */
  function NumberField(t: string): (f: Field)
    ensures f.Take? ==> 0 <= f.n <= INT_MAX
    ensures f.Fail? <==> AllDigits(t) && (t == "" || DigitsValue(t) > INT_MAX)
  {
    if !AllDigits(t) then Keep
    else if t == "" || DigitsValue(t) > INT_MAX then Fail
    else Take(DigitsValue(t))
  }

  /** Slot `x`'s contribution; null and empty strings are skipped before any
      trimming. */
  function FieldOf(v: Option<string>, x: int): Field
  {
    if v == None || v.value == "" then Keep
    else if x != 3 then NumberField(Trim(v.value))
    else GridField(Trim(v.value))
  }

  /** The starting value of slot `x` in an output of length `len`: the five
      defaults, and the window size only when six slots are present; a Java
      `int` array otherwise starts at zero. */
  function DefaultOf(x: int, len: int): int
  {
    if x == 0 then DEFAULT_ROWS
    else if x == 1 then DEFAULT_COLS
    else if x == 2 then DEFAULT_LEVEL
    else if x == 3 then (if DEFAULT_GRID then 1 else 0)
    else if len == 6 && x == 4 then DEFAULT_WIDTH
    else if len == 6 && x == 5 then DEFAULT_HEIGHT
    else 0
  }

  /** The final adjustment of slot `x`: rows and columns are forced into
      their ranges, the level is capped, and the window size is raised to its
      minimum when six slots are present. */
  function Adjusted(x: int, n: int, len: int): int
  {
    if x == 0 then (if n < MIN_ROWS then MIN_ROWS else if n > MAX_ROWS then MAX_ROWS else n)
    else if x == 1 then (if n < MIN_COLS then MIN_COLS else if n > MAX_COLS then MAX_COLS else n)
    else if x == 2 then (if n > MAX_STARTLEVEL then MAX_STARTLEVEL else n)
    else if len == 6 && x == 4 then (if n < DEFAULT_WIDTH then DEFAULT_WIDTH else n)
    else if len == 6 && x == 5 then (if n < DEFAULT_HEIGHT then DEFAULT_HEIGHT else n)
    else n
  }

  /** Every slot's contribution, in order. */
  function Fields(vals: seq<Option<string>>): (fs: seq<Field>)
    ensures |fs| == |vals|
  {
    if |vals| == 0 then []
    else Fields(vals[..|vals| - 1]) + [FieldOf(vals[|vals| - 1], |vals| - 1)]
  }

  lemma {:induction false} FieldsAt(vals: seq<Option<string>>, x: int)
    requires 0 <= x < |vals|
    ensures Fields(vals)[x] == FieldOf(vals[x], x)
  {
    if x < |vals| - 1 {
      var init := vals[..|vals| - 1];
      FieldsAt(init, x);
      assert init[x] == vals[x];
    }
  }

  /** Slot `x` before the adjustment: the accepted value, else the default. */
  function Chosen(f: Field, x: int, len: int): int
  {
    match f
    case Take(n) => n
    case _ => DefaultOf(x, len)
  }

  /** What getOptions computes: `None` when Java would throw (fewer than four
      slots, or a slot the integer parser rejects), otherwise each slot's
      parsed value or its default, adjusted. */
  function Options(vals: seq<Option<string>>): Option<seq<int>>
  {
    var fs := Fields(vals);
    if |vals| < 4 || Fail in fs then None
    else Some(seq(|vals|, x requires 0 <= x < |vals| => Adjusted(x, Chosen(fs[x], x, |vals|), |vals|)))
  }

  /** getOptions. The loop writes each accepted value over the default; a
      slot the integer parser rejects ends the call, as the exception does. */
  method GetOptions(vals: seq<Option<string>>) returns (result: Option<seq<int>>)
    ensures result == Options(vals)
  {
    if |vals| < 4 {
      return None;
    }
    var len := |vals|;
    var opts := Defaults(len);
    var ok := ReadFields(vals, opts);
    if !ok {
      return None;
    }
    ghost var fs := Fields(vals);
    Adjust(opts);
    result := Some(opts[..]);
    assert forall y :: 0 <= y < len ==> result.value[y] == Adjusted(y, Chosen(fs[y], y, len), len);
    assert Options(vals).Some?;
    assert result.value == Options(vals).value;
  }

  /** The option array before the arguments are read: the default of every
      slot, 0 for a slot that has none. */
  method Defaults(len: nat) returns (opts: array<int>)
    requires len >= 4
    ensures fresh(opts) && opts.Length == len
    ensures forall y :: 0 <= y < len ==> opts[y] == DefaultOf(y, len)
  {
    opts := new int[len](_ => 0);
    opts[0] := DEFAULT_ROWS;
    opts[1] := DEFAULT_COLS;
    opts[2] := DEFAULT_LEVEL;
    opts[3] := if DEFAULT_GRID then 1 else 0;
    if len == 6 {
      opts[4] := DEFAULT_WIDTH;
      opts[5] := DEFAULT_HEIGHT;
    }
  }

  /** The loop of getOptions: every slot the user filled in replaces its
      default; the first slot the integer parser rejects stops it. */
  method ReadFields(vals: seq<Option<string>>, opts: array<int>) returns (ok: bool)
    requires opts.Length == |vals|
    requires forall y :: 0 <= y < |vals| ==> opts[y] == DefaultOf(y, |vals|)
    modifies opts
    ensures ok <==> Fail !in Fields(vals)
    ensures ok ==> forall y :: 0 <= y < |vals| ==> opts[y] == Chosen(Fields(vals)[y], y, |vals|)
  {
    var len := |vals|;
    ghost var fs := Fields(vals);
    var x := 0;
    while x < len
      invariant 0 <= x <= len
      invariant Fail !in fs[..x]
      invariant forall y :: 0 <= y < len ==>
        opts[y] == if y < x then Chosen(fs[y], y, len) else DefaultOf(y, len)
    {
      var f := FieldOf(vals[x], x);
      FieldsAt(vals, x);
      if f == Fail {
        assert fs[x] == Fail;
        return false;
      } else if f.Take? {
        opts[x] := f.n;
      }
      assert fs[..x + 1] == fs[..x] + [f];
      x := x + 1;
    }
    assert fs[..len] == fs;
    return true;
  }

  /** The clamping statements at the end of getOptions. */
  method Adjust(opts: array<int>)
    requires opts.Length >= 4
    modifies opts
    ensures forall y :: 0 <= y < opts.Length ==> opts[y] == Adjusted(y, old(opts[y]), opts.Length)
  {
    if opts[0] < MIN_ROWS { opts[0] := MIN_ROWS; }
    if opts[0] > MAX_ROWS { opts[0] := MAX_ROWS; }
    if opts[1] < MIN_COLS { opts[1] := MIN_COLS; }
    if opts[1] > MAX_COLS { opts[1] := MAX_COLS; }
    if opts[2] > MAX_STARTLEVEL { opts[2] := MAX_STARTLEVEL; }
    if opts.Length == 6 {
      if opts[4] < DEFAULT_WIDTH { opts[4] := DEFAULT_WIDTH; }
      if opts[5] < DEFAULT_HEIGHT { opts[5] := DEFAULT_HEIGHT; }
    }
  }

  // ---------------------------------------------------------------------
  // Properties of getOptions

  /** Every accepted result lies in the documented ranges: rows in [6, 100],
      columns in [4, 30], level in [0, 50], grid 0 or 1, and with six slots a
      window of at least 500 x 575. */
  lemma OptionsBounds(vals: seq<Option<string>>)
    requires Options(vals).Some?
    ensures var o := Options(vals).value;
      |o| == |vals| &&
      MIN_ROWS <= o[0] <= MAX_ROWS && MIN_COLS <= o[1] <= MAX_COLS &&
      0 <= o[2] <= MAX_STARTLEVEL && (o[3] == 0 || o[3] == 1) &&
      (|vals| == 6 ==> o[4] >= DEFAULT_WIDTH && o[5] >= DEFAULT_HEIGHT)
  {
    var fs := Fields(vals);
    FieldsAt(vals, 2);
    FieldsAt(vals, 3);
    assert fs[2].Take? ==> fs[2].n >= 0;
    assert fs[3] == Keep || fs[3] == Take(0) || fs[3] == Take(1);
  }

  /** `Options` spelled out slot by slot. */
  lemma OptionsAt(vals: seq<Option<string>>)
    ensures Options(vals).Some? <==> |vals| >= 4 && forall x :: 0 <= x < |vals| ==> FieldOf(vals[x], x) != Fail
    ensures Options(vals).Some? ==> |Options(vals).value| == |vals|
    ensures Options(vals).Some? ==>
      forall x :: 0 <= x < |vals| ==> Options(vals).value[x] == Adjusted(x, Chosen(FieldOf(vals[x], x), x, |vals|), |vals|)
  {
    forall x | 0 <= x < |vals|
      ensures Fields(vals)[x] == FieldOf(vals[x], x)
    {
      FieldsAt(vals, x);
    }
  }

  /** With nothing given, the result is the defaults. */
  lemma OptionsDefaults(len: nat)
    requires len == 4 || len == 6
    ensures Options(seq(len, _ => None)) ==
      Some([DEFAULT_ROWS, DEFAULT_COLS, DEFAULT_LEVEL, 0] + if len == 6 then [DEFAULT_WIDTH, DEFAULT_HEIGHT] else [])
  {
    var vals: seq<Option<string>> := seq(len, _ => None);
    OptionsAt(vals);
    var o := Options(vals).value;
    var d := [DEFAULT_ROWS, DEFAULT_COLS, DEFAULT_LEVEL, 0] + if len == 6 then [DEFAULT_WIDTH, DEFAULT_HEIGHT] else [];
    assert forall x :: 0 <= x < len ==> FieldOf(vals[x], x) == Keep;
    assert forall x :: 0 <= x < len ==> o[x] == d[x];
    assert o == d;
  }

  /** A numeric slot is taken exactly when, after trimming, it is a non-empty
      digit string within the `int` range; then its value is used. */
  lemma NumberFieldExactly(v: string, x: int)
    requires x != 3 && v != ""
    ensures var t := Trim(v);
      (FieldOf(Some(v), x).Take? <==> AllDigits(t) && t != "" && DigitsValue(t) <= INT_MAX) &&
      (FieldOf(Some(v), x).Take? ==> FieldOf(Some(v), x).n == DigitsValue(t))
  {
  }

  /** The grid slot: "true"/"1" give 1 and "false"/"0" give 0 (after
      trimming); any other text keeps the default, and it never fails. */
  lemma GridFieldExactly(v: string)
    requires v != ""
    ensures FieldOf(Some(v), 3) == Take(1) <==> Trim(v) == "true" || Trim(v) == "1"
    ensures FieldOf(Some(v), 3) == Take(0) <==> Trim(v) == "false" || Trim(v) == "0"
    ensures FieldOf(Some(v), 3) != Fail
  {
  }

  /** Trimming removes only surrounding spaces and control characters: the
      result is a slice of the input, every character cut away is at most a
      space, and the result starts and ends with a printable character. */
  lemma TrimExactly(s: string)
    ensures exists i, j :: (0 <= i <= j <= |s| && Trim(s) == s[i..j] &&
      (forall k :: 0 <= k < i ==> s[k] <= ' ') && (forall k :: j <= k < |s| ==> s[k] <= ' '))
    ensures |Trim(s)| > 0 ==> Trim(s)[0] > ' ' && Trim(s)[|Trim(s)| - 1] > ' '
  {
    var a := TrimStart(s);
    TrimStartExactly(s);
    var i := |s| - |a|;
    var t := TrimEnd(a);
    TrimEndExactly(a);
    var j := i + |t|;
    assert t == s[i..j];
    assert forall k :: j <= k < |s| ==> s[k] == a[k - i];
    assert 0 <= i <= j <= |s| && Trim(s) == s[i..j] &&
      (forall k :: 0 <= k < i ==> s[k] <= ' ') && (forall k :: j <= k < |s| ==> s[k] <= ' ');
  }

  /** The two ways getOptions rejects a numeric slot: a value of only spaces
      and control characters (which trims to the empty string the parser
      refuses), and a digit string beyond the `int` range. Either one in any
      slot other than the grid's makes the whole call fail. */
  lemma OptionsRejectsBlank(vals: seq<Option<string>>, x: int, v: string)
    requires 0 <= x < |vals| && x != 3 && vals[x] == Some(v)
    requires v != "" && Trim(v) == ""
    ensures Options(vals) == None
  {
    assert FieldOf(vals[x], x) == Fail;
    OptionsAt(vals);
  }

  lemma OptionsRejectsOverflow(vals: seq<Option<string>>, x: int, v: string)
    requires 0 <= x < |vals| && x != 3 && vals[x] == Some(v)
    requires AllDigits(Trim(v)) && DigitsValue(Trim(v)) > INT_MAX
    ensures Options(vals) == None
  {
    assert v != "";
    assert FieldOf(vals[x], x) == Fail;
    OptionsAt(vals);
  }

  /** On an accepted call, the level and the grid are read after trimming:
      a digit string gives the level, capped at 50, any other text keeps
      level 0; "true" or "1" turns the grid on and anything else leaves it
      off. */
  lemma OptionsTrimsAndReadsGrid(vals: seq<Option<string>>)
    requires Options(vals).Some?
    ensures var o := Options(vals).value;
      (vals[2].Some? && vals[2].value != "" && AllDigits(Trim(vals[2].value)) ==>
        o[2] == if DigitsValue(Trim(vals[2].value)) > MAX_STARTLEVEL then MAX_STARTLEVEL else DigitsValue(Trim(vals[2].value))) &&
      (vals[2].None? || vals[2].value == "" || !AllDigits(Trim(vals[2].value)) ==> o[2] == DEFAULT_LEVEL) &&
      (o[3] == 1 <==> vals[3].Some? && (Trim(vals[3].value) == "true" || Trim(vals[3].value) == "1"))
  {
    OptionsAt(vals);
    var o := Options(vals).value;
    assert o[2] == Adjusted(2, Chosen(FieldOf(vals[2], 2), 2, |vals|), |vals|);
    assert o[3] == Adjusted(3, Chosen(FieldOf(vals[3], 3), 3, |vals|), |vals|);
    if vals[3].Some? && vals[3].value == "" {
      assert Trim(vals[3].value) == "";
    }
  }
}
