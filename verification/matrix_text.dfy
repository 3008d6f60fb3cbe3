/** The integer part of the text written by `write`: the first header line
    and the fixed-width matrix of escape counts, together with a parser for
    that layout. Each cell is right-aligned in a field as wide as maxIters has
    digits; every cell after the first in a row has three more spaces in
    front. */
module MatrixText {
  import opened Fractal

  datatype Option<T> = None | Some(value: T)

  // ----- decimal digits -----

  function Pow10(k: nat): nat {
    if k == 0 then 1 else 10 * Pow10(k - 1)
  }

  lemma {:induction false} Pow10Monotone(a: nat, b: nat)
    requires a <= b
    ensures Pow10(a) <= Pow10(b)
  {
    if a < b {
      Pow10Monotone(a, b - 1);
    }
  }

  /** floor(log10(n)) for n >= 1: the unique k with 10^k <= n < 10^(k+1). */
  function FloorLog10(n: int): (k: nat)
    requires n >= 1
    ensures Pow10(k) <= n < Pow10(k + 1)
  {
    if n < 10 then 0 else 1 + FloorLog10(n / 10)
  }

  lemma FloorLog10Monotone(a: int, b: int)
    requires 1 <= a <= b
    ensures FloorLog10(a) <= FloorLog10(b)
  {
    if FloorLog10(a) > FloorLog10(b) {
      Pow10Monotone(FloorLog10(b) + 1, FloorLog10(a));
    }
  }

  predicate IsDigit(ch: char) {
    '0' <= ch <= '9'
  }

  function DigitChar(d: int): char
    requires 0 <= d < 10
  {
    ('0' as int + d) as char
  }

  function DigitValue(ch: char): int {
    ch as int - '0' as int
  }

  /** String.valueOf of a non-negative int: its decimal digits. */
  function NatToString(n: nat): (s: string)
    ensures |s| >= 1
    ensures forall k :: 0 <= k < |s| ==> IsDigit(s[k])
  {
    if n < 10 then [DigitChar(n)] else NatToString(n / 10) + [DigitChar(n % 10)]
  }

  /** String.valueOf of an int: a minus sign in front of negatives. */
  function IntToString(n: int): string {
    if n < 0 then "-" + NatToString(-n) else NatToString(n)
  }

  /** The value of a string of decimal digits. */
  function ParseNat(s: string): int {
    if |s| == 0 then 0 else 10 * ParseNat(s[..|s| - 1]) + DigitValue(s[|s| - 1])
  }

  function ParseInt(s: string): int {
    if |s| > 0 && s[0] == '-' then -ParseNat(s[1..]) else ParseNat(s)
  }

  lemma {:induction false} NatToStringRoundTrip(n: nat)
    ensures ParseNat(NatToString(n)) == n
  {
    var s := NatToString(n);
    if n >= 10 {
      NatToStringRoundTrip(n / 10);
      assert s[..|s| - 1] == NatToString(n / 10);
    }
  }

  lemma IntToStringRoundTrip(n: int)
    ensures ParseInt(IntToString(n)) == n
  {
    if n < 0 {
      NatToStringRoundTrip(-n);
      assert IntToString(n)[1..] == NatToString(-n);
    } else {
      NatToStringRoundTrip(n);
    }
  }

  /** The number of digits of n is floor(log10(n)) + 1 (and 1 for 0). */
  lemma {:induction false} NatToStringLength(n: nat)
    ensures n == 0 ==> |NatToString(n)| == 1
    ensures n >= 1 ==> |NatToString(n)| == FloorLog10(n) + 1
  {
    if n >= 10 {
      NatToStringLength(n / 10);
    }
  }

  /** The characters String.valueOf(int) produces: digits and a sign. */
  lemma IntToStringChars(n: int)
    ensures forall k :: 0 <= k < |IntToString(n)| ==> IntToString(n)[k] != ' ' && IntToString(n)[k] != '\n'
  {
  }

  // ----- cells -----

  function Spaces(n: nat): (s: string)
    ensures |s| == n
    ensures forall k :: 0 <= k < n ==> s[k] == ' '
  {
    seq(n, _ => ' ')
  }

  /** maxSpacing: floor(log10(maxIters)) when maxIters > 1, else 0. */
  function MaxSpacing(maxIters: int): nat {
    if maxIters > 1 then FloorLog10(maxIters) else 0
  }

  /** The count given to " ".repeat for value p in column j. */
  function PadCount(p: int, j: int, maxSpacing: int): int {
    var spacing := if p > 1 then maxSpacing - FloorLog10(p) else maxSpacing;
    if j == 0 then spacing else spacing + 3
  }

  /** The text of one cell, or None where " ".repeat would be given a
      negative count and throw. */
  function Cell(p: int, j: int, maxSpacing: int): Option<string> {
    var n := PadCount(p, j, maxSpacing);
    if n < 0 then None else Some(Spaces(n) + IntToString(p))
  }

  /** The field width of the first column: the digits of maxIters. */
  function Width(maxIters: nat): nat {
    |NatToString(maxIters)|
  }

  function FieldWidth(j: int, maxIters: nat): nat {
    if j == 0 then Width(maxIters) else Width(maxIters) + 3
  }

  /** For 0 <= p <= maxIters the padding is maxSpacing - (digits(p) - 1),
      which is not negative, so the cell is p right-aligned in a field of
      exactly the column's width. */
  lemma CellInRange(p: int, j: int, maxIters: int)
    requires 0 <= p <= maxIters
    ensures PadCount(p, 0, MaxSpacing(maxIters)) == MaxSpacing(maxIters) - (|NatToString(p)| - 1) >= 0
    ensures Width(maxIters) == MaxSpacing(maxIters) + 1
    ensures Cell(p, j, MaxSpacing(maxIters))
         == Some(Spaces(FieldWidth(j, maxIters) - |NatToString(p)|) + NatToString(p))
    ensures |Cell(p, j, MaxSpacing(maxIters)).value| == FieldWidth(j, maxIters)
  {
    NatToStringLength(p);
    NatToStringLength(maxIters);
    if p > 1 {
      FloorLog10Monotone(p, maxIters);
    }
  }

  // ----- rows and the matrix -----

  /** Cells j .. |row|-1 of a row, concatenated; None if any of them throws. */
  function CellsFrom(row: seq<int>, j: nat, maxSpacing: int): Option<string>
    requires j <= |row|
    decreases |row| - j
  {
    if j == |row| then Some("")
    else
      match Cell(row[j], j, maxSpacing)
      case None => None
      case Some(t) =>
        match CellsFrom(row, j + 1, maxSpacing)
        case None => None
        case Some(u) => Some(t + u)
  }

  function RowText(row: seq<int>, maxSpacing: int): Option<string> {
    CellsFrom(row, 0, maxSpacing)
  }

  /** Rows a .. |grid|-1, each followed by a newline. */
  function LinesFrom(grid: seq<seq<int>>, a: nat, maxSpacing: int): Option<string>
    requires a <= |grid|
    decreases |grid| - a
  {
    if a == |grid| then Some("")
    else
      match RowText(grid[a], maxSpacing)
      case None => None
      case Some(line) =>
        match LinesFrom(grid, a + 1, maxSpacing)
        case None => None
        case Some(rest) => Some(line + "\n" + rest)
  }

  /** The matrix part of the file for the given grid and budget. */
  function Matrix(grid: seq<seq<int>>, maxIters: int): Option<string> {
    LinesFrom(grid, 0, MaxSpacing(maxIters))
  }

  // ----- parsing the fixed-width layout -----

  function TrimLeft(s: string): string {
    if |s| > 0 && s[0] == ' ' then TrimLeft(s[1..]) else s
  }

  function ParseField(f: string): int {
    ParseNat(TrimLeft(f))
  }

  /** Fields j .. n-1 of a line, field j being FieldWidth(j, maxIters) wide. */
  function ParseCells(t: string, maxIters: nat, j: nat, n: nat): seq<int>
    decreases n - j
  {
    var w := FieldWidth(j, maxIters);
    if n <= j || |t| < w then [] else [ParseField(t[..w])] + ParseCells(t[w..], maxIters, j + 1, n)
  }

  /** The total width of fields j .. n-1. */
  function CellsWidth(maxIters: nat, j: nat, n: nat): nat
    decreases n - j
  {
    if n <= j then 0 else FieldWidth(j, maxIters) + CellsWidth(maxIters, j + 1, n)
  }

  /** The length of a matrix line, without its newline. */
  function RowWidth(maxIters: nat, ncols: nat): nat {
    CellsWidth(maxIters, 0, ncols)
  }

  function ParseRow(line: string, maxIters: nat, ncols: nat): seq<int> {
    ParseCells(line, maxIters, 0, ncols)
  }

  /** Reads nrows lines of ncols fixed-width fields, the widths following
      from maxIters as given on the first header line. */
  function ParseMatrix(t: string, maxIters: nat, nrows: nat, ncols: nat): seq<seq<int>> {
    var len := RowWidth(maxIters, ncols);
    if nrows == 0 || |t| < len + 1 then []
    else [ParseRow(t[..len], maxIters, ncols)] + ParseMatrix(t[len + 1..], maxIters, nrows - 1, ncols)
  }

  lemma {:induction false} TrimSpaces(k: nat, s: string)
    requires |s| > 0 && s[0] != ' '
    ensures TrimLeft(Spaces(k) + s) == s
  {
    if k > 0 {
      assert (Spaces(k) + s)[1..] == Spaces(k - 1) + s;
      TrimSpaces(k - 1, s);
    } else {
      assert Spaces(k) + s == s;
    }
  }

  lemma ParseFieldOfCell(k: nat, p: nat)
    ensures ParseField(Spaces(k) + NatToString(p)) == p
  {
    TrimSpaces(k, NatToString(p));
    NatToStringRoundTrip(p);
  }

  ghost predicate RowInRange(row: seq<int>, maxIters: int) {
    forall b :: 0 <= b < |row| ==> 0 <= row[b] <= maxIters
  }

  /** An in-range value's cell fills its column's field exactly and is read
      back by the field parser. */
  lemma CellReadBack(p: int, j: int, maxIters: nat)
    requires 0 <= p <= maxIters
    ensures Cell(p, j, MaxSpacing(maxIters)).Some?
    ensures |Cell(p, j, MaxSpacing(maxIters)).value| == FieldWidth(j, maxIters)
    ensures ParseField(Cell(p, j, MaxSpacing(maxIters)).value) == p
  {
    CellInRange(p, j, maxIters);
    ParseFieldOfCell(FieldWidth(j, maxIters) - |NatToString(p)|, p);
  }

  /** Cells j .. |row|-1 of an in-range row take exactly their fields' width
      and are read back by the fixed-width parser whatever text follows. */
  lemma {:induction false} CellsFromRoundTrip(row: seq<int>, j: nat, maxIters: nat, v: string)
    requires j <= |row|
    requires RowInRange(row, maxIters)
    ensures CellsFrom(row, j, MaxSpacing(maxIters)).Some?
    ensures |CellsFrom(row, j, MaxSpacing(maxIters)).value| == CellsWidth(maxIters, j, |row|)
    ensures ParseCells(CellsFrom(row, j, MaxSpacing(maxIters)).value + v, maxIters, j, |row|) == row[j..]
    decreases |row| - j
  {
    var ms := MaxSpacing(maxIters);
    if j < |row| {
      var p := row[j];
      CellReadBack(p, j, maxIters);
      CellsFromRoundTrip(row, j + 1, maxIters, v);
      var t := Cell(p, j, ms).value;
      var u := CellsFrom(row, j + 1, ms).value;
      CellsFromCons(row, j, ms);
      ParseCellsCons(t, u, v, maxIters, row, j);
    } else {
      assert ParseCells(CellsFrom(row, j, ms).value + v, maxIters, j, |row|) == [];
    }
  }

  lemma CellsFromCons(row: seq<int>, j: nat, maxSpacing: int)
    requires j < |row|
    requires Cell(row[j], j, maxSpacing).Some? && CellsFrom(row, j + 1, maxSpacing).Some?
    ensures CellsFrom(row, j, maxSpacing)
         == Some(Cell(row[j], j, maxSpacing).value + CellsFrom(row, j + 1, maxSpacing).value)
  {
  }

  /** The parser takes field j, of its column's width, off the front. */
  lemma ParseCellsCons(t: string, u: string, v: string, maxIters: nat, row: seq<int>, j: nat)
    requires j < |row|
    requires |t| == FieldWidth(j, maxIters) && ParseField(t) == row[j]
    requires ParseCells(u + v, maxIters, j + 1, |row|) == row[j + 1..]
    ensures ParseCells(t + u + v, maxIters, j, |row|) == row[j..]
  {
    var w := FieldWidth(j, maxIters);
    assert (t + u + v)[..w] == t;
    assert (t + u + v)[w..] == u + v;
    assert row[j..] == [row[j]] + row[j + 1..];
  }

  /** A row of in-range values is one line of exactly RowWidth characters
      that the parser reads back. */
  lemma RowRoundTrip(row: seq<int>, maxIters: nat)
    requires RowInRange(row, maxIters)
    ensures RowText(row, MaxSpacing(maxIters)).Some?
    ensures |RowText(row, MaxSpacing(maxIters)).value| == RowWidth(maxIters, |row|)
    ensures ParseRow(RowText(row, MaxSpacing(maxIters)).value, maxIters, |row|) == row
  {
    CellsFromRoundTrip(row, 0, maxIters, "");
    var s := RowText(row, MaxSpacing(maxIters)).value;
    assert s + "" == s;
    assert row[0..] == row;
  }

  ghost predicate GridInRange(grid: seq<seq<int>>, ncols: nat, maxIters: int) {
    forall i :: 0 <= i < |grid| ==> |grid[i]| == ncols && RowInRange(grid[i], maxIters)
  }

  lemma {:induction false} LinesFromRoundTrip(grid: seq<seq<int>>, a: nat, ncols: nat, maxIters: nat)
    requires a <= |grid|
    requires GridInRange(grid, ncols, maxIters)
    ensures LinesFrom(grid, a, MaxSpacing(maxIters)).Some?
    ensures |LinesFrom(grid, a, MaxSpacing(maxIters)).value| == (|grid| - a) * (RowWidth(maxIters, ncols) + 1)
    ensures ParseMatrix(LinesFrom(grid, a, MaxSpacing(maxIters)).value, maxIters, |grid| - a, ncols) == grid[a..]
    decreases |grid| - a
  {
    LinesFromLength(grid, a, ncols, maxIters);
    if a < |grid| {
      LinesFromRoundTrip(grid, a + 1, ncols, maxIters);
      RowRoundTrip(grid[a], maxIters);
      LinesFromStep(grid, a, ncols, maxIters, RowText(grid[a], MaxSpacing(maxIters)).value, LinesFrom(grid, a + 1, MaxSpacing(maxIters)).value);
    }
  }

  /** Rows a onward of an in-range grid take one line of the row width plus
      its newline each. */
  lemma {:induction false} LinesFromLength(grid: seq<seq<int>>, a: nat, ncols: nat, maxIters: nat)
    requires a <= |grid|
    requires GridInRange(grid, ncols, maxIters)
    ensures LinesFrom(grid, a, MaxSpacing(maxIters)).Some?
    ensures |LinesFrom(grid, a, MaxSpacing(maxIters)).value| == (|grid| - a) * (RowWidth(maxIters, ncols) + 1)
    decreases |grid| - a
  {
    if a < |grid| {
      var ms, w := MaxSpacing(maxIters), RowWidth(maxIters, ncols);
      LinesFromLength(grid, a + 1, ncols, maxIters);
      RowRoundTrip(grid[a], maxIters);
      LinesFromCons(grid, a, ms);
      MulSucc(|grid| - a - 1, w + 1);
    }
  }

  lemma MulSucc(n: nat, k: nat)
    ensures (n + 1) * k == k + n * k
  {
  }

  /** Prepending one in-range row to a text that reads back as the later
      rows gives a text that reads back as all of them. */
  lemma {:induction false} LinesFromStep(grid: seq<seq<int>>, a: nat, ncols: nat, maxIters: nat, line: string, rest: string)
    requires a < |grid|
    requires RowText(grid[a], MaxSpacing(maxIters)) == Some(line)
    requires |line| == RowWidth(maxIters, ncols) && ParseRow(line, maxIters, ncols) == grid[a]
    requires LinesFrom(grid, a + 1, MaxSpacing(maxIters)) == Some(rest)
    requires ParseMatrix(rest, maxIters, |grid| - a - 1, ncols) == grid[a + 1..]
    ensures LinesFrom(grid, a, MaxSpacing(maxIters)) == Some(line + "\n" + rest)
    ensures ParseMatrix(line + "\n" + rest, maxIters, |grid| - a, ncols) == grid[a..]
  {
    var ms, n := MaxSpacing(maxIters), |grid| - a - 1;
    LinesFromCons(grid, a, ms);
    ParseMatrixCons(line, rest, maxIters, n, ncols, grid[a], grid[a + 1..]);
    assert grid[a..] == [grid[a]] + grid[a + 1..];
  }

  lemma LinesFromCons(grid: seq<seq<int>>, a: nat, maxSpacing: int)
    requires a < |grid|
    requires RowText(grid[a], maxSpacing).Some? && LinesFrom(grid, a + 1, maxSpacing).Some?
    ensures LinesFrom(grid, a, maxSpacing)
         == Some(RowText(grid[a], maxSpacing).value + "\n" + LinesFrom(grid, a + 1, maxSpacing).value)
  {
  }

  /** The parser takes one line of the row width and its newline off the
      front. */
  lemma ParseMatrixCons(line: string, rest: string, maxIters: nat, n: nat, ncols: nat, row: seq<int>, rows: seq<seq<int>>)
    requires |line| == RowWidth(maxIters, ncols)
    requires ParseRow(line, maxIters, ncols) == row
    requires ParseMatrix(rest, maxIters, n, ncols) == rows
    ensures ParseMatrix(line + "\n" + rest, maxIters, n + 1, ncols) == [row] + rows
  {
    var len := RowWidth(maxIters, ncols);
    assert (line + "\n" + rest)[..len] == line;
    assert (line + "\n" + rest)[len + 1..] == rest;
  }

  /** The matrix of a grid of values in [0, maxIters] is produced without
      error, and reading it back with the widths implied by maxIters recovers
      the grid exactly. */
  lemma MatrixRoundTrip(grid: seq<seq<int>>, ncols: nat, maxIters: nat)
    requires GridInRange(grid, ncols, maxIters)
    ensures Matrix(grid, maxIters).Some?
    ensures ParseMatrix(Matrix(grid, maxIters).value, maxIters, |grid|, ncols) == grid
  {
    LinesFromRoundTrip(grid, 0, ncols, maxIters);
    assert grid[0..] == grid;
  }

  /** A row is formatted without error exactly when every repeat count in
      it is non-negative. */
  lemma {:induction false} CellsFromDefinedIff(row: seq<int>, j: nat, maxSpacing: int)
    requires j <= |row|
    ensures CellsFrom(row, j, maxSpacing).Some?
        <==> forall b :: j <= b < |row| ==> PadCount(row[b], b, maxSpacing) >= 0
    decreases |row| - j
  {
    if j < |row| {
      CellsFromDefinedIff(row, j + 1, maxSpacing);
      CellsFromSome(row, j, maxSpacing);
      PadsFromSplit(row, j, maxSpacing);
    }
  }

  /** Every repeat count from column j on is non-negative exactly when the
      one of column j is and every one from column j+1 on is. */
  lemma PadsFromSplit(row: seq<int>, j: nat, maxSpacing: int)
    requires j < |row|
    ensures (forall b :: j <= b < |row| ==> PadCount(row[b], b, maxSpacing) >= 0)
        <==> PadCount(row[j], j, maxSpacing) >= 0 && forall b :: j + 1 <= b < |row| ==> PadCount(row[b], b, maxSpacing) >= 0
  {
  }

  lemma CellsFromSome(row: seq<int>, j: nat, maxSpacing: int)
    requires j < |row|
    ensures CellsFrom(row, j, maxSpacing).Some?
        <==> PadCount(row[j], j, maxSpacing) >= 0 && CellsFrom(row, j + 1, maxSpacing).Some?
  {
  }

  lemma {:induction false} LinesFromDefinedIff(grid: seq<seq<int>>, a: nat, maxSpacing: int)
    requires a <= |grid|
    ensures LinesFrom(grid, a, maxSpacing).Some?
        <==> forall i, b :: a <= i < |grid| && 0 <= b < |grid[i]| ==> PadCount(grid[i][b], b, maxSpacing) >= 0
    decreases |grid| - a
  {
    if a < |grid| {
      CellsFromDefinedIff(grid[a], 0, maxSpacing);
      LinesFromDefinedIff(grid, a + 1, maxSpacing);
      LinesFromSome(grid, a, maxSpacing);
    }
  }

  lemma LinesFromSome(grid: seq<seq<int>>, a: nat, maxSpacing: int)
    requires a < |grid|
    ensures LinesFrom(grid, a, maxSpacing).Some?
        <==> RowText(grid[a], maxSpacing).Some? && LinesFrom(grid, a + 1, maxSpacing).Some?
  {
  }

  /** The matrix is written without an exception exactly when no cell asks
      " ".repeat for a negative count. */
  lemma MatrixDefinedIff(grid: seq<seq<int>>, maxIters: int)
    ensures Matrix(grid, maxIters).Some?
        <==> forall i, b :: 0 <= i < |grid| && 0 <= b < |grid[i]| ==> PadCount(grid[i][b], b, MaxSpacing(maxIters)) >= 0
  {
    LinesFromDefinedIff(grid, 0, MaxSpacing(maxIters));
  }

  // ----- line structure -----

  function NewlineCount(s: string): nat {
    if |s| == 0 then 0 else NewlineCount(s[..|s| - 1]) + (if s[|s| - 1] == '\n' then 1 else 0)
  }

  lemma {:induction false} NewlineCountConcat(s: string, t: string)
    ensures NewlineCount(s + t) == NewlineCount(s) + NewlineCount(t)
    decreases |t|
  {
    if |t| == 0 {
      assert s + t == s;
    } else {
      assert (s + t)[..|s + t| - 1] == s + t[..|t| - 1];
      NewlineCountConcat(s, t[..|t| - 1]);
    }
  }

  ghost predicate NoNewline(s: string) {
    forall k :: 0 <= k < |s| ==> s[k] != '\n'
  }

  lemma {:induction false} NewlineFree(s: string)
    requires NoNewline(s)
    ensures NewlineCount(s) == 0
    decreases |s|
  {
    if |s| > 0 {
      NewlineFree(s[..|s| - 1]);
    }
  }

  lemma {:induction false} CellsFromNewlineFree(row: seq<int>, j: nat, maxSpacing: int)
    requires j <= |row|
    requires CellsFrom(row, j, maxSpacing).Some?
    ensures NoNewline(CellsFrom(row, j, maxSpacing).value)
    decreases |row| - j
  {
    if j < |row| {
      CellsFromSome(row, j, maxSpacing);
      CellsFromNewlineFree(row, j + 1, maxSpacing);
      CellNoNewline(row[j], j, maxSpacing);
      CellsFromCons(row, j, maxSpacing);
      ConcatNoNewline(Cell(row[j], j, maxSpacing).value, CellsFrom(row, j + 1, maxSpacing).value);
    }
  }

  /** A cell is padding and digits, never a newline. */
  lemma CellNoNewline(p: int, j: int, maxSpacing: int)
    requires Cell(p, j, maxSpacing).Some?
    ensures NoNewline(Cell(p, j, maxSpacing).value)
  {
    IntToStringChars(p);
  }

  lemma ConcatNoNewline(t: string, u: string)
    requires NoNewline(t) && NoNewline(u)
    ensures NoNewline(t + u)
  {
  }

  /** The matrix text has one line per grid row, each ending in a newline. */
  lemma {:induction false} LinesFromCount(grid: seq<seq<int>>, a: nat, maxSpacing: int)
    requires a <= |grid|
    requires LinesFrom(grid, a, maxSpacing).Some?
    ensures NewlineCount(LinesFrom(grid, a, maxSpacing).value) == |grid| - a
    ensures a < |grid| ==> LinesFrom(grid, a, maxSpacing).value[|LinesFrom(grid, a, maxSpacing).value| - 1] == '\n'
    decreases |grid| - a
  {
    if a < |grid| {
      var line := RowText(grid[a], maxSpacing).value;
      var rest := LinesFrom(grid, a + 1, maxSpacing).value;
      LinesFromCount(grid, a + 1, maxSpacing);
      CellsFromNewlineFree(grid[a], 0, maxSpacing);
      NewlineFree(line);
      NewlineCountConcat(line, "\n");
      NewlineCountConcat(line + "\n", rest);
      assert NewlineCount("\n") == 1 by {
        assert "\n"[..0] == "";
      }
    }
  }

  lemma MatrixLines(grid: seq<seq<int>>, maxIters: int)
    requires Matrix(grid, maxIters).Some?
    ensures NewlineCount(Matrix(grid, maxIters).value) == |grid|
    ensures |grid| > 0 ==> Matrix(grid, maxIters).value[|Matrix(grid, maxIters).value| - 1] == '\n'
  {
    LinesFromCount(grid, 0, MaxSpacing(maxIters));
  }

  // ----- the header line and write -----

  /** The first header line: nrows, ncols and maxIters separated by spaces. */
  function HeaderLine(nrows: int, ncols: int, maxIters: int): string {
    IntToString(nrows) + " " + IntToString(ncols) + " " + IntToString(maxIters) + "\n"
  }

  /** The text before the first occurrence of ch, and the text after it. */
  function SplitAt(s: string, ch: char): (string, string) {
    if |s| == 0 then ("", "")
    else if s[0] == ch then ("", s[1..])
    else
      var (a, b) := SplitAt(s[1..], ch);
      ([s[0]] + a, b)
  }

  /** Reads the three integers of the first header line. */
  function ParseHeader(t: string): (int, int, int) {
    var (x, r1) := SplitAt(t, ' ');
    var (y, r2) := SplitAt(r1, ' ');
    var (z, _) := SplitAt(r2, '\n');
    (ParseInt(x), ParseInt(y), ParseInt(z))
  }

  lemma {:induction false} SplitAtConcat(a: string, ch: char, b: string)
    requires forall k :: 0 <= k < |a| ==> a[k] != ch
    ensures SplitAt(a + [ch] + b, ch) == (a, b)
  {
    if |a| > 0 {
      assert (a + [ch] + b)[1..] == a[1..] + [ch] + b;
      SplitAtConcat(a[1..], ch, b);
      assert [a[0]] + a[1..] == a;
    } else {
      assert a + [ch] + b == [ch] + b;
    }
  }

  /** The first header line reads back as (nrows, ncols, maxIters), whatever
      follows it. */
  lemma HeaderRoundTrip(nrows: int, ncols: int, maxIters: int, rest: string)
    ensures ParseHeader(HeaderLine(nrows, ncols, maxIters) + rest) == (nrows, ncols, maxIters)
  {
    var x, y, z := IntToString(nrows), IntToString(ncols), IntToString(maxIters);
    IntToStringChars(nrows);
    IntToStringChars(ncols);
    IntToStringChars(maxIters);
    IntToStringRoundTrip(nrows);
    IntToStringRoundTrip(ncols);
    IntToStringRoundTrip(maxIters);
    assert HeaderLine(nrows, ncols, maxIters) + rest == x + [' '] + (y + [' '] + (z + ['\n'] + rest));
    SplitAtConcat(x, ' ', y + [' '] + (z + ['\n'] + rest));
    SplitAtConcat(y, ' ', z + ['\n'] + rest);
    SplitAtConcat(z, '\n', rest);
  }

  /** Every value of a freshly computed grid has a non-negative repeat
      count: within [0, maxIters] for a non-negative budget, and equal to
      the budget (so at most 1) for a negative one. */
  lemma SampleGridPrintable(f: JuliaFractal)
    ensures Matrix(SampleGrid(f.low, f.high, f.nrows, f.ncols, f.maxIters, f.c), f.maxIters).Some?
  {
    var g := SampleGrid(f.low, f.high, f.nrows, f.ncols, f.maxIters, f.c);
    forall i, b | 0 <= i < |g| && 0 <= b < |g[i]|
      ensures PadCount(g[i][b], b, MaxSpacing(f.maxIters)) >= 0
    {
      if f.maxIters >= 0 {
        CellInRange(g[i][b], b, f.maxIters);
      }
    }
    MatrixDefinedIff(g, f.maxIters);
  }

  /** What `write` produces: the state with its cache recomputed, and the
      file text. */
  datatype Written = Written(state: JuliaFractal, text: string)

  /** Header lines 2 and 3 and the blank line; the text of a double is left
      to the caller-supplied `showReal`. */
  function RegionLines(f: JuliaFractal, showReal: real -> string): string {
    showReal(f.low.r) + " " + showReal(f.high.r) + " " + showReal(f.low.i) + " " + showReal(f.high.i) + "\n"
    + showReal(f.c.r) + " " + showReal(f.c.i) + "\n"
    + "\n"
  }

  /** write: recompute the cache, then emit the header and the matrix. */
  function Write(f: JuliaFractal, showReal: real -> string): (w: Written)
    ensures CacheFresh(w.state)
    ensures CacheFresh(f) ==> w.state == f
  {
    var grid := SampleGrid(f.low, f.high, f.nrows, f.ncols, f.maxIters, f.c);
    var g := f.(escapeVals := grid);
    SampleGridPrintable(f);
    Written(g, HeaderLine(f.nrows, f.ncols, f.maxIters) + RegionLines(f, showReal) + Matrix(grid, f.maxIters).value)
  }

  /** The written file begins with a header line that reads back as
      (nrows, ncols, maxIters), and after the three header lines and the
      blank line holds the matrix of the recomputed grid: nrows
      newline-terminated lines that read back as the grid itself. */
  lemma WriteRoundTrip(f: JuliaFractal, showReal: real -> string)
    requires f.maxIters >= 0
    ensures var t := Write(f, showReal).text;
      var pre := HeaderLine(f.nrows, f.ncols, f.maxIters) + RegionLines(f, showReal);
      && ParseHeader(t) == (f.nrows as int, f.ncols as int, f.maxIters)
      && |pre| <= |t| && t[..|pre|] == pre
      && NewlineCount(t[|pre|..]) == f.nrows
      && ParseMatrix(t[|pre|..], f.maxIters, f.nrows, f.ncols) == Write(f, showReal).state.escapeVals
  {
    var h := HeaderLine(f.nrows, f.ncols, f.maxIters);
    var r := RegionLines(f, showReal);
    var grid := SampleGrid(f.low, f.high, f.nrows, f.ncols, f.maxIters, f.c);
    SampleGridPrintable(f);
    var m := Matrix(grid, f.maxIters).value;
    assert Write(f, showReal).text == h + r + m;
    SplitText(h, r, m);
    HeaderRoundTrip(f.nrows, f.ncols, f.maxIters, r + m);
    MatrixLines(grid, f.maxIters);
    MatrixRoundTrip(grid, f.ncols, f.maxIters);
  }

  lemma SplitText(h: string, r: string, m: string)
    ensures h + r + m == h + (r + m)
    ensures (h + r + m)[..|h + r|] == h + r
    ensures (h + r + m)[|h + r|..] == m
  {
  }
}
