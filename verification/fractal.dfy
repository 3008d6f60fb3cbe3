/** The region, grid and cached escape counts of a fractal, with the grid walk
    of `escapes`, the Julia constructor, `zoom` and `updateDimensions`. The
    abstract `escapeCount` of the source has one implementation, the Julia
    rule, which the grid uses directly. */
module Fractal {
  import opened ComplexNumbers
  import opened Julia

  function AbsReal(x: real): real {
    if x < 0.0 then -x else x
  }

  /** The column step as written: the IMAGINARY span over ncols - 1. When
      ncols == 1 the source divides by zero (an IEEE infinity or NaN); that
      value is never sampled, so 0.0 stands in for it (see
      `GridIgnoresUnusedColStep`). */
  function ColStep(low: Complex, high: Complex, ncols: int): real {
    if ncols == 1 then 0.0 else AbsReal(low.i - high.i) / (ncols - 1) as real
  }

  /** The row step as written: the REAL span over nrows - 1, with 0.0 for
      the never-sampled value of a one-row grid. */
  function RowStep(low: Complex, high: Complex, nrows: int): real {
    if nrows == 1 then 0.0 else AbsReal(low.r - high.r) / (nrows - 1) as real
  }

  /** The point the walk evaluates for cell (i, j), for given steps. */
  function PointWith(low: Complex, high: Complex, colStep: real, rowStep: real, i: int, j: int): Complex {
    Complex(low.r + (j as real) * colStep, high.i - (i as real) * rowStep)
  }

  /** The point sampled for cell (i, j) of an nrows x ncols grid. */
  function SamplePoint(low: Complex, high: Complex, nrows: int, ncols: int, i: int, j: int): Complex {
    PointWith(low, high, ColStep(low, high, ncols), RowStep(low, high, nrows), i, j)
  }

  /** The escape counts for given steps, one row per entry. */
  function GridWith(low: Complex, high: Complex, nrows: nat, ncols: nat, maxIters: int, c: Complex,
                    colStep: real, rowStep: real): (g: seq<seq<int>>)
    ensures |g| == nrows
    ensures forall i :: 0 <= i < nrows ==> |g[i]| == ncols
  {
    seq(nrows, i requires 0 <= i < nrows =>
      seq(ncols, j requires 0 <= j < ncols =>
        EscapeCount(PointWith(low, high, colStep, rowStep, i, j), c, maxIters)))
  }

  /** Reference definition of the grid: entry (i, j) is the escape count of
      the sampled point (i, j). */
  function SampleGrid(low: Complex, high: Complex, nrows: nat, ncols: nat, maxIters: int, c: Complex): seq<seq<int>> {
    GridWith(low, high, nrows, ncols, maxIters, c, ColStep(low, high, ncols), RowStep(low, high, nrows))
  }

  /** The grid walk of `escapes` as written: a single point p starts at
      (low.r, high.i); after each cell it moves by the column step, and after
      each row it moves down by the row step and its real part is reset. */
  method Escapes(low: Complex, high: Complex, nrows: nat, ncols: nat, maxIters: int, c: Complex)
    returns (grid: seq<seq<int>>)
    ensures |grid| == nrows
    ensures forall i :: 0 <= i < nrows ==> |grid[i]| == ncols
    ensures forall i, j :: 0 <= i < nrows && 0 <= j < ncols ==>
      grid[i][j] == EscapeCount(SamplePoint(low, high, nrows, ncols, i, j), c, maxIters)
    ensures grid == SampleGrid(low, high, nrows, ncols, maxIters, c)
  {
    var diff := Complex(AbsReal(low.r - high.r), AbsReal(low.i - high.i));
    var stepCol := Complex(if ncols == 1 then 0.0 else diff.i / (ncols - 1) as real, 0.0);
    var stepRow := Complex(0.0, if nrows == 1 then 0.0 else diff.r / (nrows - 1) as real);
    var p := Complex(low.r, high.i);
    grid := [];
    var i := 0;
    while i < nrows
      invariant 0 <= i <= nrows
      invariant |grid| == i
      invariant forall a :: 0 <= a < i ==> |grid[a]| == ncols
      invariant forall a, b :: 0 <= a < i && 0 <= b < ncols ==>
        grid[a][b] == EscapeCount(PointWith(low, high, stepCol.r, stepRow.i, a, b), c, maxIters)
      invariant p == PointWith(low, high, stepCol.r, stepRow.i, i, 0)
    {
      var row;
      row, p := EscapesRow(low, high, stepCol.r, stepRow.i, i, ncols, maxIters, c, p);
      grid := grid + [row];
      p := Sub(p, stepRow);
      p := Complex(low.r, p.i);
      NextRowStart(low, high, stepCol.r, stepRow.i, i, ncols);
      i := i + 1;
    }
    var target := SampleGrid(low, high, nrows, ncols, maxIters, c);
    forall a | 0 <= a < nrows
      ensures grid[a] == target[a]
    {
    }
  }

  /** One row of the walk: the point moves right by the column step after
      each evaluated cell. */
  method EscapesRow(low: Complex, high: Complex, colStep: real, rowStep: real, i: int, ncols: nat,
                    maxIters: int, c: Complex, p0: Complex)
    returns (row: seq<int>, p: Complex)
    requires p0 == PointWith(low, high, colStep, rowStep, i, 0)
    ensures |row| == ncols
    ensures forall b :: 0 <= b < ncols ==>
      row[b] == EscapeCount(PointWith(low, high, colStep, rowStep, i, b), c, maxIters)
    ensures p == PointWith(low, high, colStep, rowStep, i, ncols)
  {
    p := p0;
    row := [];
    var j := 0;
    while j < ncols
      invariant 0 <= j <= ncols
      invariant |row| == j
      invariant forall b :: 0 <= b < j ==>
        row[b] == EscapeCount(PointWith(low, high, colStep, rowStep, i, b), c, maxIters)
      invariant p == PointWith(low, high, colStep, rowStep, i, j)
    {
      var k := ComputeEscapeCount(p, c, maxIters);
      row := row + [k];
      NextColumn(low, high, colStep, rowStep, i, j);
      p := Add(p, Complex(colStep, 0.0));
      j := j + 1;
    }
  }

  lemma NextColumn(low: Complex, high: Complex, colStep: real, rowStep: real, i: int, j: int)
    ensures Add(PointWith(low, high, colStep, rowStep, i, j), Complex(colStep, 0.0))
         == PointWith(low, high, colStep, rowStep, i, j + 1)
  {
    assert ((j + 1) as real) * colStep == (j as real) * colStep + colStep;
  }

  lemma NextRowStart(low: Complex, high: Complex, colStep: real, rowStep: real, i: int, j: int)
    ensures var q := Sub(PointWith(low, high, colStep, rowStep, i, j), Complex(0.0, rowStep));
      Complex(low.r, q.i) == PointWith(low, high, colStep, rowStep, i + 1, 0)
  {
    assert ((i + 1) as real) * rowStep == (i as real) * rowStep + rowStep;
  }

  /** A one-column grid never uses its column step. */
  lemma GridIgnoresUnusedColStep(low: Complex, high: Complex, nrows: nat, maxIters: int, c: Complex,
                                 s1: real, s2: real, rowStep: real)
    ensures GridWith(low, high, nrows, 1, maxIters, c, s1, rowStep)
         == GridWith(low, high, nrows, 1, maxIters, c, s2, rowStep)
  {
    var g1 := GridWith(low, high, nrows, 1, maxIters, c, s1, rowStep);
    var g2 := GridWith(low, high, nrows, 1, maxIters, c, s2, rowStep);
    forall i | 0 <= i < nrows
      ensures g1[i] == g2[i]
    {
      assert PointWith(low, high, s1, rowStep, i, 0) == PointWith(low, high, s2, rowStep, i, 0);
    }
  }

  /** A one-row grid never uses its row step. */
  lemma GridIgnoresUnusedRowStep(low: Complex, high: Complex, ncols: nat, maxIters: int, c: Complex,
                                 colStep: real, s1: real, s2: real)
    ensures GridWith(low, high, 1, ncols, maxIters, c, colStep, s1)
         == GridWith(low, high, 1, ncols, maxIters, c, colStep, s2)
  {
    var g1 := GridWith(low, high, 1, ncols, maxIters, c, colStep, s1);
    var g2 := GridWith(low, high, 1, ncols, maxIters, c, colStep, s2);
    forall j | 0 <= j < ncols
      ensures g1[0][j] == g2[0][j]
    {
      assert PointWith(low, high, colStep, s1, 0, j) == PointWith(low, high, colStep, s2, 0, j);
    }
    assert g1[0] == g2[0];
  }

  /** Sampled point (0, 0) is the top-left corner (low.r, high.i). */
  lemma SampleOrigin(low: Complex, high: Complex, nrows: int, ncols: int)
    ensures SamplePoint(low, high, nrows, ncols, 0, 0) == Complex(low.r, high.i)
  {
  }

  /** Along a row the imaginary part is constant and the real part grows by
      |low.i - high.i| / (ncols - 1) per column. */
  lemma SampleAlongRow(low: Complex, high: Complex, nrows: int, ncols: int, i: int, j: int)
    requires ncols >= 2
    ensures SamplePoint(low, high, nrows, ncols, i, j + 1).i == SamplePoint(low, high, nrows, ncols, i, j).i
    ensures SamplePoint(low, high, nrows, ncols, i, j + 1).r
         == SamplePoint(low, high, nrows, ncols, i, j).r + AbsReal(low.i - high.i) / (ncols - 1) as real
  {
    var s := ColStep(low, high, ncols);
    assert ((j + 1) as real) * s == (j as real) * s + s;
  }

  /** Every row starts at real part low.r, and each row lies
      |low.r - high.r| / (nrows - 1) below the previous one. */
  lemma SampleDownColumn(low: Complex, high: Complex, nrows: int, ncols: int, i: int)
    requires nrows >= 2
    ensures SamplePoint(low, high, nrows, ncols, i, 0).r == low.r
    ensures SamplePoint(low, high, nrows, ncols, i + 1, 0).i
         == SamplePoint(low, high, nrows, ncols, i, 0).i - AbsReal(low.r - high.r) / (nrows - 1) as real
  {
    var s := RowStep(low, high, nrows);
    assert ((i + 1) as real) * s == (i as real) * s + s;
  }

  /** As written, the bottom-right sample is offset from the top-left one by
      the spans crossed over: the imaginary span along the real axis and the
      real span along the imaginary axis. */
  lemma SampleLastCorner(low: Complex, high: Complex, nrows: int, ncols: int)
    requires nrows >= 2 && ncols >= 2
    ensures SamplePoint(low, high, nrows, ncols, nrows - 1, ncols - 1)
         == Complex(low.r + AbsReal(low.i - high.i), high.i - AbsReal(low.r - high.r))
  {
    var cs := ColStep(low, high, ncols);
    var rs := RowStep(low, high, nrows);
    assert ((ncols - 1) as real) * cs == AbsReal(low.i - high.i);
    assert ((nrows - 1) as real) * rs == AbsReal(low.r - high.r);
  }

  /** For the region (-2,-1)..(2,1) on a 3 x 3 grid the bottom-right sample is
      (0, -3), not the corner (2, -1). */
  lemma SampleLastCornerExample()
    ensures SamplePoint(Complex(-2.0, -1.0), Complex(2.0, 1.0), 3, 3, 2, 2) == Complex(0.0, -3.0)
  {
    SampleLastCorner(Complex(-2.0, -1.0), Complex(2.0, 1.0), 3, 3);
  }

  /** The state of a Julia fractal: region corners, grid size, iteration
      budget, parameter c and the cached escape counts. */
  datatype JuliaFractal = JuliaFractal(
    low: Complex, high: Complex,
    nrows: nat, ncols: nat,
    maxIters: int,
    c: Complex,
    escapeVals: seq<seq<int>>)

  /** The cache holds exactly the grid of the current fields. */
  ghost predicate CacheFresh(f: JuliaFractal) {
    f.escapeVals == SampleGrid(f.low, f.high, f.nrows, f.ncols, f.maxIters, f.c)
  }

  /** Result of the constructor: allocating an array with a negative
      dimension throws NegativeArraySizeException. */
  datatype Construction = Built(fractal: JuliaFractal) | NegativeArraySize

  /** The Julia constructor: the fields are stored as given (c by value) and
      the cache is filled eagerly. */
  function NewJulia(low: Complex, high: Complex, nrows: int, ncols: int, maxIters: int, c: Complex): (r: Construction)
    ensures r.NegativeArraySize? <==> nrows < 0 || ncols < 0
    ensures r.Built? ==>
      && r.fractal.low == low && r.fractal.high == high
      && r.fractal.nrows == nrows && r.fractal.ncols == ncols
      && r.fractal.maxIters == maxIters && r.fractal.c == c
      && CacheFresh(r.fractal)
  {
    if nrows < 0 || ncols < 0 then NegativeArraySize
    else Built(JuliaFractal(low, high, nrows, ncols, maxIters, Copy(c),
                            SampleGrid(low, high, nrows, ncols, maxIters, Copy(c))))
  }

  /** The cache of a freshly built fractal has nrows rows of ncols entries,
      each one an escape count within the budget. */
  lemma NewJuliaGrid(low: Complex, high: Complex, nrows: nat, ncols: nat, maxIters: int, c: Complex)
    requires maxIters >= 0
    ensures NewJulia(low, high, nrows, ncols, maxIters, c).Built?
    ensures var g := NewJulia(low, high, nrows, ncols, maxIters, c).fractal.escapeVals;
      && |g| == nrows
      && (forall i :: 0 <= i < nrows ==> |g[i]| == ncols)
      && (forall i, j :: 0 <= i < nrows && 0 <= j < ncols ==>
            0 <= g[i][j] <= maxIters
            && g[i][j] == EscapeCount(SamplePoint(low, high, nrows, ncols, i, j), c, maxIters))
  {
  }

  /** updateDimensions: new corners, the cache recomputed from them, every
      other field unchanged. */
  function UpdateDimensions(f: JuliaFractal, low: Complex, high: Complex): (r: JuliaFractal)
    ensures r.low == low && r.high == high
    ensures r.nrows == f.nrows && r.ncols == f.ncols && r.maxIters == f.maxIters && r.c == f.c
    ensures CacheFresh(r)
  {
    f.(low := low, high := high, escapeVals := SampleGrid(low, high, f.nrows, f.ncols, f.maxIters, f.c))
  }

  /** zoom: both corners multiplied by the real-only value (1/factor, 0),
      which scales them toward the origin of the plane. */
  function Zoom(f: JuliaFractal, factor: real): (r: JuliaFractal)
    requires factor != 0.0
    ensures r.low == Complex(f.low.r / factor, f.low.i / factor)
    ensures r.high == Complex(f.high.r / factor, f.high.i / factor)
    ensures r.nrows == f.nrows && r.ncols == f.ncols && r.maxIters == f.maxIters && r.c == f.c
    ensures CacheFresh(r)
  {
    var a := Complex(1.0 / factor, 0.0);
    ScaleByInverse(factor, f.low);
    ScaleByInverse(factor, f.high);
    UpdateDimensions(f, Mul(a, f.low), Mul(a, f.high))
  }

  /** Multiplying by (1/k, 0) divides both parts by k. */
  lemma ScaleByInverse(k: real, z: Complex)
    requires k != 0.0
    ensures Mul(Complex(1.0 / k, 0.0), z) == Complex(z.r / k, z.i / k)
  {
    MulByReal(1.0 / k, z);
    assert (1.0 / k) * z.r == z.r / k;
    assert (1.0 / k) * z.i == z.i / k;
  }

  /** Updating to the current corners is the identity on a fresh state, and
      a second update overrides the first. */
  lemma UpdateDimensionsIdempotent(f: JuliaFractal, l1: Complex, h1: Complex, l2: Complex, h2: Complex)
    ensures CacheFresh(f) ==> UpdateDimensions(f, f.low, f.high) == f
    ensures UpdateDimensions(UpdateDimensions(f, l1, h1), l2, h2) == UpdateDimensions(f, l2, h2)
  {
  }

  /** zoom(1) is the identity on a fresh state. */
  lemma ZoomOne(f: JuliaFractal)
    requires CacheFresh(f)
    ensures Zoom(f, 1.0) == f
  {
  }

  /** Two zooms compose into one by the product of the factors. */
  lemma ZoomTwice(f: JuliaFractal, a: real, b: real)
    requires a != 0.0 && b != 0.0
    ensures Zoom(Zoom(f, a), b) == Zoom(f, a * b)
  {
    var z := Zoom(Zoom(f, a), b);
    var w := Zoom(f, a * b);
    assert z.low == w.low by {
      DivideTwice(f.low.r, a, b);
      DivideTwice(f.low.i, a, b);
    }
    assert z.high == w.high by {
      DivideTwice(f.high.r, a, b);
      DivideTwice(f.high.i, a, b);
    }
  }

  lemma DivideTwice(x: real, a: real, b: real)
    requires a != 0.0 && b != 0.0
    ensures x / a / b == x / (a * b)
  {
  }

  /** The zoom moves the centre of the region toward the origin, so the
      centre stays put only when it is the origin or the factor is 1. */
  lemma ZoomCentre(f: JuliaFractal, factor: real)
    requires factor != 0.0
    ensures var r := Zoom(f, factor);
      (r.low.r + r.high.r) / 2.0 == (f.low.r + f.high.r) / 2.0 / factor
      && (r.low.i + r.high.i) / 2.0 == (f.low.i + f.high.i) / 2.0 / factor
  {
  }
}
