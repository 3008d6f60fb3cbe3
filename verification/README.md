# Escape-time fractals, modelled in Dafny

This project models the core of the `fractals` package, a small Java program that
computes a Julia set over a rectangle of the complex plane and writes the escape
counts as a fixed-width text matrix. The model has four modules:

- `ComplexNumbers` (`complex.dfy`): the `Complex` value with `add`, `sub`, `mul` and
  `copy`. The magnitude `abs` is represented by its square (`AbsSq`).
- `Julia` (`julia.dfy`): the escape rule `escapeCount`. Its test `abs(z) > 2` becomes
  `AbsSq(z) > 4` (`Escaped`). A reference definition
  (`IsEscapeTime`: the first escaping iterate, or the budget) is connected to the
  recursive `EscapeCount` and to the loop as written (`ComputeEscapeCount`).
- `Fractal` (`fractal.dfy`): the state of a Julia fractal (`JuliaFractal`). It covers the
  grid walk of `escapes` (`Escapes`), the Julia constructor (`NewJulia`), `zoom` and
  `updateDimensions`. The cache invariant `CacheFresh` says that `escapeVals` is the
  grid of the current corners, size, budget and `c`. Every operation re-establishes it.
- `MatrixText` (`matrix_text.dfy`): the integer part of `write`. It covers the first
  header line, the cell padding derived from `floor(log10(maxIters))`, and the
  matrix of right-aligned cells. It also has a fixed-width parser and proves that the
  written text reads back as the header values and, for maxIters >= 0, as the grid.

Java `double` is modelled as `real`; Java `int` as unbounded `int`. No loop counter
can overflow, because every counter stays below a Java `int` bound.

The source's `Fractal.escapeCount` is abstract, and Julia is its only implementation.
The grid therefore calls the Julia rule directly. The Julia constructor lives in the
`Fractal` module because it fills the cache through `escapes`.

Behaviour as written that a reader may not expect:

- The column step is the imaginary span `|low.i - high.i| / (ncols - 1)`. The row step
  is the real span `|low.r - high.r| / (nrows - 1)` (`fractals/Fractal.java:54-56`).
  The bottom-right sample is therefore `(low.r + |low.i - high.i|, high.i - |low.r - high.r|)`
  (`SampleLastCorner`), not `(high.r, low.i)`. It is the corner only when both spans are
  equal and the corners are ordered. `SampleLastCornerExample` gives a 3 x 3 grid on
  (-2,-1)..(2,1) whose last sample is (0,-3). The model follows the code.
- For a one-row or one-column grid the code divides by zero. It does not special-case
  this. The stepped value is only ever applied after the last cell, so it is never
  sampled. The model uses 0.0 in its place. `GridIgnoresUnusedColStep` and
  `GridIgnoresUnusedRowStep` prove that the grid does not depend on that value.
- The code does not require `nrows`, `ncols` > 0 or `maxIters` >= 1. A negative
  dimension makes the array allocation throw (`NewJulia` returns `NegativeArraySize`).
  A non-positive `maxIters` makes every count equal to `maxIters`.
- The comment on `zoom` speaks of staying centred. The code scales both corners toward
  the origin (`ZoomCentre`).

## Model

| member | source | states |
|---|---|---|
| ComplexNumbers.Add | fractals/Complex.java:34-36 | definition: the component-wise sum (a.r+b.r, a.i+b.i) |
| ComplexNumbers.Sub | fractals/Complex.java:45-47 | definition: the component-wise difference (a.r-b.r, a.i-b.i) |
| ComplexNumbers.Mul | fractals/Complex.java:56-58 | definition: the complex product (a.r*b.r - a.i*b.i, a.i*b.r + a.r*b.i) |
| ComplexNumbers.AbsSq | fractals/Complex.java:67-69 | definition: r*r + i*i, the square of abs; abs(z) > 2 is taken as AbsSq(z) > 4 (`Julia.Escaped`) |
| ComplexNumbers.AddComponentwiseCommutative | fractals/Complex.java:34-36 | add is component-wise and commutative |
| ComplexNumbers.SubInvertsAdd | fractals/Complex.java:34-47 | sub is the component-wise difference; sub(add(a,b),b) == a and add(sub(a,b),b) == a |
| ComplexNumbers.MulCommutative | fractals/Complex.java:56-58 | mul is commutative |
| ComplexNumbers.MulByReal | fractals/Complex.java:56-58 | multiplying by (k, 0) on either side scales both parts by k |
| ComplexNumbers.AbsSqMul | fractals/Complex.java:56-69 | the squared magnitude of a product is the product of the squared magnitudes |
| ComplexNumbers.AbsSqZeroIff | fractals/Complex.java:67-69 | the squared magnitude is >= 0 and is 0 exactly at (0,0); so abs >= 0 and abs((0,0)) == 0 |
| ComplexNumbers.Copy | fractals/Complex.java:83-85 | copy has the same real and imaginary parts |
| ComplexNumbers.SampleValues | fractals/Complex.java:90-98 | for a=(2,3), b=(-1,2): a+b=(1,5), a-b=(3,1), a*b=(-8,1), abs(a)^2=13 |
| Julia.ZeroNotEscaped | fractals/Julia.java:47 | abs((0,0)) is not greater than 2 |
| Julia.Step | fractals/Julia.java:51 | definition: one step of the recurrence, z*z + c |
| Julia.Iterate | fractals/Julia.java:46-52 | definition: the n-th iterate, z_0 = p and z_{n+1} = z_n*z_n + c |
| Julia.EscapeFrom | fractals/Julia.java:46-54 | the search from index i, the earlier iterates having stayed within radius 2 (abs <= 2), yields the escape time, between i and maxIters |
| Julia.EscapeCount | fractals/Julia.java:35-56 | the result is the first escaping index below maxIters, else maxIters; in [0, maxIters] for maxIters >= 0, equal to maxIters when it is negative |
| Julia.ComputeEscapeCount | fractals/Julia.java:38-54 | the loop on copies of p and c returns the escape count; a result k < maxIters has z_k escaping and no earlier iterate escaping |
| Julia.EscapeTimeUnique | fractals/Julia.java:46-54 | each point and budget has one escape time |
| Julia.EscapeCountIff | fractals/Julia.java:46-54 | escapeCount(p) == k if and only if k is the escape time of the reference definition |
| Julia.EscapesAtOnce | fractals/Julia.java:46-48 | for maxIters >= 0, a start point with abs > 2 gives 0 |
| Julia.BudgetReachedIff | fractals/Julia.java:46-54 | the result is maxIters exactly when none of z_0 .. z_{maxIters-1} escapes |
| Julia.EscapeCountBudget | fractals/Julia.java:46-54 | a larger budget keeps an escape found earlier and finds none where a smaller budget was used up |
| Julia.OriginFixed | fractals/Julia.java:51 | with c = 0 every iterate of the origin is the origin |
| Julia.OriginNeverEscapes | fractals/Julia.java:46-54 | p = (0,0), c = (0,0) gives maxIters |
| Fractal.ColStep | fractals/Fractal.java:54-55 | definition: the column step abs(low.i-high.i)/(ncols-1), with 0.0 for the never-used value of a one-column grid |
| Fractal.RowStep | fractals/Fractal.java:54-56 | definition: the row step abs(low.r-high.r)/(nrows-1), with 0.0 for the never-used value of a one-row grid |
| Fractal.SampleGrid | fractals/Fractal.java:37-73 | definition: the closed-form grid, entry (i,j) the escape count of (low.r + j*colStep, high.i - i*rowStep) |
| Fractal.Escapes | fractals/Fractal.java:37-73 | the walk returns nrows rows of ncols entries; entry (i,j) is escapeCount of sampled point (i,j), i.e. the reference grid |
| Fractal.EscapesRow | fractals/Fractal.java:63-66 | one row of the walk evaluates the points of that row and leaves p one step past the last cell |
| Fractal.NextColumn | fractals/Fractal.java:65 | adding the column step moves to the next column's point |
| Fractal.NextRowStart | fractals/Fractal.java:67-68 | subtracting the row step and resetting the real part gives the next row's first point |
| Fractal.GridIgnoresUnusedColStep | fractals/Fractal.java:55 | a one-column grid is the same whatever the column step |
| Fractal.GridIgnoresUnusedRowStep | fractals/Fractal.java:56 | a one-row grid is the same whatever the row step |
| Fractal.SampleOrigin | fractals/Fractal.java:57 | sampled point (0,0) is (low.r, high.i) |
| Fractal.SampleAlongRow | fractals/Fractal.java:54-55 | within a row the imaginary part is constant and the real part grows by abs(low.i-high.i)/(ncols-1) per column |
| Fractal.SampleDownColumn | fractals/Fractal.java:56-68 | every row starts at low.r; each row's imaginary part is the previous one minus abs(low.r-high.r)/(nrows-1) |
| Fractal.SampleLastCorner | fractals/Fractal.java:54-56 | the last sample is offset from the first by the imaginary span along the real axis and the real span along the imaginary axis |
| Fractal.SampleLastCornerExample | fractals/Fractal.java:54-56 | on (-2,-1)..(2,1) with 3 x 3 cells the last sample is (0,-3) |
| Fractal.NewJulia | fractals/Julia.java:21-29 | fails exactly for a negative dimension; otherwise stores every field as given, c by value, with a fresh cache |
| Fractal.NewJuliaGrid | fractals/Julia.java:21-29 | the constructed cache is nrows x ncols and each entry is the in-budget escape count of its sampled point |
| Fractal.UpdateDimensions | fractals/Fractal.java:175-179 | sets low and high exactly, keeps every other field, and leaves the cache fresh |
| Fractal.UpdateDimensionsIdempotent | fractals/Fractal.java:175-179 | updating to the current corners changes nothing; a second update overrides the first |
| Fractal.Zoom | fractals/Fractal.java:162-167 | both corners are divided by the factor, other fields are kept, and the cache is fresh |
| Fractal.ZoomOne | fractals/Fractal.java:162-167 | zoom(1) is the identity |
| Fractal.ZoomTwice | fractals/Fractal.java:162-167 | zoom(a) then zoom(b) equals zoom(a*b) |
| Fractal.ZoomCentre | fractals/Fractal.java:156-167 | the region's centre is divided by the factor too, so zoom scales toward the origin, not the centre |
| MatrixText.MaxSpacing | fractals/Fractal.java:102-108 | definition: floor(log10(maxIters)) when maxIters > 1, else 0 |
| MatrixText.PadCount | fractals/Fractal.java:134-144 | definition: the count given to " ".repeat, maxSpacing - floor(log10(p)) for p > 1 else maxSpacing, plus 3 after the first column |
| MatrixText.Cell | fractals/Fractal.java:141-145 | definition: the padded text of one value, or None where the repeat count is negative and " ".repeat throws |
| MatrixText.Matrix | fractals/Fractal.java:131-149 | definition: every row's cells concatenated and followed by a newline, or None if any cell throws |
| MatrixText.FloorLog10 | fractals/Fractal.java:103-108 | the result k satisfies 10^k <= n < 10^(k+1) |
| MatrixText.FloorLog10Monotone | fractals/Fractal.java:134-135 | floor(log10) does not decrease |
| MatrixText.NatToStringLength | fractals/Fractal.java:134-138 | String.valueOf(n) has floor(log10(n)) + 1 digits, and one for 0 |
| MatrixText.NatToStringRoundTrip | fractals/Fractal.java:142 | the decimal text of n reads back as n |
| MatrixText.IntToStringRoundTrip | fractals/Fractal.java:114-115 | the text of any int, sign included, reads back as that int |
| MatrixText.CellInRange | fractals/Fractal.java:131-145 | for 0 <= p <= maxIters the padding is maxSpacing - (digits(p)-1) >= 0; a first-column field is digits(maxIters) wide, a later one digits(maxIters)+3, right-aligned |
| MatrixText.CellReadBack | fractals/Fractal.java:143-144 | an in-range value's cell fills exactly its column's field width and the field parser reads the value back from it |
| MatrixText.CellsFromRoundTrip | fractals/Fractal.java:132-146 | cells j onward of an in-range row occupy their columns' fields exactly (digits(maxIters) for the first, three more for the others) and read back as the values, whatever text follows |
| MatrixText.RowRoundTrip | fractals/Fractal.java:131-148 | a row of in-range values is one line of the fixed row width that reads back as the row |
| MatrixText.LinesFromRoundTrip | fractals/Fractal.java:131-149 | rows a onward of an in-range grid are written without error, take (number of rows) x (row width + 1) characters, and read back as those rows |
| MatrixText.LinesFromLength | fractals/Fractal.java:131-149 | rows a onward of an in-range grid take one line of the row width plus its newline each, so (number of rows from a on) x (row width + 1) characters |
| MatrixText.MatrixRoundTrip | fractals/Fractal.java:131-149 | the matrix of an in-range grid is produced without error and reads back as the grid |
| MatrixText.CellsFromDefinedIff | fractals/Fractal.java:141-145 | a row is formatted without error exactly when every repeat count in it is non-negative |
| MatrixText.LinesFromDefinedIff | fractals/Fractal.java:131-149 | rows a onward are written without error exactly when no cell in them has a negative repeat count |
| MatrixText.MatrixDefinedIff | fractals/Fractal.java:131-149 | the matrix is written without an exception exactly when no repeat count is negative |
| MatrixText.LinesFromCount | fractals/Fractal.java:131-149 | rows a onward produce one newline each, the last character being a newline |
| MatrixText.MatrixLines | fractals/Fractal.java:131-149 | the matrix text has exactly nrows newline characters and ends with one |
| MatrixText.HeaderLine | fractals/Fractal.java:113-115 | definition: nrows, ncols and maxIters in decimal, separated by single spaces, then a newline |
| MatrixText.RegionLines | fractals/Fractal.java:117-125 | definition: header lines 2 and 3 through the given text of a double, then the blank line |
| MatrixText.HeaderRoundTrip | fractals/Fractal.java:114-115 | the first header line reads back as nrows, ncols, maxIters |
| MatrixText.SampleGridPrintable | fractals/Fractal.java:95-145 | every value of a freshly computed grid has a non-negative repeat count, for any maxIters |
| MatrixText.Write | fractals/Fractal.java:85-154 | write recomputes the cache, which is then fresh and equals the old one when that was fresh |
| MatrixText.WriteRoundTrip | fractals/Fractal.java:95-149 | for maxIters >= 0: the file starts with a header line that reads back as (nrows, ncols, maxIters); after the header it holds nrows lines that read back as the recomputed grid |

## Left out

- File output in `write`: the `FileWriter`, `close` and the catch-all that prints a stack
  trace (`fractals/Fractal.java:110-111`, `150-153`). The text is returned instead. An
  exception from `" ".repeat` shows up as `None` from `Matrix`. What a partly written file
  would hold is not modelled.
- MatrixText.WriteRoundTrip: requires maxIters >= 0. With a negative budget every count equals
  maxIters and is written with its minus sign ("-3"). The unsigned fixed-width field parser does
  not read that back, and such a file is not a meaningful escape-count matrix. That the text is
  still produced without an exception is stated by `SampleGridPrintable` for every budget.
- Text of doubles: header lines 2 and 3 use `String.valueOf(double)`. `Write` takes that
  conversion as a parameter `showReal`. `Complex.toString` is not modelled.
- IEEE-754 behaviour: rounding, overflow to infinity, NaN, and the infinite or NaN steps
  of one-row or one-column grids. `Math.sqrt`, `Math.pow` and `Math.log10` are taken as
  exact; `log10` becomes the integer `FloorLog10`.
- Zoom: requires a non-zero factor, because `1.0/0` is an IEEE infinity with no real counterpart.
- Aliasing: the constructor and `updateDimensions` keep references to the caller's mutable
  `low` and `high`. The model uses values, so later changes to the caller's objects are not
  modelled. `c` is copied in the source, and the model agrees.
- escapeCount leaves every field unchanged. That holds by construction: `EscapeCount` is a
  pure function of `p`, `c` and `maxIters`, so no member states it separately.
- The command-line entry points `Julia.main` and `Complex.main` are left out, apart from the
  values that `SampleValues` checks.
- The repository-root `Fractal.java` is not part of this model. It is an earlier draft in
  package `Fractals` that does not compile.
