/** The generic matrix of `Matrix/Matrix.swift`: a row-major array of rows,
    with its derived dimensions, transpose, the exact and tolerance
    comparisons, and the throwing arithmetic operators. */
module Matrix {
  import opened Results
  import opened Sums

  datatype MatrixError = SizesDontMatch

  type Grid<T> = seq<seq<T>>

  /** A matrix over the floating-point element type, modelled exactly. */
  type Mat = Grid<real>

  function Height<T>(m: Grid<T>): nat
  {
    |m|
  }

  /** The first row's length, or 0 for a matrix without rows. */
  function Width<T>(m: Grid<T>): nat
  {
    if |m| == 0 then 0 else |m[0]|
  }

  /** The constructor does not check it, but every operation assumes that
      all rows are as long as the first. */
  predicate Rectangular<T>(m: Grid<T>)
  {
    forall i :: 0 <= i < |m| ==> |m[i]| == Width(m)
  }

  /** `h` rows, each of length `w`. */
  predicate HasShape<T>(m: Grid<T>, h: nat, w: nat)
  {
    |m| == h && forall i :: 0 <= i < |m| ==> |m[i]| == w
  }

  predicate SameShape<T, U>(a: Grid<T>, b: Grid<U>)
  {
    Height(a) == Height(b) && Width(a) == Width(b)
  }

  lemma HasShapeDims<T>(m: Grid<T>, h: nat, w: nat)
    requires HasShape(m, h, w)
    ensures Rectangular(m) && Height(m) == h
    ensures h > 0 ==> Width(m) == w
  {
  }

  // ---------------------------------------------------------------- transpose

  /** Column `j` of `m`, top to bottom. */
  function Column<T>(m: Grid<T>, j: nat): (c: seq<T>)
    requires Rectangular(m) && (|m| == 0 || j < Width(m))
    ensures |c| == Height(m)
  {
    seq(|m|, k requires 0 <= k < |m| => m[k][j])
  }

  /** Row `i` of the result is column `i` of `m`; a matrix with no columns
      (even one with rows) transposes to the matrix without rows. */
  function Transpose<T>(m: Grid<T>): (t: Grid<T>)
    requires Rectangular(m)
    ensures HasShape(t, Width(m), Height(m)) && Rectangular(t)
    ensures forall i, j :: 0 <= i < Width(m) && 0 <= j < Height(m) ==> t[i][j] == m[j][i]
  {
    seq(Width(m), i requires 0 <= i < Width(m) => Column(m, i))
  }

  /** Transposing twice gives back the matrix, unless it had rows but no
      columns: the first transpose forgets how many rows there were. */
  lemma TransposeTwice<T>(m: Grid<T>)
    requires Rectangular(m)
    ensures Transpose(Transpose(m)) == m <==> Width(m) > 0 || Height(m) == 0
  {
    var tt := Transpose(Transpose(m));
    if Width(m) > 0 {
      assert |tt| == |m|;
      forall i | 0 <= i < |m|
        ensures tt[i] == m[i]
      {
      }
    }
  }

  // --------------------------------------------------- row-major element view

  /** The elements in row-major order, as the matrix's own iterator yields
      them. */
  function Flatten<T>(m: Grid<T>): (xs: seq<T>)
    requires Rectangular(m)
  {
    if |m| == 0 then []
    else
      assert Rectangular(m[1..]);
      m[0] + Flatten(m[1..])
  }

  /** The view holds `height * width` elements. */
  lemma {:induction false} FlattenLength<T>(m: Grid<T>)
    requires Rectangular(m)
    ensures |Flatten(m)| == Height(m) * Width(m)
  {
    if |m| > 0 {
      assert Rectangular(m[1..]) && (|m| > 1 ==> Width(m[1..]) == Width(m));
      FlattenLength(m[1..]);
      assert Height(m) * Width(m) == Width(m) + Height(m[1..]) * Width(m);
    }
  }

  /** Element `(i, j)` is yielded at position `i * width + j`. */
  lemma {:induction false} FlattenAt<T>(m: Grid<T>, i: nat, j: nat)
    requires Rectangular(m) && i < Height(m) && j < Width(m)
    ensures i * Width(m) + j < |Flatten(m)|
    ensures Flatten(m)[i * Width(m) + j] == m[i][j]
  {
    var w := Width(m);
    assert Rectangular(m[1..]) && (|m| > 1 ==> Width(m[1..]) == w);
    assert |m[0]| == w;
    if i > 0 {
      var rest := m[1..];
      FlattenAt(rest, i - 1, j);
      assert rest[i - 1] == m[i];
      NextRowOffset(i, w, j);
    } else {
      FlattenLength(m[1..]);
    }
  }

  lemma NextRowOffset(i: nat, w: nat, j: nat)
    requires i > 0
    ensures i * w + j == w + ((i - 1) * w + j)
  {
  }

  // ---------------------------------------------------------------- equality

  /** Zipping two element views and stopping at the first differing pair:
      only the common prefix is compared. */
  function PairsEqual<T(==)>(xs: seq<T>, ys: seq<T>): (same: bool)
    ensures same <==> forall k :: 0 <= k < |xs| && k < |ys| ==> xs[k] == ys[k]
  {
    if |xs| == 0 || |ys| == 0 then true
    else if xs[0] != ys[0] then false
    else
      assert forall k :: 1 <= k < |xs| && k < |ys| ==> xs[k] == xs[1..][k - 1] && ys[k] == ys[1..][k - 1];
      PairsEqual(xs[1..], ys[1..])
  }

  /** The generic `==`: different dimensions compare unequal, otherwise the
      row-major element views are compared pairwise. */
  function Equals<T(==)>(a: Grid<T>, b: Grid<T>): (same: bool)
    requires Rectangular(a) && Rectangular(b)
    ensures same <==> a == b
  {
    if Height(a) != Height(b) || Width(a) != Width(b) then false
    else
      var same := PairsEqual(Flatten(a), Flatten(b));
      assert same ==> a == b by {
        if same {
          forall i, j | 0 <= i < |a| && 0 <= j < Width(a)
            ensures a[i][j] == b[i][j]
          {
            FlattenAt(a, i, j);
            FlattenAt(b, i, j);
          }
          assert forall i :: 0 <= i < |a| ==> a[i] == b[i];
        }
      }
      same
  }

  function Abs(x: real): real
  {
    if x < 0.0 then -x else x
  }

  /** The fixed tolerance of the floating `==`, one hundredth. */
  const Tolerance: real := 1.0 / 100.0

  /** Zipping two element views and failing at the first pair further apart
      than `precision`. */
  function PairsWithin(xs: seq<real>, ys: seq<real>, precision: real): (close: bool)
    ensures close <==> forall k :: 0 <= k < |xs| && k < |ys| ==> Abs(xs[k] - ys[k]) <= precision
  {
    if |xs| == 0 || |ys| == 0 then true
    else if Abs(xs[0] - ys[0]) > precision then false
    else
      assert forall k :: 1 <= k < |xs| && k < |ys| ==> xs[k] == xs[1..][k - 1] && ys[k] == ys[1..][k - 1];
      PairsWithin(xs[1..], ys[1..], precision)
  }

  predicate CellsWithin(a: Mat, b: Mat, precision: real)
    requires SameShape(a, b)
  {
    forall i, j :: 0 <= i < Height(a) && 0 <= j < Width(a) && j < |a[i]| && j < |b[i]| ==> Abs(a[i][j] - b[i][j]) <= precision
  }

  /** Position `k` of the row-major view lies in row `k / width` at column
      `k % width`. */
  lemma FlattenIndex<T>(m: Grid<T>, k: nat)
    requires Rectangular(m) && k < |Flatten(m)|
    ensures Width(m) > 0 && k / Width(m) < Height(m)
    ensures Flatten(m)[k] == m[k / Width(m)][k % Width(m)]
  {
    var w, h := Width(m), Height(m);
    FlattenLength(m);
    DivideIndex(k, h, w);
    var i, j := k / w, k % w;
    assert 0 <= j < w;
    FlattenAt(m, i, j);
    assert i * w + j == k;
  }

  lemma DivideIndex(k: nat, h: nat, w: nat)
    requires k < h * w
    ensures w > 0 && k / w < h && k == (k / w) * w + k % w
  {
    assert w > 0;
    var q := k / w;
    assert q * w <= k;
    assert (h - q) * w > 0;
  }

  /** Cell-wise closeness of equal-shaped matrices is closeness of their
      row-major views. */
  lemma FlattenWithin(a: Mat, b: Mat, precision: real)
    requires Rectangular(a) && Rectangular(b) && SameShape(a, b)
    ensures PairsWithin(Flatten(a), Flatten(b), precision) <==> CellsWithin(a, b, precision)
  {
    if PairsWithin(Flatten(a), Flatten(b), precision) {
      PairsWithinCells(a, b, precision);
    }
    if CellsWithin(a, b, precision) {
      CellsWithinPairs(a, b, precision);
    }
  }

  lemma PairsWithinCells(a: Mat, b: Mat, precision: real)
    requires Rectangular(a) && Rectangular(b) && SameShape(a, b)
    requires PairsWithin(Flatten(a), Flatten(b), precision)
    ensures CellsWithin(a, b, precision)
  {
    forall i, j | 0 <= i < Height(a) && 0 <= j < Width(a)
      ensures Abs(a[i][j] - b[i][j]) <= precision
    {
      FlattenAt(a, i, j);
      FlattenAt(b, i, j);
    }
  }

  lemma CellsWithinPairs(a: Mat, b: Mat, precision: real)
    requires Rectangular(a) && Rectangular(b) && SameShape(a, b)
    requires CellsWithin(a, b, precision)
    ensures PairsWithin(Flatten(a), Flatten(b), precision)
  {
    FlattenLength(a);
    FlattenLength(b);
    forall k | 0 <= k < |Flatten(a)|
      ensures Abs(Flatten(a)[k] - Flatten(b)[k]) <= precision
    {
      FlattenIndex(a, k);
      FlattenIndex(b, k);
    }
  }

  /** `equalTo(_:precision:)`: no dimension check, only the overlapping
      prefix of the two row-major element views is compared. */
  function EqualTo(a: Mat, b: Mat, precision: real): (close: bool)
    requires Rectangular(a) && Rectangular(b)
    ensures SameShape(a, b) ==> (close <==> CellsWithin(a, b, precision))
    ensures Height(a) * Width(a) == 0 || Height(b) * Width(b) == 0 ==> close
  {
    FlattenLength(a);
    FlattenLength(b);
    if SameShape(a, b) then
      FlattenWithin(a, b, precision);
      PairsWithin(Flatten(a), Flatten(b), precision)
    else
      PairsWithin(Flatten(a), Flatten(b), precision)
  }

  /** The floating-point `==`: dimensions must agree and every pair of
      elements must be within the tolerance. */
  function ApproxEquals(a: Mat, b: Mat): (close: bool)
    requires Rectangular(a) && Rectangular(b)
    ensures close <==> SameShape(a, b) && CellsWithin(a, b, Tolerance)
  {
    if Height(a) != Height(b) || Width(a) != Width(b) then false
    else EqualTo(a, b, Tolerance)
  }

  /** The tolerance comparison is reflexive and symmetric (it is not
      transitive). */
  lemma ApproxEqualsReflexiveSymmetric(a: Mat, b: Mat)
    requires Rectangular(a) && Rectangular(b)
    ensures ApproxEquals(a, a)
    ensures ApproxEquals(a, b) <==> ApproxEquals(b, a)
  {
  }

  // -------------------------------------------------------------- arithmetic

  /** The products `left[i][k] * right[k][j]` that make up entry `(i, j)`
      of the product, in the order the innermost loop adds them. */
  function Terms(left: Mat, right: Mat, i: nat, j: nat): (t: seq<real>)
    requires Rectangular(left) && Rectangular(right) && Width(left) == Height(right)
    requires i < Height(left) && j < Width(right)
    ensures |t| == Width(left)
    ensures forall k :: 0 <= k < |t| ==> t[k] == left[i][k] * right[k][j]
  {
    seq(Width(left), k requires 0 <= k < Width(left) => left[i][k] * right[k][j])
  }

  /** The product of compatible matrices. */
  function Product(left: Mat, right: Mat): (p: Mat)
    requires Rectangular(left) && Rectangular(right) && Width(left) == Height(right)
    ensures HasShape(p, Height(left), Width(right)) && Rectangular(p)
    ensures forall i, j :: 0 <= i < Height(left) && 0 <= j < Width(right) ==> p[i][j] == Total(Terms(left, right, i, j))
  {
    seq(Height(left), i requires 0 <= i < Height(left) =>
      seq(Width(right), j requires 0 <= j < Width(right) => Total(Terms(left, right, i, j))))
  }

  /** The throwing `*`: fails exactly when the left width differs from the
      right height; otherwise entry `(i, j)` sums `left[i][k] * right[k][j]`
      over `k`. */
  function Mul(left: Mat, right: Mat): (r: Result<Mat, MatrixError>)
    requires Rectangular(left) && Rectangular(right)
    ensures r.Err? <==> Width(left) != Height(right)
    ensures r.Err? ==> r.error == SizesDontMatch
    ensures r.Ok? ==> HasShape(r.value, Height(left), Width(right))
    ensures r.Ok? ==> forall i, j :: 0 <= i < Height(left) && 0 <= j < Width(right) ==>
      r.value[i][j] == Total(Terms(left, right, i, j))
    ensures r.Ok? ==> r.value == Product(left, right)
  {
    if Width(left) != Height(right) then Err(SizesDontMatch)
    else Ok(Product(left, right))
  }

  function Plus(left: Mat, right: Mat): (s: Mat)
    requires Rectangular(left) && Rectangular(right) && SameShape(left, right)
    ensures HasShape(s, Height(left), Width(left)) && Rectangular(s)
  {
    seq(Height(left), i requires 0 <= i < Height(left) =>
      seq(Width(left), j requires 0 <= j < Width(left) => left[i][j] + right[i][j]))
  }

  function Minus(left: Mat, right: Mat): (s: Mat)
    requires Rectangular(left) && Rectangular(right) && SameShape(left, right)
    ensures HasShape(s, Height(left), Width(left)) && Rectangular(s)
  {
    seq(Height(left), i requires 0 <= i < Height(left) =>
      seq(Width(left), j requires 0 <= j < Width(left) => left[i][j] - right[i][j]))
  }

  /** The throwing `+`: element-wise, failing exactly on a shape mismatch. */
  function Add(left: Mat, right: Mat): (r: Result<Mat, MatrixError>)
    requires Rectangular(left) && Rectangular(right)
    ensures r.Err? <==> !SameShape(left, right)
    ensures r.Err? ==> r.error == SizesDontMatch
    ensures r.Ok? ==> HasShape(r.value, Height(left), Width(left))
    ensures r.Ok? ==> forall i, j :: 0 <= i < Height(left) && 0 <= j < Width(left) ==> r.value[i][j] == left[i][j] + right[i][j]
  {
    if !SameShape(left, right) then Err(SizesDontMatch)
    else Ok(Plus(left, right))
  }

  /** The throwing `-`: element-wise, failing exactly on a shape mismatch. */
  function Sub(left: Mat, right: Mat): (r: Result<Mat, MatrixError>)
    requires Rectangular(left) && Rectangular(right)
    ensures r.Err? <==> !SameShape(left, right)
    ensures r.Err? ==> r.error == SizesDontMatch
    ensures r.Ok? ==> HasShape(r.value, Height(left), Width(left))
    ensures r.Ok? ==> forall i, j :: 0 <= i < Height(left) && 0 <= j < Width(left) ==> r.value[i][j] == left[i][j] - right[i][j]
  {
    if !SameShape(left, right) then Err(SizesDontMatch)
    else Ok(Minus(left, right))
  }

  /** Subtracting what was added gives back the original matrix. */
  lemma AddThenSub(a: Mat, b: Mat)
    requires Rectangular(a) && Rectangular(b) && SameShape(a, b)
    ensures Add(a, b).Ok?
    ensures Sub(Add(a, b).value, b) == Ok(a)
  {
    var s := Add(a, b).value;
    HasShapeDims(s, Height(a), Width(a));
    assert SameShape(s, b);
    var d := Sub(s, b).value;
    assert |d| == |a|;
    forall i | 0 <= i < |a|
      ensures d[i] == a[i]
    {
      assert |d[i]| == |a[i]|;
      forall j | 0 <= j < |a[i]|
        ensures d[i][j] == a[i][j]
      {
        assert d[i][j] == s[i][j] - b[i][j];
      }
    }
    assert d == a;
  }

  // ---------------------------------------------------------- quantization


  /** `q` is `y` with its fraction discarded toward zero. */
  predicate TruncationOf(y: real, q: int)
  {
    if y >= 0.0 then 0 <= q && q as real <= y < q as real + 1.0
    else q <= 0 && q as real - 1.0 < y <= q as real
  }

  /** Conversion of a real to an integer, discarding the fraction toward
      zero as Swift's `Int(Double)` does. */
  function Truncate(y: real): (q: int)
    ensures TruncationOf(y, q)
  {
    if y >= 0.0 then y.Floor else -((-y).Floor)
  }

  /** A real has one truncation, and an integral one truncates to itself. */
  lemma TruncationUnique(y: real, q1: int, q2: int)
    requires TruncationOf(y, q1) && TruncationOf(y, q2)
    ensures q1 == q2
  {
  }

  /** `a` lies between 0 and `x` (inclusive) and less than `width` from `x`. */
  predicate Window(x: real, a: real, width: real)
  {
    if x >= 0.0 then 0.0 <= a <= x && x - a < width
    else x <= a <= 0.0 && a - x < width
  }

  /** `q` is `x / d` truncated toward zero: the multiple `q * d` lies
      between 0 and `x` and is less than one divisor away from `x`. */
  predicate Quantized(x: real, d: int, q: int)
  {
    Window(x, q as real * d as real, Abs(d as real))
  }

  /** The truncated quotient satisfies `Quantized`. */
  lemma QuantizeCellBounds(x: real, d: int, y: real, q: int)
    requires d != 0 && x == y * d as real && TruncationOf(y, q)
    ensures Quantized(x, d, q)
  {
    var dr, qr := d as real, q as real;
    ProductSigns(x, y, q, dr);
    WindowOf(x, qr * dr, x - qr * dr, dr, y);
  }

  /** The sign facts about `x = y·dr`, `p = q·dr` and `e = (y - q)·dr`
      for a `q` that truncates `y`. */
  predicate ProductFacts(x: real, p: real, e: real, dr: real, y: real)
  {
    dr != 0.0 && x - p == e && Abs(e) < Abs(dr) &&
    (y >= 0.0 && dr > 0.0 ==> x >= 0.0 && p >= 0.0 && e >= 0.0) &&
    (y >= 0.0 && dr < 0.0 ==> x <= 0.0 && p <= 0.0 && e <= 0.0) &&
    (y < 0.0 && dr > 0.0 ==> x < 0.0 && p <= 0.0 && e <= 0.0) &&
    (y < 0.0 && dr < 0.0 ==> x > 0.0 && p >= 0.0 && e >= 0.0)
  }

  lemma ProductSigns(x: real, y: real, q: int, dr: real)
    requires dr != 0.0 && x == y * dr && TruncationOf(y, q)
    ensures ProductFacts(x, q as real * dr, x - q as real * dr, dr, y)
  {
    var qr := q as real;
    assert x - qr * dr == (y - qr) * dr;
    FractionTimes(y - qr, dr);
    SignTimes(y, dr);
    SignTimes(qr, dr);
  }

  /** The sign analysis behind `QuantizeCellBounds`, with the products as
      plain numbers. */
  lemma WindowOf(x: real, p: real, e: real, dr: real, y: real)
    requires ProductFacts(x, p, e, dr, y)
    ensures Window(x, p, Abs(dr))
  {
  }

  /** A fraction of `dr` is less than `dr` away from zero, on the side fixed by the signs. */
  lemma FractionTimes(f: real, dr: real)
    requires -1.0 < f < 1.0 && dr != 0.0
    ensures Abs(f * dr) < Abs(dr)
    ensures f >= 0.0 && dr > 0.0 ==> f * dr >= 0.0
    ensures f <= 0.0 && dr > 0.0 ==> f * dr <= 0.0
    ensures f >= 0.0 && dr < 0.0 ==> f * dr <= 0.0
    ensures f <= 0.0 && dr < 0.0 ==> f * dr >= 0.0
  {
  }

  lemma SignTimes(y: real, dr: real)
    ensures y >= 0.0 && dr > 0.0 ==> y * dr >= 0.0
    ensures y <= 0.0 && dr > 0.0 ==> y * dr <= 0.0
    ensures y >= 0.0 && dr < 0.0 ==> y * dr <= 0.0
    ensures y <= 0.0 && dr < 0.0 ==> y * dr >= 0.0
    ensures y > 0.0 && dr > 0.0 ==> y * dr > 0.0
    ensures y < 0.0 && dr < 0.0 ==> y * dr > 0.0
    ensures y > 0.0 && dr < 0.0 ==> y * dr < 0.0
    ensures y < 0.0 && dr > 0.0 ==> y * dr < 0.0
  {
  }

  /** The level of one cell: `x / d` truncated toward zero. */
  function QuantizeCell(x: real, d: int): (q: int)
    requires d != 0
    ensures Quantized(x, d, q)
  {
    var y := x / d as real;
    var q := Truncate(y);
    QuotientTimes(x, d as real);
    QuantizeCellBounds(x, d, y, q);
    q
  }

  predicate NonZero(d: Grid<int>)
  {
    forall i, j :: 0 <= i < |d| && 0 <= j < |d[i]| ==> d[i][j] != 0
  }

  /** `quantize(_:by:)`: each coefficient divided by its divisor and
      truncated toward zero; a shape mismatch throws. */
  function Quantize(coefficients: Mat, divisors: Grid<int>): (r: Result<Grid<int>, MatrixError>)
    requires Rectangular(coefficients) && Rectangular(divisors)
    requires SameShape(coefficients, divisors) ==> NonZero(divisors)
    ensures r.Err? <==> !SameShape(coefficients, divisors)
    ensures r.Err? ==> r.error == SizesDontMatch
    ensures r.Ok? ==> HasShape(r.value, Height(coefficients), Width(coefficients))
    ensures r.Ok? ==> forall i, j :: 0 <= i < Height(coefficients) && 0 <= j < Width(coefficients) ==>
      Quantized(coefficients[i][j], divisors[i][j], r.value[i][j])
  {
    if !SameShape(coefficients, divisors) then Err(SizesDontMatch)
    else
      Ok(seq(Height(coefficients), i requires 0 <= i < Height(coefficients) =>
        seq(Width(coefficients), j requires 0 <= j < Width(coefficients) =>
          QuantizeCell(coefficients[i][j], divisors[i][j]))))
  }

  /** `dequantize(_:by:)`: each level multiplied by its divisor; a shape
      mismatch throws. */
  function Dequantize(levels: Grid<int>, divisors: Grid<int>): (r: Result<Mat, MatrixError>)
    requires Rectangular(levels) && Rectangular(divisors)
    ensures r.Err? <==> !SameShape(levels, divisors)
    ensures r.Err? ==> r.error == SizesDontMatch
    ensures r.Ok? ==> HasShape(r.value, Height(levels), Width(levels))
    ensures r.Ok? ==> forall i, j :: 0 <= i < Height(levels) && 0 <= j < Width(levels) ==>
      r.value[i][j] == levels[i][j] as real * divisors[i][j] as real
  {
    if !SameShape(levels, divisors) then Err(SizesDontMatch)
    else
      Ok(seq(Height(levels), i requires 0 <= i < Height(levels) =>
        seq(Width(levels), j requires 0 <= j < Width(levels) =>
          (levels[i][j] * divisors[i][j]) as real)))
  }

  /** Integer levels survive a dequantize-quantize round trip exactly. */
  lemma DequantizeThenQuantize(levels: Grid<int>, divisors: Grid<int>)
    requires Rectangular(levels) && Rectangular(divisors) && NonZero(divisors)
    requires SameShape(levels, divisors)
    ensures Dequantize(levels, divisors).Ok?
    ensures Quantize(Dequantize(levels, divisors).value, divisors) == Ok(levels)
  {
    var c := Dequantize(levels, divisors).value;
    HasShapeDims(c, Height(levels), Width(levels));
    assert SameShape(c, divisors);
    var q := Quantize(c, divisors).value;
    HasShapeDims(q, Height(levels), Width(levels));
    forall i | 0 <= i < |levels|
      ensures q[i] == levels[i]
    {
      forall j | 0 <= j < |levels[i]|
        ensures q[i][j] == levels[i][j]
      {
        DequantizeThenQuantizeCell(levels, divisors, c, q, i, j);
      }
    }
    assert q == levels;
  }

  lemma DequantizeThenQuantizeCell(levels: Grid<int>, divisors: Grid<int>, c: Mat, q: Grid<int>, i: nat, j: nat)
    requires Rectangular(levels) && Rectangular(divisors) && NonZero(divisors)
    requires SameShape(levels, divisors)
    requires i < Height(levels) && j < Width(levels)
    requires Dequantize(levels, divisors) == Ok(c) && Rectangular(c) && SameShape(c, divisors)
    requires Quantize(c, divisors) == Ok(q)
    ensures q[i][j] == levels[i][j]
  {
    LevelRecovered(levels[i][j], divisors[i][j]);
  }

  /** The level of `l * d` is `l`. */
  lemma LevelRecovered(l: int, d: int)
    requires d != 0
    ensures QuantizeCell(l as real * d as real, d) == l
  {
    var dr := d as real;
    var y := (l as real * dr) / dr;
    QuotientOfMultiple(l as real, dr);
    assert y == l as real;
    TruncateIntegral(l);
    assert QuantizeCell(l as real * dr, d) == Truncate(y);
  }

  lemma QuotientTimes(x: real, dr: real)
    requires dr != 0.0
    ensures (x / dr) * dr == x
  {
  }

  lemma QuotientOfMultiple(x: real, dr: real)
    requires dr != 0.0
    ensures (x * dr) / dr == x
  {
  }

  /** An integral value truncates to itself. */
  lemma TruncateIntegral(k: int)
    ensures Truncate(k as real) == k
  {
    TruncationUnique(k as real, Truncate(k as real), k);
  }

  /** Quantizing then dequantizing loses less than one divisor per cell, and
      nothing at all where the coefficient was already a multiple. */
  lemma QuantizeThenDequantize(coefficients: Mat, divisors: Grid<int>)
    requires Rectangular(coefficients) && Rectangular(divisors) && NonZero(divisors)
    requires SameShape(coefficients, divisors)
    ensures Quantize(coefficients, divisors).Ok?
    ensures Dequantize(Quantize(coefficients, divisors).value, divisors).Ok?
    ensures var back := Dequantize(Quantize(coefficients, divisors).value, divisors).value;
      forall i, j :: 0 <= i < Height(coefficients) && 0 <= j < Width(coefficients) ==>
        Abs(back[i][j] - coefficients[i][j]) < Abs(divisors[i][j] as real) &&
        (IsMultiple(coefficients[i][j], divisors[i][j]) ==> back[i][j] == coefficients[i][j])
  {
    var q := Quantize(coefficients, divisors).value;
    HasShapeDims(q, Height(coefficients), Width(coefficients));
    var back := Dequantize(q, divisors).value;
    forall i, j | 0 <= i < Height(coefficients) && 0 <= j < Width(coefficients)
      ensures Abs(back[i][j] - coefficients[i][j]) < Abs(divisors[i][j] as real)
      ensures IsMultiple(coefficients[i][j], divisors[i][j]) ==> back[i][j] == coefficients[i][j]
    {
      QuantizeThenDequantizeCell(coefficients, divisors, q, back, i, j);
    }
  }

  lemma QuantizeThenDequantizeCell(coefficients: Mat, divisors: Grid<int>, q: Grid<int>, back: Mat, i: nat, j: nat)
    requires Rectangular(coefficients) && Rectangular(divisors) && NonZero(divisors)
    requires SameShape(coefficients, divisors)
    requires i < Height(coefficients) && j < Width(coefficients)
    requires Quantize(coefficients, divisors) == Ok(q) && Rectangular(q) && SameShape(q, divisors)
    requires Dequantize(q, divisors) == Ok(back)
    ensures Abs(back[i][j] - coefficients[i][j]) < Abs(divisors[i][j] as real)
    ensures IsMultiple(coefficients[i][j], divisors[i][j]) ==> back[i][j] == coefficients[i][j]
  {
    CellReconstruction(coefficients[i][j], divisors[i][j], q[i][j]);
  }

  /** A quantized level scaled back is within one divisor of the original,
      and equal to it when the original was a multiple. */
  lemma CellReconstruction(x: real, d: int, q: int)
    requires d != 0 && q == QuantizeCell(x, d)
    ensures Abs(q as real * d as real - x) < Abs(d as real)
    ensures IsMultiple(x, d) ==> q as real * d as real == x
  {
    if IsMultiple(x, d) {
      var y := x / d as real;
      TruncationUnique(y, q, y.Floor);
      assert x == y * d as real;
    }
  }

  /** `x` is a whole multiple of the non-zero divisor `d`. */
  predicate IsMultiple(x: real, d: int)
    requires d != 0
  {
    var y := x / d as real;
    y.Floor as real == y
  }

}
