/** The forward and inverse discrete cosine transform of an 8-by-8 block,
    written as two matrix products with a fixed cosine basis: the FDCT and
    IDCT of ITU-T T.81 section A.3.3 in matrix form.

    The cosine values themselves are not computed: `cosine` is a parameter
    standing for `m ↦ cos(m·π/16)`, and the orthonormality those values give
    the basis is a named hypothesis of the lemmas that need it. */
module JpegProcessing {
  import opened Results
  import opened Matrix
  import opened MatrixAlgebra

  /** Side of the transform block. */
  const N: nat := 8

  /** Half the cosine of `multiplier·π/16`. */
  function Pi(cosine: real -> real, multiplier: real): real
  {
    cosine(multiplier) / 2.0
  }

  /** The basis: row 0 is the constant `cos(π/4)/2`, row `i > 0` holds
      `cos((2j+1)·i·π/16)/2` in column `j`. */
  function DctMatrix(cosine: real -> real): (b: Mat)
    ensures HasShape(b, N, N) && Rectangular(b)
    ensures forall j :: 0 <= j < N ==> b[0][j] == Pi(cosine, 4.0)
    ensures forall i, j :: 0 < i < N && 0 <= j < N ==> b[i][j] == Pi(cosine, ((2 * j + 1) * i) as real)
  {
    seq(N, i requires 0 <= i < N => seq(N, j requires 0 <= j < N =>
      if i == 0 then Pi(cosine, 4.0) else Pi(cosine, ((j * 2 + 1) * i) as real)))
  }

  /** The basis coefficient of ITU-T T.81 section A.3.3:
      `C(u)/2 · cos((2x+1)·u·π/16)` with `C(0) = 1/√2` (here `cos(π/4)`)
      and `C(u) = 1` otherwise. */
  function T81Coefficient(cosine: real -> real, u: nat, x: nat): real
  {
    (if u == 0 then cosine(4.0) else 1.0) / 2.0 * cosine(((2 * x + 1) * u) as real)
  }

  /** Given `cos(0) = 1`, the basis is the coefficient table of T.81: row 0's
      constant `cos(π/4)/2` is `C(0)/2 · cos(0)`. */
  lemma BasisIsT81(cosine: real -> real, u: nat, x: nat)
    requires cosine(0.0) == 1.0
    requires u < N && x < N
    ensures DctMatrix(cosine)[u][x] == T81Coefficient(cosine, u, x)
  {
    if u == 0 {
      assert ((2 * x + 1) * u) as real == 0.0;
    }
  }

  /** The forward transform `(B·S)·Bᵀ`, each product throwing on a shape
      mismatch. */
  function Dct(cosine: real -> real, source: Mat): (r: Result<Mat, MatrixError>)
    requires Rectangular(source)
    ensures r.Err? <==> !HasShape(source, N, N)
    ensures r.Err? ==> r.error == SizesDontMatch
    ensures r.Ok? ==> HasShape(r.value, N, N)
    ensures r.Ok? ==> r.value == Product(Product(DctMatrix(cosine), source), Transpose(DctMatrix(cosine)))
  {
    var b := DctMatrix(cosine);
    match Mul(b, source)
    case Err(e) => Err(e)
    case Ok(bs) => Mul(bs, Transpose(b))
  }

  /** The inverse transform `(Bᵀ·S)·B`, each product throwing on a shape
      mismatch. */
  function ReverseDct(cosine: real -> real, source: Mat): (r: Result<Mat, MatrixError>)
    requires Rectangular(source)
    ensures r.Err? <==> !HasShape(source, N, N)
    ensures r.Err? ==> r.error == SizesDontMatch
    ensures r.Ok? ==> HasShape(r.value, N, N)
    ensures r.Ok? ==> r.value == Product(Product(Transpose(DctMatrix(cosine)), source), DctMatrix(cosine))
  {
    var b := DctMatrix(cosine);
    match Mul(Transpose(b), source)
    case Err(e) => Err(e)
    case Ok(bs) => Mul(bs, b)
  }

  // ------------------------------------------------------------ symmetry

  /** `(P·S)·Pᵀ` commutes with transposition for any square `P` of the block's
      size. */
  lemma SandwichTranspose(p: Mat, s: Mat)
    requires HasShape(p, N, N) && HasShape(s, N, N)
    ensures Transpose(Product(Product(p, s), Transpose(p)))
         == Product(Product(p, Transpose(s)), Transpose(p))
  {
    var t := Transpose(p);
    var ps := Product(p, s);
    ProductTranspose(ps, t);
    TransposeTwice(p);
    ProductTranspose(p, s);
    ProductAssociative(p, Transpose(s), t);
  }

  /** Transposing the block transposes its transform. */
  lemma DctTranspose(cosine: real -> real, s: Mat)
    requires HasShape(s, N, N)
    ensures Dct(cosine, s).Ok?
    ensures Dct(cosine, Transpose(s)) == Ok(Transpose(Dct(cosine, s).value))
  {
    SandwichTranspose(DctMatrix(cosine), s);
  }

  /** Transposing the coefficients transposes the reconstructed block. */
  lemma ReverseDctTranspose(cosine: real -> real, s: Mat)
    requires HasShape(s, N, N)
    ensures ReverseDct(cosine, s).Ok?
    ensures ReverseDct(cosine, Transpose(s)) == Ok(Transpose(ReverseDct(cosine, s).value))
  {
    var b := DctMatrix(cosine);
    TransposeTwice(b);
    SandwichTranspose(Transpose(b), s);
  }

  // ------------------------------------------------------------ linearity

  /** `(P·(S₁+S₂))·Q == (P·S₁)·Q + (P·S₂)·Q`. */
  lemma SandwichLinear(p: Mat, q: Mat, s1: Mat, s2: Mat)
    requires HasShape(p, N, N) && HasShape(q, N, N)
    requires HasShape(s1, N, N) && HasShape(s2, N, N)
    ensures Product(Product(p, Plus(s1, s2)), q)
         == Plus(Product(Product(p, s1), q), Product(Product(p, s2), q))
  {
    ProductDistributesLeft(p, s1, s2);
    ProductDistributesRight(Product(p, s1), Product(p, s2), q);
  }

  /** The forward transform is additive. */
  lemma DctLinear(cosine: real -> real, s1: Mat, s2: Mat)
    requires HasShape(s1, N, N) && HasShape(s2, N, N)
    ensures Add(s1, s2).Ok? && Dct(cosine, s1).Ok? && Dct(cosine, s2).Ok?
    ensures Dct(cosine, Add(s1, s2).value) == Add(Dct(cosine, s1).value, Dct(cosine, s2).value)
  {
    var b := DctMatrix(cosine);
    SandwichLinear(b, Transpose(b), s1, s2);
  }

  /** The inverse transform is additive. */
  lemma ReverseDctLinear(cosine: real -> real, s1: Mat, s2: Mat)
    requires HasShape(s1, N, N) && HasShape(s2, N, N)
    ensures Add(s1, s2).Ok? && ReverseDct(cosine, s1).Ok? && ReverseDct(cosine, s2).Ok?
    ensures ReverseDct(cosine, Add(s1, s2).value) == Add(ReverseDct(cosine, s1).value, ReverseDct(cosine, s2).value)
  {
    var b := DctMatrix(cosine);
    SandwichLinear(Transpose(b), b, s1, s2);
  }

  // ------------------------------------------------------------ round trips

  /** The orthonormality the true cosines give the basis: `Bᵀ·B == I` and
      `B·Bᵀ == I`. It needs trigonometry, so it is a hypothesis here. */
  predicate Orthonormal(b: Mat)
    requires HasShape(b, N, N)
  {
    Product(Transpose(b), b) == Identity(N) && Product(b, Transpose(b)) == Identity(N)
  }

  /** `(Q·((P·S)·Q'))·P' == S` when `Q·P == I` and `Q'·P' == I`. */
  lemma SandwichCancel(p: Mat, p2: Mat, q: Mat, q2: Mat, s: Mat)
    requires HasShape(p, N, N) && HasShape(p2, N, N) && HasShape(q, N, N) && HasShape(q2, N, N)
    requires HasShape(s, N, N)
    requires Product(q, p) == Identity(N) && Product(q2, p2) == Identity(N)
    ensures Product(Product(q, Product(Product(p, s), q2)), p2) == s
  {
    var ps := Product(p, s);
    ProductAssociative(q, ps, q2);
    ProductAssociative(q, p, s);
    ProductIdentity(s);
    ProductAssociative(s, q2, p2);
  }

  /** Inverting the forward transform gives the block back. */
  lemma ReverseDctOfDct(cosine: real -> real, s: Mat)
    requires HasShape(s, N, N) && Orthonormal(DctMatrix(cosine))
    ensures Dct(cosine, s).Ok?
    ensures ReverseDct(cosine, Dct(cosine, s).value) == Ok(s)
  {
    var b := DctMatrix(cosine);
    SandwichCancel(b, b, Transpose(b), Transpose(b), s);
  }

  /** Transforming a reconstructed block gives the coefficients back. */
  lemma DctOfReverseDct(cosine: real -> real, s: Mat)
    requires HasShape(s, N, N) && Orthonormal(DctMatrix(cosine))
    ensures ReverseDct(cosine, s).Ok?
    ensures Dct(cosine, ReverseDct(cosine, s).value) == Ok(s)
  {
    var b := DctMatrix(cosine);
    TransposeTwice(b);
    SandwichCancel(Transpose(b), Transpose(b), b, b, s);
  }
}
