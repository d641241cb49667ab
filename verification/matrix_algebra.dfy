/** Algebraic laws of the real-valued matrix operators: the facts the DCT
    stage relies on when it chains two products. */
module MatrixAlgebra {
  import opened Results
  import opened Sums
  import opened Matrix

  /** The `n`-by-`n` identity. */
  function Identity(n: nat): (id: Mat)
    ensures HasShape(id, n, n) && Rectangular(id)
  {
    seq(n, i requires 0 <= i < n => seq(n, j requires 0 <= j < n => if i == j then 1.0 else 0.0))
  }

  // ------------------------------------------------------------ associativity

  /** The table of triple products behind entry `(i, j)` of `a * b * c`:
      row `l`, column `k` holds `a[i][k] * b[k][l] * c[l][j]`. */
  function Triples(a: Mat, b: Mat, c: Mat, i: nat, j: nat): (g: seq<seq<real>>)
    requires Rectangular(a) && Rectangular(b) && Rectangular(c)
    requires Width(a) == Height(b) && Width(b) == Height(c)
    requires i < Height(a) && j < Width(c)
    ensures HasShape(g, Width(b), Width(a)) && Rectangular(g)
    ensures forall l, k :: 0 <= l < Width(b) && 0 <= k < Width(a) ==> g[l][k] == a[i][k] * b[k][l] * c[l][j]
  {
    seq(Width(b), l requires 0 <= l < Width(b) =>
      seq(Width(a), k requires 0 <= k < Width(a) => a[i][k] * b[k][l] * c[l][j]))
  }

  /** Summing the table row by row is summing `(a * b)[i][l] * c[l][j]`. */
  lemma {:induction false} TriplesByRow(a: Mat, b: Mat, c: Mat, i: nat, j: nat)
    requires Rectangular(a) && Rectangular(b) && Rectangular(c)
    requires Width(a) == Height(b) && Width(b) == Height(c)
    requires i < Height(a) && j < Width(c)
    ensures Width(Product(a, b)) == Height(c)
    ensures Terms(Product(a, b), c, i, j) == RowTotals(Triples(a, b, c, i, j))
  {
    var g, left := Triples(a, b, c, i, j), Terms(Product(a, b), c, i, j);
    forall l | 0 <= l < Width(b)
      ensures left[l] == RowTotals(g)[l]
    {
      TriplesRow(a, b, c, i, j, l);
    }
  }

  /** Row `l` of the table is `c[l][j]` times the terms of `(a * b)[i][l]`. */
  lemma TriplesRow(a: Mat, b: Mat, c: Mat, i: nat, j: nat, l: nat)
    requires Rectangular(a) && Rectangular(b) && Rectangular(c)
    requires Width(a) == Height(b) && Width(b) == Height(c)
    requires i < Height(a) && j < Width(c) && l < Width(b)
    ensures Total(Triples(a, b, c, i, j)[l]) == Total(Terms(a, b, i, l)) * c[l][j]
  {
    var row, t := Triples(a, b, c, i, j)[l], Terms(a, b, i, l);
    forall k | 0 <= k < |row|
      ensures row[k] == c[l][j] * t[k]
    {
      assert row[k] == a[i][k] * b[k][l] * c[l][j];
    }
    TotalScale(t, c[l][j], row);
  }

  /** Summing the table column by column is summing `a[i][k] * (b * c)[k][j]`. */
  lemma {:induction false} TriplesByColumn(a: Mat, b: Mat, c: Mat, i: nat, j: nat)
    requires Rectangular(a) && Rectangular(b) && Rectangular(c)
    requires Width(a) == Height(b) && Width(b) == Height(c)
    requires i < Height(a) && j < Width(c)
    ensures Width(Product(b, c)) == Width(c)
    ensures Terms(a, Product(b, c), i, j) == ColumnTotals(Triples(a, b, c, i, j), Width(a))
  {
    var g, right := Triples(a, b, c, i, j), Terms(a, Product(b, c), i, j);
    forall k | 0 <= k < Width(a)
      ensures right[k] == ColumnTotals(g, Width(a))[k]
    {
      TriplesColumn(a, b, c, i, j, k);
    }
  }

  /** Column `k` of the table is `a[i][k]` times the terms of `(b * c)[k][j]`. */
  lemma TriplesColumn(a: Mat, b: Mat, c: Mat, i: nat, j: nat, k: nat)
    requires Rectangular(a) && Rectangular(b) && Rectangular(c)
    requires Width(a) == Height(b) && Width(b) == Height(c)
    requires i < Height(a) && j < Width(c) && k < Width(a)
    ensures Total(ColumnOf(Triples(a, b, c, i, j), k)) == a[i][k] * Total(Terms(b, c, k, j))
  {
    var g, t := Triples(a, b, c, i, j), Terms(b, c, k, j);
    var col := ColumnOf(g, k);
    forall l | 0 <= l < |col|
      ensures col[l] == a[i][k] * t[l]
    {
      assert col[l] == a[i][k] * b[k][l] * c[l][j];
    }
    TotalScale(t, a[i][k], col);
  }

  /** One entry of `(a * b) * c` and of `a * (b * c)`: both are the total of
      the same table of triple products, summed in the two orders. */
  lemma ProductAssociativeAt(a: Mat, b: Mat, c: Mat, i: nat, j: nat)
    requires Rectangular(a) && Rectangular(b) && Rectangular(c)
    requires Width(a) == Height(b) && Width(b) == Height(c)
    requires i < Height(a) && j < Width(c)
    ensures Width(Product(a, b)) == Height(c) && Width(Product(b, c)) == Width(c)
    ensures Product(Product(a, b), c)[i][j] == Product(a, Product(b, c))[i][j]
  {
    TriplesByRow(a, b, c, i, j);
    TriplesByColumn(a, b, c, i, j);
    TotalSwap(Triples(a, b, c, i, j), Width(a));
  }

  /** The product is associative: `(a * b) * c == a * (b * c)` whenever the
      shapes chain. */
  lemma ProductAssociative(a: Mat, b: Mat, c: Mat)
    requires Rectangular(a) && Rectangular(b) && Rectangular(c)
    requires Width(a) == Height(b) && Width(b) == Height(c)
    ensures Width(Product(a, b)) == Height(c)
    ensures Product(Product(a, b), c) == Product(a, Product(b, c))
  {
    var lhs, rhs := Product(Product(a, b), c), Product(a, Product(b, c));
    assert |lhs| == |rhs|;
    forall i | 0 <= i < |lhs|
      ensures lhs[i] == rhs[i]
    {
      if Width(c) > 0 {
        ProductAssociativeAt(a, b, c, i, 0);
      }
      forall j | 0 <= j < Width(c)
        ensures lhs[i][j] == rhs[i][j]
      {
        ProductAssociativeAt(a, b, c, i, j);
      }
    }
  }

  /** The throwing `*` is associative: both bracketings succeed together and
      agree. */
  lemma MulAssociative(a: Mat, b: Mat, c: Mat)
    requires Rectangular(a) && Rectangular(b) && Rectangular(c)
    requires Width(a) == Height(b) && Width(b) == Height(c)
    ensures Mul(a, b).Ok? && Mul(b, c).Ok?
    ensures Mul(Mul(a, b).value, c).Ok?
    ensures Mul(Mul(a, b).value, c) == Mul(a, Mul(b, c).value)
  {
    ProductAssociative(a, b, c);
  }

  // ---------------------------------------------------- transpose of product

  /** `(a * b)^T == b^T * a^T` when no dimension is zero (a zero dimension
      makes the transposes forget a height). */
  lemma ProductTranspose(a: Mat, b: Mat)
    requires Rectangular(a) && Rectangular(b) && Width(a) == Height(b)
    requires Height(a) > 0 && Width(a) > 0 && Width(b) > 0
    ensures Width(Transpose(b)) == Height(Transpose(a))
    ensures Transpose(Product(a, b)) == Product(Transpose(b), Transpose(a))
  {
    var lhs, rhs := Transpose(Product(a, b)), Product(Transpose(b), Transpose(a));
    forall i | 0 <= i < |lhs|
      ensures lhs[i] == rhs[i]
    {
      forall j | 0 <= j < Height(a)
        ensures lhs[i][j] == rhs[i][j]
      {
        TermsTranspose(a, b, j, i);
      }
    }
  }

  /** The terms of entry `(i, j)` of `b^T * a^T` are those of entry `(j, i)`
      of `a * b`, each with its factors swapped. */
  lemma TermsTranspose(a: Mat, b: Mat, i: nat, j: nat)
    requires Rectangular(a) && Rectangular(b) && Width(a) == Height(b)
    requires Height(a) > 0 && Width(a) > 0 && Width(b) > 0
    requires i < Height(a) && j < Width(b)
    ensures Width(Transpose(b)) == Height(Transpose(a))
    ensures Terms(Transpose(b), Transpose(a), j, i) == Terms(a, b, i, j)
  {
    var tb, ta := Transpose(b), Transpose(a);
    var s, t := Terms(tb, ta, j, i), Terms(a, b, i, j);
    forall k | 0 <= k < |s|
      ensures s[k] == t[k]
    {
      assert tb[j][k] == b[k][j] && ta[k][i] == a[i][k];
    }
  }

  // ----------------------------------------------------------- distributivity

  /** `a * (b + c) == a * b + a * c`. */
  lemma ProductDistributesLeft(a: Mat, b: Mat, c: Mat)
    requires Rectangular(a) && Rectangular(b) && Rectangular(c)
    requires SameShape(b, c) && Width(a) == Height(b)
    ensures SameShape(Product(a, b), Product(a, c))
    ensures Product(a, Plus(b, c)) == Plus(Product(a, b), Product(a, c))
  {
    var bc := Plus(b, c);
    var lhs, rhs := Product(a, bc), Plus(Product(a, b), Product(a, c));
    assert |lhs| == |rhs|;
    forall i | 0 <= i < |lhs|
      ensures lhs[i] == rhs[i]
    {
      forall j | 0 <= j < Width(b)
        ensures lhs[i][j] == rhs[i][j]
      {
        DistributeLeftCell(a, b, c, i, j);
      }
    }
  }

  /** `(a + b) * c == a * c + b * c`. */
  lemma ProductDistributesRight(a: Mat, b: Mat, c: Mat)
    requires Rectangular(a) && Rectangular(b) && Rectangular(c)
    requires SameShape(a, b) && Width(a) == Height(c)
    ensures SameShape(Product(a, c), Product(b, c))
    ensures Product(Plus(a, b), c) == Plus(Product(a, c), Product(b, c))
  {
    var ab := Plus(a, b);
    var lhs, rhs := Product(ab, c), Plus(Product(a, c), Product(b, c));
    assert |lhs| == |rhs|;
    forall i | 0 <= i < |lhs|
      ensures lhs[i] == rhs[i]
    {
      forall j | 0 <= j < Width(c)
        ensures lhs[i][j] == rhs[i][j]
      {
        DistributeRightCell(a, b, c, i, j);
      }
    }
  }

  /** Entry `(i, j)` of `a * (b + c)` is the sum of the two entries. */
  lemma DistributeLeftCell(a: Mat, b: Mat, c: Mat, i: nat, j: nat)
    requires Rectangular(a) && Rectangular(b) && Rectangular(c)
    requires SameShape(b, c) && Width(a) == Height(b)
    requires i < Height(a) && j < Width(b)
    ensures Total(Terms(a, Plus(b, c), i, j)) == Total(Terms(a, b, i, j)) + Total(Terms(a, c, i, j))
  {
    var x, y, z := Terms(a, b, i, j), Terms(a, c, i, j), Terms(a, Plus(b, c), i, j);
    forall k | 0 <= k < |z|
      ensures z[k] == x[k] + y[k]
    {
      assert Plus(b, c)[k][j] == b[k][j] + c[k][j];
    }
    TotalAdd(x, y, z);
  }

  /** Entry `(i, j)` of `(a + b) * c` is the sum of the two entries. */
  lemma DistributeRightCell(a: Mat, b: Mat, c: Mat, i: nat, j: nat)
    requires Rectangular(a) && Rectangular(b) && Rectangular(c)
    requires SameShape(a, b) && Width(a) == Height(c)
    requires i < Height(a) && j < Width(c)
    ensures Total(Terms(Plus(a, b), c, i, j)) == Total(Terms(a, c, i, j)) + Total(Terms(b, c, i, j))
  {
    var x, y, z := Terms(a, c, i, j), Terms(b, c, i, j), Terms(Plus(a, b), c, i, j);
    forall k | 0 <= k < |z|
      ensures z[k] == x[k] + y[k]
    {
      assert Plus(a, b)[i][k] == a[i][k] + b[i][k];
    }
    TotalAdd(x, y, z);
  }

  // ----------------------------------------------------------------- identity

  /** Multiplying by the identity on either side changes nothing. */
  lemma ProductIdentity(s: Mat)
    requires Rectangular(s)
    ensures Product(Identity(Height(s)), s) == s
    ensures Product(s, Identity(Width(s))) == s
  {
    IdentityLeft(s);
    IdentityRight(s);
  }

  lemma IdentityLeft(s: Mat)
    requires Rectangular(s)
    ensures Product(Identity(Height(s)), s) == s
  {
    var p := Product(Identity(Height(s)), s);
    forall i | 0 <= i < Height(s)
      ensures p[i] == s[i]
    {
      forall j | 0 <= j < Width(s)
        ensures p[i][j] == s[i][j]
      {
        IdentityLeftCell(s, i, j);
      }
    }
  }

  lemma IdentityRight(s: Mat)
    requires Rectangular(s)
    ensures Product(s, Identity(Width(s))) == s
  {
    var p := Product(s, Identity(Width(s)));
    forall i | 0 <= i < Height(s)
      ensures p[i] == s[i]
    {
      forall j | 0 <= j < Width(s)
        ensures p[i][j] == s[i][j]
      {
        IdentityRightCell(s, i, j);
      }
    }
  }

  /** Only the diagonal term of row `i` of the identity survives. */
  lemma IdentityLeftCell(s: Mat, i: nat, j: nat)
    requires Rectangular(s) && i < Height(s) && j < Width(s)
    ensures Total(Terms(Identity(Height(s)), s, i, j)) == s[i][j]
  {
    var t := Terms(Identity(Height(s)), s, i, j);
    assert t[i] == s[i][j];
    TotalSingle(t, i);
  }

  /** Only the diagonal term of column `j` of the identity survives. */
  lemma IdentityRightCell(s: Mat, i: nat, j: nat)
    requires Rectangular(s) && i < Height(s) && j < Width(s)
    ensures Total(Terms(s, Identity(Width(s)), i, j)) == s[i][j]
  {
    var t := Terms(s, Identity(Width(s)), i, j);
    assert t[j] == s[i][j];
    TotalSingle(t, j);
  }

}
