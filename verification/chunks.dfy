/** Splitting an image plane into the grid of 8-by-8 blocks the transform
    works on, zero-padding past the bottom and right edges. */
module Chunks {
  import opened Matrix

  /** Side of a block. */
  const BlockSize: nat := 8

  /** Ceiling of `a / 8`: the number of blocks needed to cover `a` cells. */
  function BlockCount(a: nat): (q: nat)
    ensures a <= BlockSize * q < a + BlockSize
  {
    (a + BlockSize - 1) / BlockSize
  }

  /** Cell `(k, l)` of block `(i, j)`: the source cell it covers, or `0.0`
      when that cell lies at or past the bottom edge, or else at or past the
      right edge. */
  function BlockCell(m: Mat, i: nat, j: nat, k: nat, l: nat): real
    requires Rectangular(m)
  {
    if i * BlockSize + k >= Height(m) then 0.0
    else if j * BlockSize + l >= Width(m) then 0.0
    else m[i * BlockSize + k][j * BlockSize + l]
  }

  /** Block `(i, j)`. */
  function Block(m: Mat, i: nat, j: nat): (b: Mat)
    requires Rectangular(m)
    ensures HasShape(b, BlockSize, BlockSize) && Rectangular(b)
    ensures forall k, l :: 0 <= k < BlockSize && 0 <= l < BlockSize ==> b[k][l] == BlockCell(m, i, j, k, l)
  {
    seq(BlockSize, k requires 0 <= k < BlockSize =>
      seq(BlockSize, l requires 0 <= l < BlockSize => BlockCell(m, i, j, k, l)))
  }

  /** The grid of blocks: `BlockCount(height)` rows of `BlockCount(width)`
      blocks, each of them 8-by-8. Inside the image a block cell is the
      source cell it covers; at or past either edge it is zero. */
  function DivideToChunks(m: Mat): (g: Grid<Mat>)
    requires Rectangular(m)
    ensures HasShape(g, BlockCount(Height(m)), BlockCount(Width(m))) && Rectangular(g)
    ensures forall i, j :: 0 <= i < |g| && 0 <= j < |g[i]| ==> HasShape(g[i][j], BlockSize, BlockSize)
    ensures forall i, j, k, l :: 0 <= i < |g| && 0 <= j < |g[i]| && 0 <= k < BlockSize && 0 <= l < BlockSize ==>
      HasShape(g[i][j], BlockSize, BlockSize) &&
      (i * BlockSize + k < Height(m) && j * BlockSize + l < Width(m) ==>
         g[i][j][k][l] == m[i * BlockSize + k][j * BlockSize + l]) &&
      (i * BlockSize + k >= Height(m) || j * BlockSize + l >= Width(m) ==> g[i][j][k][l] == 0.0)
  {
    seq(BlockCount(Height(m)), i requires 0 <= i < BlockCount(Height(m)) =>
      seq(BlockCount(Width(m)), j requires 0 <= j < BlockCount(Width(m)) => Block(m, i, j)))
  }

  /** No source cell is lost: cell `(r, c)` sits in block `(r / 8, c / 8)`
      at offset `(r % 8, c % 8)`. */
  lemma NoCellLost(m: Mat, r: nat, c: nat)
    requires Rectangular(m) && r < Height(m) && c < Width(m)
    ensures r / BlockSize < BlockCount(Height(m)) && c / BlockSize < BlockCount(Width(m))
    ensures DivideToChunks(m)[r / BlockSize][c / BlockSize][r % BlockSize][c % BlockSize] == m[r][c]
  {
    Split(r);
    Split(c);
  }

  lemma Split(r: nat)
    ensures (r / BlockSize) * BlockSize + r % BlockSize == r
    ensures r < BlockSize * BlockCount(r + 1)
  {
  }

  /** When both sides are multiples of 8 every block cell covers a source
      cell, so no padding zero is introduced and the blocks tile the matrix. */
  lemma ExactTiling(m: Mat, i: nat, j: nat, k: nat, l: nat)
    requires Rectangular(m) && Height(m) % BlockSize == 0 && Width(m) % BlockSize == 0
    requires i < BlockCount(Height(m)) && j < BlockCount(Width(m))
    requires k < BlockSize && l < BlockSize
    ensures i * BlockSize + k < Height(m) && j * BlockSize + l < Width(m)
    ensures DivideToChunks(m)[i][j][k][l] == m[i * BlockSize + k][j * BlockSize + l]
  {
    Within(Height(m), i, k);
    Within(Width(m), j, l);
  }

  /** Offset `k` of block `i` lies below `h` when `h` is a multiple of 8 and
      block `i` is one of the `h / 8` blocks. */
  lemma Within(h: nat, i: nat, k: nat)
    requires h % BlockSize == 0 && i < BlockCount(h) && k < BlockSize
    ensures i * BlockSize + k < h
  {
    assert BlockCount(h) * BlockSize == h;
    assert (i + 1) * BlockSize <= h;
  }

  /** A rectangular grid whose every entry is an 8-by-8 block. */
  predicate BlockGrid(g: Grid<Mat>)
  {
    Rectangular(g) &&
    forall i, j :: 0 <= i < |g| && 0 <= j < |g[i]| ==> HasShape(g[i][j], BlockSize, BlockSize)
  }

  /** The `h`-by-`w` matrix read back from a grid of blocks that covers it:
      cell `(r, c)` comes from block `(r / 8, c / 8)` at offset `(r % 8, c % 8)`. */
  function Reassemble(g: Grid<Mat>, h: nat, w: nat): (m: Mat)
    requires BlockGrid(g) && h <= BlockSize * Height(g) && w <= BlockSize * Width(g)
    ensures HasShape(m, h, w)
  {
    seq(h, r requires 0 <= r < h =>
      seq(w, c requires 0 <= c < w => g[r / BlockSize][c / BlockSize][r % BlockSize][c % BlockSize]))
  }

  /** Reading every cell back from its block reproduces the matrix: the
      blocking is lossless. */
  lemma ReassembleDivide(m: Mat)
    requires Rectangular(m)
    ensures BlockGrid(DivideToChunks(m))
    ensures Height(m) <= BlockSize * Height(DivideToChunks(m))
    ensures Width(m) <= BlockSize * Width(DivideToChunks(m))
    ensures Reassemble(DivideToChunks(m), Height(m), Width(m)) == m
  {
    var g := DivideToChunks(m);
    var back := Reassemble(g, Height(m), Width(m));
    forall r | 0 <= r < Height(m)
      ensures back[r] == m[r]
    {
      forall c | 0 <= c < Width(m)
        ensures back[r][c] == m[r][c]
      {
        NoCellLost(m, r, c);
      }
    }
  }
}
