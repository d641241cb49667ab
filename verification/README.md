# JPEGEncoder core, modelled in Dafny

This project models the computational core of the JPEGEncoder macOS app, which is written in Swift. The core is:

- the generic row-major `Matrix` with its transpose, exact and tolerance equality, and the throwing `*`, `+`, `-`, `quantize` and `dequantize`;
- `divideBitmapToChunks`, which cuts an image plane into 8×8 blocks and zero-pads the edges;
- the DCT stage `dct(S) = (B·S)·Bᵀ` and `reverseDct(S) = (Bᵀ·S)·B`. This is the FDCT/IDCT of ITU-T T.81 section A.3.3 in matrix form;
- `zigzagRun`, the state machine that reads an N×N block in the order of ITU-T T.81 Figure A.6 and then drops trailing zeros;
- the BMP decoder `readBitmapFromFile`, with its native little-endian header loads, its packed `FileHeader`/`BitmapHeader`/`RGBPixel` records, and the flat pixel buffer that `createViewFromBitmapData` fills.

Modules, one per file:

| file | module | models |
|---|---|---|
| `results.dfy` | `Results` | `Result`/`Option`, which stand for Swift `throws` and an optional file handle |
| `sums.dfy` | `Sums` | the `sum +=` loop as a left fold, plus the exchange of summation order |
| `matrix.dfy` | `Matrix` | `Matrix.swift` |
| `matrix_algebra.dfy` | `MatrixAlgebra` | associativity, transpose of a product, distributivity and identity, which the DCT relies on |
| `chunks.dfy` | `Chunks` | `BitmapConverter.swift` |
| `dct.dfy` | `JpegProcessing` | `JPEGProcessing.swift` |
| `zigzag.dfy` | `Zigzag` | `Matrix+Huffman.swift` |
| `bytes.dfy` | `ByteOrder` | `fromByteArray`/`readBytes` as little-endian two's complement loads of packed records |
| `bitmap_structs.dfy` | `BitmapStructs` | `BitmapStructs.swift` |
| `bitmap_reader.dfy` | `BitmapReader` | `BitmapReader.swift` |

Modelling choices:

- **Values.** Floating-point matrices are `seq<seq<real>>`. Integer matrices are `seq<seq<int>>`. Both carry a `Rectangular` predicate, because the Swift constructor does not check it.
- **Cosines.** The cosine values are not computed. `cosine: real -> real` is a parameter that stands for `m ↦ cos(m·π/16)`. The orthonormality of the basis is the named hypothesis `Orthonormal`, and only the round-trip lemmas take it.
- **Files.** A file is an in-memory `Option<seq<byte>>`, where `None` is a path that cannot be opened.
- **Zigzag.** The walk has an independent reference, the diagonal-by-diagonal order `ZigzagOrder` built from a rank function. `WalkIsZigzagOrder` proves the state machine produces it.

Notable behaviour of the code:

- **DCT row 0.** The first basis row is `pi(4.0) = cos(π/4)/2 = 1/(2√2)` in every column. This is the `C(0)/2` normalisation of ITU-T T.81 section A.3.3. `BasisIsT81` shows that the whole basis is T.81's coefficient table when `cos(0) = 1`.
- **Zigzag start.** The zigzag walk steps before it appends. It therefore never emits the DC cell (0,0) of T.81 Figure A.6 and yields N²−1 values per block.
- **Channel order.** Pixel bytes fill `red`, `green`, `blue`, `alpha` in stored order. The first stored byte lands in `red`, although BMP stores pixels blue first. The display buffer writes blue, green, red, 0.
- **Errors.** The reader only throws `FileNotFoundError`. `UnsupportedFormat` is declared but never thrown, and the colour depth is not checked.
- **Rows read.** The reader reads `|height|` rows, so both the bottom-up (positive height) and the top-down (negative height) BMP layouts are read.
- **Bottom-up files.** For a positive height, every pixel, not every row, is inserted at the front. The BMP bottom-up convention calls for a vertical flip only. See Findings.
- **Missing inverses.** The code has no block merge, un-zigzag or encoder, so none is modelled. `Chunks.Reassemble` serves only as a reference to state that blocking loses nothing.

## Model

| member | source | states |
|---|---|---|
| Matrix.Transpose | JPEGEncoder/JPEGEncoder/Matrix/Matrix.swift:61-71 | the result is width-by-height and its cell (i, j) is cell (j, i) of the input |
| Matrix.TransposeTwice | JPEGEncoder/JPEGEncoder/Matrix/Matrix.swift:61-71 | transposing twice gives the matrix back exactly when it has at least one column or no rows |
| Matrix.FlattenLength | JPEGEncoder/JPEGEncoder/Matrix/Matrix.swift:41-50 | the row-major element view has height × width elements |
| Matrix.FlattenAt | JPEGEncoder/JPEGEncoder/Matrix/Matrix.swift:41-50 | element (i, j) is yielded at position i·width + j |
| Matrix.FlattenIndex | JPEGEncoder/JPEGEncoder/Matrix/Matrix.swift:45-49 | position k of the view is element (k / width, k % width) |
| Matrix.PairsEqual | JPEGEncoder/JPEGEncoder/Matrix/Matrix.swift:87-91 | the zip loop answers true exactly when every pair of the common prefix is equal |
| Matrix.Equals | JPEGEncoder/JPEGEncoder/Matrix/Matrix.swift:83-93 | the generic `==` (dimension check, then pairwise comparison of the views) holds exactly when the two matrices are equal |
| Matrix.PairsWithin | JPEGEncoder/JPEGEncoder/Matrix/Matrix.swift:74-79 | the zip loop answers true exactly when every pair of the common prefix differs by at most the precision |
| Matrix.FlattenWithin | JPEGEncoder/JPEGEncoder/Matrix/Matrix.swift:100-104 | for equal shapes, closeness of the row-major views is closeness cell by cell |
| Matrix.EqualTo | JPEGEncoder/JPEGEncoder/Matrix/Matrix.swift:73-80 | for equal shapes it holds exactly when every cell is within the precision; with no shape check, an empty operand always compares true |
| Matrix.ApproxEquals | JPEGEncoder/JPEGEncoder/Matrix/Matrix.swift:95-106 | the floating `==` holds exactly when the dimensions agree and every cell is within 1/100 |
| Matrix.ApproxEqualsReflexiveSymmetric | JPEGEncoder/JPEGEncoder/Matrix/Matrix.swift:95-106 | the tolerance `==` is reflexive and symmetric |
| Matrix.Mul | JPEGEncoder/JPEGEncoder/Matrix/Matrix.swift:108-126 | `*` throws `sizesDontMatch` exactly when left width ≠ right height; otherwise the result is left.height × right.width with entry (i, j) = Σₖ left[i][k]·right[k][j] |
| Matrix.Add | JPEGEncoder/JPEGEncoder/Matrix/Matrix.swift:128-141 | `+` throws exactly when the dimensions differ; otherwise it is the cell-wise sum, shaped like the left operand |
| Matrix.Sub | JPEGEncoder/JPEGEncoder/Matrix/Matrix.swift:143-156 | `-` throws exactly when the dimensions differ; otherwise it is the cell-wise difference |
| Matrix.AddThenSub | JPEGEncoder/JPEGEncoder/Matrix/Matrix.swift:128-156 | `(A + B) - B == A` for equal-shaped A and B |
| Matrix.Truncate | JPEGEncoder/JPEGEncoder/Matrix/Matrix.swift:166 | `Int(Double)` yields the integer between 0 and y that is less than 1 away from y |
| Matrix.TruncateIntegral | JPEGEncoder/JPEGEncoder/Matrix/Matrix.swift:166 | an integral value converts to itself |
| Matrix.QuantizeCell | JPEGEncoder/JPEGEncoder/Matrix/Matrix.swift:166 | the level q of x by d makes q·d lie between 0 and x and less than \|d\| from x |
| Matrix.Quantize | JPEGEncoder/JPEGEncoder/Matrix/Matrix.swift:158-171 | `quantize` throws exactly on a shape mismatch, whatever the divisors hold; otherwise every cell's level satisfies the bounds above |
| Matrix.Dequantize | JPEGEncoder/JPEGEncoder/Matrix/Matrix.swift:173-186 | `dequantize` throws exactly on a shape mismatch; otherwise each cell is level × divisor |
| Matrix.LevelRecovered | JPEGEncoder/JPEGEncoder/Matrix/Matrix.swift:166 | the level of l·d is l |
| Matrix.DequantizeThenQuantize | JPEGEncoder/JPEGEncoder/Matrix/Matrix.swift:158-186 | `quantize(dequantize(L, D), D) == L` for non-zero divisors |
| Matrix.QuantizeThenDequantize | JPEGEncoder/JPEGEncoder/Matrix/Matrix.swift:158-186 | quantizing and then dequantizing moves each cell by less than its divisor, and not at all where the cell was a whole multiple |
| Matrix.CellReconstruction | JPEGEncoder/JPEGEncoder/Matrix/Matrix.swift:166-181 | a level scaled back is within one divisor of the coefficient, and equal to it for a multiple |
| Sums.TotalSwap | JPEGEncoder/JPEGEncoder/Matrix/Matrix.swift:117-120 | summing a table by rows or by columns gives the same total |
| MatrixAlgebra.ProductAssociative | JPEGEncoder/JPEGEncoder/Matrix/Matrix.swift:108-126 | `(A·B)·C == A·(B·C)` for chaining shapes |
| MatrixAlgebra.MulAssociative | JPEGEncoder/JPEGEncoder/Matrix/Matrix.swift:108-126 | both bracketings of the throwing `*` succeed and agree |
| MatrixAlgebra.ProductTranspose | JPEGEncoder/JPEGEncoder/Matrix/Matrix.swift:108-126 | `(A·B)ᵀ == Bᵀ·Aᵀ` when no dimension is zero |
| MatrixAlgebra.ProductDistributesLeft | JPEGEncoder/JPEGEncoder/Matrix/Matrix.swift:108-141 | `A·(B + C) == A·B + A·C` |
| MatrixAlgebra.ProductDistributesRight | JPEGEncoder/JPEGEncoder/Matrix/Matrix.swift:108-141 | `(A + B)·C == A·C + B·C` |
| MatrixAlgebra.ProductIdentity | JPEGEncoder/JPEGEncoder/Matrix/Matrix.swift:108-126 | the identity is neutral on both sides of the product |
| MatrixAlgebra.IdentityLeft | JPEGEncoder/JPEGEncoder/Matrix/Matrix.swift:108-126 | `I·S == S` |
| MatrixAlgebra.IdentityRight | JPEGEncoder/JPEGEncoder/Matrix/Matrix.swift:108-126 | `S·I == S` |
| Chunks.BlockCount | JPEGEncoder/JPEGEncoder/BitmapConverter.swift:12-13 | the block count is the ceiling of a / 8 |
| Chunks.Block | JPEGEncoder/JPEGEncoder/BitmapConverter.swift:18-32 | every block is 8×8, each cell the covered source cell or the padding zero |
| Chunks.DivideToChunks | JPEGEncoder/JPEGEncoder/BitmapConverter.swift:11-37 | the grid is ⌈h/8⌉ × ⌈w/8⌉ blocks of 8×8; inside the image a block cell is M[8i+k][8j+l], at or past either edge it is 0 |
| Chunks.NoCellLost | JPEGEncoder/JPEGEncoder/BitmapConverter.swift:15-36 | source cell (r, c) sits in block (r/8, c/8) at offset (r%8, c%8) |
| Chunks.ExactTiling | JPEGEncoder/JPEGEncoder/BitmapConverter.swift:12-31 | when both sides are multiples of 8, every block cell is a source cell, so no padding is introduced |
| Chunks.ReassembleDivide | JPEGEncoder/JPEGEncoder/BitmapConverter.swift:11-37 | reading every cell back from its block gives the matrix again, for any dimensions |
| JpegProcessing.DctMatrix | JPEGEncoder/JPEGEncoder/JPEGProcessing.swift:15-27 | the basis is 8×8; row 0 is `pi(4.0)` and entry (i, j) for i > 0 is `pi((2j+1)·i)` |
| JpegProcessing.BasisIsT81 | JPEGEncoder/JPEGEncoder/JPEGProcessing.swift:11-27 | given cos(0) = 1, the basis is the coefficient table C(u)/2·cos((2x+1)uπ/16) of T.81 section A.3.3 |
| JpegProcessing.Dct | JPEGEncoder/JPEGEncoder/JPEGProcessing.swift:29-32 | `dct` throws `sizesDontMatch` exactly when the block is not 8×8; otherwise it is (B·S)·Bᵀ, an 8×8 matrix |
| JpegProcessing.ReverseDct | JPEGEncoder/JPEGEncoder/JPEGProcessing.swift:34-37 | `reverseDct` throws exactly when the block is not 8×8; otherwise it is (Bᵀ·S)·B |
| JpegProcessing.DctTranspose | JPEGEncoder/JPEGEncoder/JPEGProcessing.swift:29-32 | `dct(Sᵀ) == dct(S)ᵀ` |
| JpegProcessing.ReverseDctTranspose | JPEGEncoder/JPEGEncoder/JPEGProcessing.swift:34-37 | `reverseDct(Sᵀ) == reverseDct(S)ᵀ` |
| JpegProcessing.DctLinear | JPEGEncoder/JPEGEncoder/JPEGProcessing.swift:29-32 | `dct(S₁ + S₂) == dct(S₁) + dct(S₂)` |
| JpegProcessing.ReverseDctLinear | JPEGEncoder/JPEGEncoder/JPEGProcessing.swift:34-37 | `reverseDct(S₁ + S₂) == reverseDct(S₁) + reverseDct(S₂)` |
| JpegProcessing.ReverseDctOfDct | JPEGEncoder/JPEGEncoder/JPEGProcessing.swift:29-37 | with an orthonormal basis, `reverseDct(dct(S)) == S` |
| JpegProcessing.DctOfReverseDct | JPEGEncoder/JPEGEncoder/JPEGProcessing.swift:29-37 | with an orthonormal basis, `dct(reverseDct(S)) == S` |
| Zigzag.Step | JPEGEncoder/JPEGEncoder/Matrix/Matrix+Huffman.swift:16-46 | each step moves right, down, up-right or down-left; it stays on its anti-diagonal while the direction is kept and moves to the next one when it turns |
| Zigzag.LastRowMovesRight | JPEGEncoder/JPEGEncoder/Matrix/Matrix+Huffman.swift:32-38 | a down-left run that reaches the last row always steps right: the inner test is redundant |
| Zigzag.StepValid | JPEGEncoder/JPEGEncoder/Matrix/Matrix+Huffman.swift:16-46 | on an N×N block with N ≥ 2 a step from an in-bounds state that continues stays in bounds |
| Zigzag.WalkRanks | JPEGEncoder/JPEGEncoder/Matrix/Matrix+Huffman.swift:15-48 | the walk emits N²−1 cells, and the k-th has zigzag rank k+1 |
| Zigzag.WalkDistinct | JPEGEncoder/JPEGEncoder/Matrix/Matrix+Huffman.swift:15-48 | no cell is emitted twice, and (0,0) is never emitted |
| Zigzag.WalkCovers | JPEGEncoder/JPEGEncoder/Matrix/Matrix+Huffman.swift:15-48 | every cell other than (0,0) is emitted, at the position given by its rank |
| Zigzag.WalkEndsAtCorner | JPEGEncoder/JPEGEncoder/Matrix/Matrix+Huffman.swift:47-48 | the loop stops right after emitting (N−1, N−1), and not before |
| Zigzag.WalkDiagonals | JPEGEncoder/JPEGEncoder/Matrix/Matrix+Huffman.swift:16-46 | i+j never decreases along the walk and grows by at most one per step |
| Zigzag.WalkIsZigzagOrder | JPEGEncoder/JPEGEncoder/Matrix/Matrix+Huffman.swift:15-48 | the walk is the T.81 Figure A.6 order with its first cell (0,0) removed |
| Zigzag.TrimTrailingZeros | JPEGEncoder/JPEGEncoder/Matrix/Matrix+Huffman.swift:49-52 | the trimmed sequence is a prefix, does not end in 0, only zeros were removed, and it is empty exactly when the input is all zeros |
| Zigzag.ZigzagRun | JPEGEncoder/JPEGEncoder/Matrix/Matrix+Huffman.swift:11-53 | the result has at most N²−1 values, is a prefix of the walked values, and does not end in 0 |
| Zigzag.ZigzagRunEmpty | JPEGEncoder/JPEGEncoder/Matrix/Matrix+Huffman.swift:47-52 | the result is empty exactly when every cell but (0,0) is zero |
| Zigzag.ScanLoop | JPEGEncoder/JPEGEncoder/Matrix/Matrix+Huffman.swift:15-48 | the repeat-while loop appends the cell values in walk order |
| Zigzag.PopZeros | JPEGEncoder/JPEGEncoder/Matrix/Matrix+Huffman.swift:49-51 | the pop loop computes the trailing-zero trim |
| Zigzag.ZigzagRunLoop | JPEGEncoder/JPEGEncoder/Matrix/Matrix+Huffman.swift:11-53 | the imperative `zigzagRun` returns the functional zigzag run |
| ByteOrder.LoadSigned | JPEGEncoder/JPEGEncoder/BitmapReader.swift:17-21 | a native load is the little-endian two's complement value; it fits the field and is negative exactly when the last byte's high bit is set |
| ByteOrder.LoadStoreSigned | JPEGEncoder/JPEGEncoder/BitmapReader.swift:17-21 | loading the encoding of a value that fits gives the value back |
| ByteOrder.StoreLoadSigned | JPEGEncoder/JPEGEncoder/BitmapReader.swift:17-21 | encoding a loaded value gives the bytes back |
| ByteOrder.LoadFieldAt | JPEGEncoder/JPEGEncoder/BitmapReader.swift:23-27 | field k of a packed record is the signed load of the bytes at its offset |
| ByteOrder.LoadStoreFields | JPEGEncoder/JPEGEncoder/BitmapReader.swift:23-27 | loading a stored record gives its field values back |
| ByteOrder.StoreLoadFields | JPEGEncoder/JPEGEncoder/BitmapReader.swift:23-27 | storing a loaded record gives its bytes back |
| BitmapStructs.LoadFileHeader | JPEGEncoder/JPEGEncoder/DataStructures/BitmapStructs.swift:9-14 | every loaded file header field fits its declared `Int32`/`Int16` width |
| BitmapStructs.FileHeaderField | JPEGEncoder/JPEGEncoder/DataStructures/BitmapStructs.swift:9-14 | the 12-byte file header holds `fileSize` at 0, the reserved words at 4 and 6, and `dataOffset` at 8 |
| BitmapStructs.LoadStoreFileHeader | JPEGEncoder/JPEGEncoder/DataStructures/BitmapStructs.swift:9-14 | a file header that fits survives a store and a load |
| BitmapStructs.StoreLoadFileHeader | JPEGEncoder/JPEGEncoder/DataStructures/BitmapStructs.swift:9-14 | every 12 bytes are the encoding of the header they load as |
| BitmapStructs.LoadBitmapHeader | JPEGEncoder/JPEGEncoder/DataStructures/BitmapStructs.swift:16-28 | every loaded info header field fits its declared width |
| BitmapStructs.BitmapHeaderField | JPEGEncoder/JPEGEncoder/DataStructures/BitmapStructs.swift:16-28 | the 40-byte info header holds its eleven fields packed at offsets 0, 4, 8, 12, 14, 16, …, 36 |
| BitmapStructs.BitmapHeaderUsedFields | JPEGEncoder/JPEGEncoder/DataStructures/BitmapStructs.swift:16-28 | `width` is at byte 4, `height` at 8, `colorDepth` at 14 |
| BitmapStructs.LoadStoreBitmapHeader | JPEGEncoder/JPEGEncoder/DataStructures/BitmapStructs.swift:16-28 | an info header that fits survives a store and a load |
| BitmapStructs.StoreLoadBitmapHeader | JPEGEncoder/JPEGEncoder/DataStructures/BitmapStructs.swift:16-28 | every 40 bytes are the encoding of the header they load as |
| BitmapStructs.ChannelsRoundTrip | JPEGEncoder/JPEGEncoder/DataStructures/BitmapStructs.swift:30-35 | a pixel is its four channel bytes in the order red, green, blue, alpha |
| BitmapStructs.EmptyPixel | JPEGEncoder/JPEGEncoder/DataStructures/BitmapStructs.swift:37-39 | all four channels are zero |
| BitmapStructs.PixelEquals | JPEGEncoder/JPEGEncoder/DataStructures/BitmapStructs.swift:41-46 | the pixel `==` holds exactly when the pixels are equal, that is, when all four channels agree |
| BitmapReader.TruncDiv | JPEGEncoder/JPEGEncoder/BitmapReader.swift:54 | Swift `/` truncates toward zero: the magnitude is the floor of the magnitudes' quotient, with the dividend's sign |
| BitmapReader.TruncRem | JPEGEncoder/JPEGEncoder/BitmapReader.swift:56 | Swift `%` has the dividend's sign, and `a == (a / b)·b + a % b` |
| BitmapReader.RowPadding | JPEGEncoder/JPEGEncoder/BitmapReader.swift:56 | the padding lies in [0, 3] and brings every row length, negative ones included, to a multiple of 4 |
| BitmapReader.ReadFileHeader | JPEGEncoder/JPEGEncoder/BitmapReader.swift:47-48 | the file header is read at file offset 2, so `dataOffset` is the load of file bytes 10..14 |
| BitmapReader.ReadBitmapHeader | JPEGEncoder/JPEGEncoder/BitmapReader.swift:49 | the info header follows at offset 14: width, height and colour depth are the loads of file bytes 18..22, 22..26 and 28..30 |
| BitmapReader.GeometryOf | JPEGEncoder/JPEGEncoder/BitmapReader.swift:51-56 | rows = \|height\|, bytes per pixel = colorDepth / 8 truncated, the padding of bpc·width, and the data offset, all from the file bytes |
| BitmapReader.FillPixel | JPEGEncoder/JPEGEncoder/BitmapReader.swift:69-70 | the bytes read fill red, green, blue, alpha in order, and the channels not reached stay 0 |
| BitmapReader.PixelInFile | JPEGEncoder/JPEGEncoder/BitmapReader.swift:66-74 | in a readable file every stored pixel's bytes lie inside the file |
| BitmapReader.StoredPixel | JPEGEncoder/JPEGEncoder/BitmapReader.swift:66-74 | stored pixel (r, c) is read from byte dataOffset + r·(bpc·width + padding) + c·bpc |
| BitmapReader.Storage | JPEGEncoder/JPEGEncoder/BitmapReader.swift:67-74 | the stored grid has \|height\| rows of `width` pixels, each read as above |
| BitmapReader.Collect | JPEGEncoder/JPEGEncoder/BitmapReader.swift:59-64 | folding `appendBlock` keeps the order when appending and reverses it completely when inserting at the front |
| BitmapReader.CollectAppend | JPEGEncoder/JPEGEncoder/BitmapReader.swift:61 | front insertion reverses a concatenation part by part |
| BitmapReader.ChunkFlatten | JPEGEncoder/JPEGEncoder/BitmapReader.swift:75 | cutting the row-major list of a grid into rows of its width gives the grid back |
| BitmapReader.HalfTurnAt | JPEGEncoder/JPEGEncoder/BitmapReader.swift:59-75 | cell (i, j) of the half-turned grid is cell (h−1−i, w−1−j) |
| BitmapReader.HalfTurnFlipsAndMirrors | JPEGEncoder/JPEGEncoder/BitmapReader.swift:59-75 | half a turn is a vertical flip followed by mirroring every row |
| BitmapReader.CollectFlatten | JPEGEncoder/JPEGEncoder/BitmapReader.swift:59-71 | reversing the row-major list of a grid gives the list of the half-turned grid |
| BitmapReader.AssembleTurns | JPEGEncoder/JPEGEncoder/BitmapReader.swift:59-75 | assembling top-down gives the stored grid; assembling bottom-up gives it turned by half a turn |
| BitmapReader.ReadBitmapFromFile | JPEGEncoder/JPEGEncoder/BitmapReader.swift:30-76 | the only error is `FileNotFoundError`, raised exactly when the file cannot be opened; otherwise the image is \|height\| × width (no columns when there are no rows) |
| BitmapReader.NoRowsEmptyImage | JPEGEncoder/JPEGEncoder/BitmapReader.swift:51-75 | a file with no rows is decoded, whatever its width and colour depth, to the empty image: only the checks made for every file apply |
| BitmapReader.NeverUnsupported | JPEGEncoder/JPEGEncoder/BitmapReader.swift:12-15 | `UnsupportedFormat` is never reported |
| BitmapReader.ReadBitmapTurns | JPEGEncoder/JPEGEncoder/BitmapReader.swift:59-75 | a top-down file decodes to its stored grid; a bottom-up file decodes to its stored grid turned by half a turn |
| BitmapReader.ReadBitmapRowFlip | JPEGEncoder/JPEGEncoder/BitmapReader.swift:59-75 | the corrected decoder has the same error behaviour and shape |
| BitmapReader.ReadBitmapRowFlipPixel | JPEGEncoder/JPEGEncoder/BitmapReader.swift:59-75 | with the correction, row i of a bottom-up image is stored row \|height\|−1−i, with its pixels in stored order |
| BitmapReader.ReadBitmapMirrorsRowFlip | JPEGEncoder/JPEGEncoder/BitmapReader.swift:59-71 | for a bottom-up file the decoder as written returns the corrected image with every row mirrored |
| BitmapReader.OneRowMirrored | JPEGEncoder/JPEGEncoder/BitmapReader.swift:60-61 | a one-row bottom-up image with two different pixels comes out with them swapped, which differs from the row flip |
| BitmapReader.Interleave | JPEGEncoder/JPEGEncoder/BitmapReader.swift:99-105 | bytes 4i..4i+3 of the buffer are blue, green, red, 0 of pixel i |
| BitmapReader.DisplayBuffer | JPEGEncoder/JPEGEncoder/BitmapReader.swift:94-97 | the buffer has 4·height·width bytes |
| BitmapReader.DisplayBufferPixel | JPEGEncoder/JPEGEncoder/BitmapReader.swift:99-105 | pixel (r, c) lands at bytes 4·(r·width + c) onwards as blue, green, red, 0 |

## Left out

- File I/O (`FileHandle`, seeking, short reads at end of file) is replaced by an in-memory byte sequence. `Readable` asks that every header and pixel read lies inside it, so short reads are not modelled.
- The `CGContext`/`NSImage` construction in `createViewFromBitmapData` and the DEBUG timing code are foreign framework calls. Only the pixel buffer is modelled.
- `ImageWindowController.swift` and `AppDelegate.swift` are user-interface wiring with no logic to verify.
- Floating-point rounding: matrices are over `real`. The DCT round trips hold exactly under the orthonormality hypothesis, which the true cosines satisfy only up to rounding.
- JpegProcessing.Pi: the cosine values are not computed. `cosine` is a parameter, and orthonormality (`Orthonormal`) is a hypothesis of the round-trip lemmas, because proving it needs trigonometry.
- Chunks.BlockCount: `Int(ceilf(Float(h) / 8))` is modelled as exact integer ceiling division. Float rounding of very large dimensions is not modelled.
- Matrix.Quantize: when the shapes match, `NonZero(divisors)` is a precondition, because `Int(x / 0)` traps on infinity or NaN. A shape mismatch throws before any division, so it carries no such condition. Out-of-range `Int(Double)` conversions are not modelled.
- Matrix.Dequantize: integer overflow of `level * divisor` is not modelled, since integers are unbounded.
- The stateful iterator (`iteratorIndex`, never reset) makes a Swift `Matrix` iterable only once. Equality is modelled as a fresh pairwise comparison of the row-major views.
- Matrix operations require rectangular operands. The Swift code traps or reads past ragged rows.
- Zigzag.ZigzagRun: it requires a square block of side N ≥ 2. On a 1×1 block the Swift code indexes out of bounds, and on non-square blocks the walk is not modelled.
- BitmapReader.Readable: this precondition stands in for the runtime traps of the decoder. For every file these are `abs` of the minimum `Int32`, an overflowing `Int32` row byte count, and a negative data offset. Once a row is read, a negative width traps. Once a pixel is read, a colour depth of 40 bits or more overruns the four-byte pixel, and a colour depth of −8 or below asks for a negative byte count. A file with no rows is readable whatever its width and colour depth (`NoRowsEmptyImage`).
- The decoder assumes `Matrix(_:rows:cols:)` cuts the flat pixel list into rows row-major, and that for no rows it gives the matrix without rows, which reports width 0. That initializer is not part of this model.
- The decoder assumes `copyBytes(to: &pixel.red, …)` writes the struct's channels in declaration order.
- The merge of blocks, the un-zigzag and a bitmap encoder do not exist in the code and are not modelled.

## Findings

| source | as written | input that shows it | evidently intended | confidence | as-written member | corrected member |
|---|---|---|---|---|---|---|
| JPEGEncoder/JPEGEncoder/BitmapReader.swift:59-71 | for a positive height every pixel is inserted at the front of the list, which reverses the whole list and turns the image by half a turn: it is flipped vertically and also mirrored left to right | a bottom-up (height 1) image of one row with two different pixels p, q is decoded as [q, p] | insert each stored row at the front, keeping the pixels within a row in order, so the image is only flipped vertically | not executed | BitmapReader.ReadBitmapMirrorsRowFlip | BitmapReader.ReadBitmapRowFlip |
