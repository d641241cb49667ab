/** Decoding a Windows BMP file held in memory into a matrix of pixels, and
    laying a pixel matrix out as the 32-bit buffer the view is drawn from.

    The file is an optional byte sequence: `None` stands for a path that
    cannot be opened. The headers are native little-endian loads at file
    offsets 2 and 14; pixel rows follow at `dataOffset`, each padded to a
    multiple of four bytes. */
module BitmapReader {
  import opened Results
  import opened ByteOrder
  import opened BitmapStructs
  import opened Matrix

  datatype ReaderError = FileNotFoundError | UnsupportedFormat

  /** Where the two headers are read: the file header right after the
      two-byte signature, the info header right after it. */
  const FileHeaderOffset: nat := 2
  const BitmapHeaderOffset: nat := FileHeaderOffset + FileHeaderSize
  const HeadersEnd: nat := BitmapHeaderOffset + BitmapHeaderSize

  const Int32Min: int := -0x8000_0000
  const Int32Max: int := 0x7FFF_FFFF

  function Magnitude(x: int): nat
  {
    if x < 0 then -x else x
  }

  // ------------------------------------------------- Swift integer division

  /** Swift's `/` on integers: the quotient truncated toward zero, so its
      magnitude is the floor of the magnitudes' quotient and its sign is the
      dividend's. */
  function TruncDiv(a: int, b: int): (q: int)
    requires b > 0
    ensures Magnitude(q) == Magnitude(a) / b
    ensures a < 0 ==> q <= 0
    ensures a >= 0 ==> q >= 0
  {
    if a >= 0 then a / b else -((-a) / b)
  }

  /** Swift's `%` on integers: the remainder has the dividend's sign, and
      `a == (a / b) * b + a % b` with both operators truncating. */
  function TruncRem(a: int, b: int): (r: int)
    requires b > 0
    ensures Magnitude(r) == Magnitude(a) % b
    ensures a < 0 ==> r <= 0
    ensures a >= 0 ==> r >= 0
    ensures a == TruncDiv(a, b) * b + r
  {
    if a >= 0 then a % b else -((-a) % b)
  }

  // ---------------------------------------------------------------- headers

  function ReadFileHeader(file: seq<byte>): (h: FileHeader)
    requires |file| >= HeadersEnd
    ensures h.dataOffset == LoadSigned(file[10..14])
  {
    var bs := file[2..14];
    FileHeaderField(bs, 3);
    SliceOfSlice(file, 2, 14, 8, 12);
    LoadFileHeader(bs)
  }

  function ReadBitmapHeader(file: seq<byte>): (h: BitmapHeader)
    requires |file| >= HeadersEnd
    ensures h.width == LoadSigned(file[18..22]) && h.height == LoadSigned(file[22..26])
    ensures h.colorDepth == LoadSigned(file[28..30])
  {
    var bs := file[14..54];
    BitmapHeaderUsedFields(bs);
    SliceOfSlice(file, 14, 54, 4, 8);
    SliceOfSlice(file, 14, 54, 8, 12);
    SliceOfSlice(file, 14, 54, 14, 16);
    LoadBitmapHeader(bs)
  }

  /** Padding after a row of `bytesInRow` bytes, as `(4 - n % 4) % 4` with
      truncating `%`: between 0 and 3, and it brings the row to a multiple
      of four for every row length, negative ones included. */
  function RowPadding(bytesInRow: int): (p: int)
    ensures 0 <= p <= 3
    ensures (bytesInRow + p) % 4 == 0
  {
    TruncRem(4 - TruncRem(bytesInRow, 4), 4)
  }

  /** What the reader derives from the headers. */
  datatype Geometry = Geometry(
    width: int,        // pixels per row, from the info header
    height: int,       // the signed header height
    rows: nat,         // |height|
    bpc: int,          // bytes per pixel: colorDepth / 8
    padding: int,      // bytes skipped after each row
    dataOffset: int)   // where the first stored row starts
  {
    /** Bytes from the start of one stored row to the next. */
    function Stride(): int
    {
      bpc * width + padding
    }

    /** Pixels per decoded row: the header width once a row is read; an
        image without rows has no columns, as a matrix without rows
        reports width 0. */
    function Columns(): nat
    {
      if rows == 0 || width < 0 then 0 else width
    }
  }

  function GeometryOf(file: seq<byte>): (g: Geometry)
    requires |file| >= HeadersEnd
    ensures g.width == LoadSigned(file[18..22]) && g.height == LoadSigned(file[22..26])
    ensures g.bpc == TruncDiv(LoadSigned(file[28..30]), 8)
    ensures g.dataOffset == LoadSigned(file[10..14])
    ensures g.padding == RowPadding(g.bpc * g.width) && g.rows == Magnitude(g.height)
  {
    var fh, bh := ReadFileHeader(file), ReadBitmapHeader(file);
    var bpc := TruncDiv(bh.colorDepth, 8);
    Geometry(bh.width, bh.height, Magnitude(bh.height), bpc, RowPadding(bpc * bh.width), fh.dataOffset)
  }

  /** The inputs the reader handles without trapping. For every file: both
      headers present, a height whose magnitude is an `Int32`, a row byte
      count that is an `Int32`, and a data offset that converts to `UInt64`.
      Once a row is read: a width that is a valid range bound. Once a pixel
      is read: between 0 and 4 bytes per pixel (the pixel has four
      channels), and every pixel read inside the file. */
  predicate Readable(file: seq<byte>)
  {
    |file| >= HeadersEnd &&
    var g := GeometryOf(file);
    g.height != Int32Min && Int32Min <= g.bpc * g.width <= Int32Max && g.dataOffset >= 0 &&
    (g.rows == 0 || (g.width >= 0 && (g.width == 0 || (0 <= g.bpc <= 4 && LastPixelEnd(g) <= |file|))))
  }

  /** One past the last byte of the last stored pixel. */
  function LastPixelEnd(g: Geometry): int
  {
    g.dataOffset + (g.rows - 1) * g.Stride() + g.width * g.bpc
  }

  // ----------------------------------------------------------------- pixels

  /** The pixel after copying `bs` over an empty pixel's channel bytes, from
      red on: read bytes fill red, green, blue, alpha in that order, and the
      channels not reached stay zero. */
  function FillPixel(bs: seq<byte>): (p: RGBPixel)
    requires |bs| <= 4
    ensures forall k :: 0 <= k < |bs| ==> Channels(p)[k] == bs[k]
    ensures forall k :: |bs| <= k < 4 ==> Channels(p)[k] == 0
  {
    PixelOf(bs + Channels(EmptyPixel())[|bs|..])
  }

  /** Where stored pixel `(r, c)` starts: row `r` of the stored rows, pixel
      `c` within it. */
  function PixelStart(g: Geometry, r: int, c: int): int
  {
    g.dataOffset + r * g.Stride() + c * g.bpc
  }

  lemma MultiplyMonotone(a: int, b: int, s: int)
    requires 0 <= a <= b && s >= 0
    ensures 0 <= a * s <= b * s
  {
  }

  /** The arithmetic behind `PixelInFile`, over plain integers. */
  lemma PixelBound(d: int, s: int, b: int, w: int, rows: int, r: int, c: int)
    requires d >= 0 && s >= 0 && b >= 0 && 0 <= r < rows && 0 <= c < w
    ensures 0 <= d + r * s + c * b
    ensures d + r * s + c * b + b <= d + (rows - 1) * s + w * b
  {
    MultiplyMonotone(r, rows - 1, s);
    MultiplyMonotone(c + 1, w, b);
    assert (c + 1) * b == c * b + b;
  }

  /** In a readable file every stored pixel lies inside the file. */
  lemma PixelInFile(file: seq<byte>, r: nat, c: nat)
    requires Readable(file)
    requires r < GeometryOf(file).rows && c < GeometryOf(file).width
    ensures var g := GeometryOf(file);
      0 <= PixelStart(g, r, c) && PixelStart(g, r, c) + g.bpc <= |file|
  {
    var g := GeometryOf(file);
    var b, w := g.bpc, g.width;
    assert 0 <= b * w by {
      MultiplyMonotone(0, w, b);
    }
    PixelBound(g.dataOffset, g.Stride(), b, w, g.rows, r, c);
  }

  /** Stored pixel `(r, c)`, in the order the rows are stored. */
  function StoredPixel(file: seq<byte>, r: nat, c: nat): (p: RGBPixel)
    requires Readable(file)
    requires r < GeometryOf(file).rows && c < GeometryOf(file).width
    ensures var g := GeometryOf(file); var start := PixelStart(g, r, c);
      0 <= start && start + g.bpc <= |file| && p == FillPixel(file[start..start + g.bpc])
  {
    var g := GeometryOf(file);
    PixelInFile(file, r, c);
    var start := PixelStart(g, r, c);
    FillPixel(file[start..start + g.bpc])
  }

  /** The stored rows, first stored row first. */
  function Storage(file: seq<byte>): (s: Grid<RGBPixel>)
    requires Readable(file)
    ensures Rectangular(s) && HasShape(s, GeometryOf(file).rows, GeometryOf(file).Columns())
    ensures forall r, c :: 0 <= r < GeometryOf(file).rows && 0 <= c < GeometryOf(file).width ==>
      s[r][c] == StoredPixel(file, r, c)
  {
    var g := GeometryOf(file);
    seq(g.rows, r requires 0 <= r < g.rows =>
      seq(g.width, c requires 0 <= c < g.width => StoredPixel(file, r, c)))
  }

  // ------------------------------------------------------ order of assembly

  /** Positive heights mean the rows are stored bottom-up. */
  datatype RowOrder = BottomUp | TopDown

  function OrderOf(height: int): RowOrder
  {
    if height > 0 then BottomUp else TopDown
  }

  /** The `appendBlock` closure: insert at the front for bottom-up files,
      append at the back otherwise. */
  function AppendBlock<T>(order: RowOrder, acc: seq<T>, x: T): seq<T>
  {
    match order
    case BottomUp => [x] + acc
    case TopDown => acc + [x]
  }

  /** Folding `AppendBlock` over `xs` from an empty list: top-down keeps the
      order, bottom-up reverses it completely. */
  function Collect<T>(order: RowOrder, xs: seq<T>): (r: seq<T>)
    ensures |r| == |xs|
    ensures order == TopDown ==> r == xs
    ensures order == BottomUp ==> forall k :: 0 <= k < |xs| ==> r[k] == xs[|xs| - 1 - k]
  {
    if |xs| == 0 then []
    else AppendBlock(order, Collect(order, xs[..|xs| - 1]), xs[|xs| - 1])
  }

  /** Reversing a concatenation reverses the order of its parts. */
  lemma CollectAppend<T>(a: seq<T>, b: seq<T>)
    ensures Collect(BottomUp, a + b) == Collect(BottomUp, b) + Collect(BottomUp, a)
  {
    var r, l := Collect(BottomUp, a + b), Collect(BottomUp, b) + Collect(BottomUp, a);
    assert forall k :: 0 <= k < |b| ==> r[k] == b[|b| - 1 - k];
    assert forall k :: |b| <= k < |r| ==> r[k] == a[|a| + |b| - 1 - k];
  }

  /** `Matrix(_:rows:cols:)`: a flat list cut into rows of `cols` elements. */
  function Chunk<T>(flat: seq<T>, rows: nat, cols: nat): (m: Grid<T>)
    requires |flat| == rows * cols
    ensures HasShape(m, rows, cols) && Rectangular(m)
  {
    if rows == 0 then []
    else
      assert |flat[cols..]| == (rows - 1) * cols;
      [flat[..cols]] + Chunk(flat[cols..], rows - 1, cols)
  }

  /** Element `(i, j)` of the cut list is element `i * cols + j` of the list. */
  lemma {:induction false} ChunkAt<T>(flat: seq<T>, rows: nat, cols: nat, i: nat, j: nat)
    requires |flat| == rows * cols && i < rows && j < cols
    ensures i * cols + j < |flat|
    ensures Chunk(flat, rows, cols)[i][j] == flat[i * cols + j]
  {
    assert |flat[cols..]| == (rows - 1) * cols;
    if i > 0 {
      ChunkAt(flat[cols..], rows - 1, cols, i - 1, j);
      assert i * cols + j == cols + ((i - 1) * cols + j);
    }
  }

  /** Cutting the row-major view of a grid into rows of its width gives the
      grid back. */
  lemma {:induction false} ChunkFlatten<T>(m: Grid<T>)
    requires Rectangular(m)
    ensures |Flatten(m)| == Height(m) * Width(m)
    ensures Chunk(Flatten(m), Height(m), Width(m)) == m
  {
    FlattenLength(m);
    if |m| > 0 {
      var w, flat, rest := Width(m), Flatten(m), m[1..];
      assert Rectangular(rest) && (|rest| > 0 ==> Width(rest) == w);
      assert flat == m[0] + Flatten(rest);
      assert flat[..w] == m[0] && flat[w..] == Flatten(rest);
      if |rest| > 0 {
        ChunkFlatten(rest);
      } else {
        FlattenLength(rest);
      }
    }
  }

  /** A grid turned by half a turn: the rows in reverse order, each row
      reversed. */
  function HalfTurn<T>(m: Grid<T>): (r: Grid<T>)
    requires Rectangular(m)
    ensures Rectangular(r) && HasShape(r, Height(m), Width(m))
  {
    var h, w := Height(m), Width(m);
    var r := seq(h, i requires 0 <= i < h => Collect(BottomUp, m[h - 1 - i]));
    assert forall i :: 0 <= i < h ==> |r[i]| == |m[h - 1 - i]| == w;
    r
  }

  /** Cell `(i, j)` of the turned grid is cell `(h-1-i, w-1-j)` of the grid. */
  lemma HalfTurnAt<T>(m: Grid<T>, i: nat, j: nat)
    requires Rectangular(m) && i < Height(m) && j < Width(m)
    ensures HalfTurn(m)[i][j] == m[Height(m) - 1 - i][Width(m) - 1 - j]
  {
    var row := m[Height(m) - 1 - i];
    assert |row| == Width(m);
    assert HalfTurn(m)[i] == Collect(BottomUp, row);
  }

  /** Every row reversed, the rows in place. */
  function MirrorRows<T>(m: Grid<T>): (r: Grid<T>)
    ensures |r| == |m|
    ensures forall i :: 0 <= i < |m| ==> r[i] == Collect(BottomUp, m[i])
  {
    seq(|m|, i requires 0 <= i < |m| => Collect(BottomUp, m[i]))
  }

  /** Half a turn is a vertical flip followed by a left-to-right mirror. */
  lemma HalfTurnFlipsAndMirrors<T>(m: Grid<T>)
    requires Rectangular(m)
    ensures HalfTurn(m) == MirrorRows(Collect(BottomUp, m))
  {
  }

  lemma {:induction false} FlattenSnoc<T>(m: Grid<T>, row: seq<T>)
    requires Rectangular(m + [row])
    ensures Rectangular(m)
    ensures Flatten(m + [row]) == Flatten(m) + row
  {
    var mr := m + [row];
    assert forall i :: 0 <= i < |m| ==> m[i] == mr[i];
    if |m| > 0 {
      assert mr[1..] == m[1..] + [row];
      assert Rectangular(mr[1..]);
      FlattenSnoc(m[1..], row);
    }
  }

  /** Reversing the row-major view of a grid gives the row-major view of
      the grid turned by half a turn. */
  lemma {:induction false} CollectFlatten<T>(m: Grid<T>)
    requires Rectangular(m)
    ensures Collect(BottomUp, Flatten(m)) == Flatten(HalfTurn(m))
  {
    if |m| > 0 {
      var rest := m[1..];
      assert Rectangular(rest);
      CollectFlatten(rest);
      CollectAppend(m[0], Flatten(rest));
      assert HalfTurn(m) == HalfTurn(rest) + [Collect(BottomUp, m[0])];
      FlattenSnoc(HalfTurn(rest), Collect(BottomUp, m[0]));
    }
  }

  /** The pixel list built from the stored grid, cut back into rows of the
      stored width. */
  function Assemble<T>(order: RowOrder, stored: Grid<T>): (m: Grid<T>)
    requires Rectangular(stored)
    ensures Rectangular(m) && HasShape(m, Height(stored), Width(stored))
  {
    FlattenLength(stored);
    Chunk(Collect(order, Flatten(stored)), Height(stored), Width(stored))
  }

  /** Top-down assembly gives the stored grid back; bottom-up assembly
      turns it by half a turn. */
  lemma AssembleTurns<T>(order: RowOrder, stored: Grid<T>)
    requires Rectangular(stored)
    ensures Assemble(order, stored) == if order == BottomUp then HalfTurn(stored) else stored
  {
    ChunkFlatten(stored);
    if order == BottomUp {
      CollectFlatten(stored);
      ChunkFlatten(HalfTurn(stored));
    }
  }

  // ------------------------------------------------------------- decoding

  /** `readBitmapFromFile` as written: every pixel read is passed to
      `appendBlock`, and the list is then cut into `|height|` rows. */
  function ReadBitmapFromFile(file: Option<seq<byte>>): (r: Result<Grid<RGBPixel>, ReaderError>)
    requires file.Some? ==> Readable(file.value)
    ensures r.Err? <==> file.None?
    ensures r.Err? ==> r.error == FileNotFoundError
    ensures r.Ok? ==> (Rectangular(r.value) &&
      HasShape(r.value, GeometryOf(file.value).rows, GeometryOf(file.value).Columns()))
  {
    match file
    case None => Err(FileNotFoundError)
    case Some(bytes) =>
      Ok(Assemble(OrderOf(GeometryOf(bytes).height), Storage(bytes)))
  }

  /** The reader never reports `UnsupportedFormat`. */
  lemma NeverUnsupported(file: Option<seq<byte>>)
    requires file.Some? ==> Readable(file.value)
    ensures ReadBitmapFromFile(file) != Err(UnsupportedFormat)
  {
  }

  /** A file with no rows decodes to the empty image, whatever its width
      and colour depth: no pixel is read, so only the checks made for every
      file apply. */
  lemma NoRowsEmptyImage(file: seq<byte>)
    requires |file| >= HeadersEnd && GeometryOf(file).rows == 0
    requires var g := GeometryOf(file);
      g.height != Int32Min && Int32Min <= g.bpc * g.width <= Int32Max && g.dataOffset >= 0
    ensures Readable(file)
    ensures ReadBitmapFromFile(Some(file)) == Ok([])
  {
  }

  /** The decoded image of a top-down file is its stored grid; that of a
      bottom-up file is its stored grid turned by half a turn. */
  lemma ReadBitmapTurns(file: seq<byte>)
    requires Readable(file)
    ensures ReadBitmapFromFile(Some(file)) ==
      Ok(if GeometryOf(file).height > 0 then HalfTurn(Storage(file)) else Storage(file))
  {
    AssembleTurns(OrderOf(GeometryOf(file).height), Storage(file));
  }

  /** The decoder with rows, not pixels, collected in reverse for bottom-up
      files: a vertical flip of the stored rows. */
  function ReadBitmapRowFlip(file: Option<seq<byte>>): (r: Result<Grid<RGBPixel>, ReaderError>)
    requires file.Some? ==> Readable(file.value)
    ensures r.Err? <==> file.None?
    ensures r.Err? ==> r.error == FileNotFoundError
    ensures r.Ok? ==> (Rectangular(r.value) &&
      HasShape(r.value, GeometryOf(file.value).rows, GeometryOf(file.value).Columns()))
  {
    match file
    case None => Err(FileNotFoundError)
    case Some(bytes) =>
      Ok(Collect(OrderOf(GeometryOf(bytes).height), Storage(bytes)))
  }

  /** Row `i` of the corrected decoder is stored row `rows-1-i` for a
      positive height and stored row `i` otherwise, pixels in stored order. */
  lemma ReadBitmapRowFlipPixel(file: seq<byte>, i: nat, j: nat)
    requires Readable(file)
    requires i < GeometryOf(file).rows && j < GeometryOf(file).width
    ensures ReadBitmapRowFlip(Some(file)).Ok?
    ensures var g := GeometryOf(file);
      ReadBitmapRowFlip(Some(file)).value[i][j] ==
        if g.height > 0 then StoredPixel(file, g.rows - 1 - i, j)
        else StoredPixel(file, i, j)
  {
  }

  /** For a bottom-up file the decoder as written returns the vertically
      flipped image with every row mirrored left to right. */
  lemma ReadBitmapMirrorsRowFlip(file: seq<byte>)
    requires Readable(file)
    ensures ReadBitmapFromFile(Some(file)).Ok? && ReadBitmapRowFlip(Some(file)).Ok?
    ensures GeometryOf(file).height > 0 ==>
      ReadBitmapFromFile(Some(file)).value == MirrorRows(ReadBitmapRowFlip(Some(file)).value)
  {
    ReadBitmapTurns(file);
    HalfTurnFlipsAndMirrors(Storage(file));
  }

  /** The smallest witness: a bottom-up image of one row holding two
      different pixels comes out with the two swapped, while flipping the
      rows leaves it as stored. */
  lemma OneRowMirrored<T>(p: T, q: T)
    requires p != q
    ensures HalfTurn([[p, q]]) == [[q, p]]
    ensures Collect(BottomUp, [[p, q]]) == [[p, q]]
    ensures HalfTurn([[p, q]]) != Collect(BottomUp, [[p, q]])
  {
    var m := [[p, q]];
    HalfTurnAt(m, 0, 0);
    HalfTurnAt(m, 0, 1);
    assert HalfTurn(m)[0] == [q, p];
    assert HalfTurn(m)[0][0] != m[0][0];
  }

  // --------------------------------------------------------- display buffer

  /** A pixel as the view's 32-bit buffer holds it: blue, green, red, and a
      zero byte. */
  function DisplayBytes(p: RGBPixel): seq<byte>
  {
    [p.blue, p.green, p.red, 0]
  }

  /** The display bytes of each pixel in turn. */
  function Interleave(ps: seq<RGBPixel>): (buf: seq<byte>)
    ensures |buf| == 4 * |ps|
    ensures forall i :: 0 <= i < |ps| ==> buf[4 * i..4 * i + 4] == DisplayBytes(ps[i])
  {
    if |ps| == 0 then []
    else
      var rest := Interleave(ps[1..]);
      var buf := DisplayBytes(ps[0]) + rest;
      assert forall i :: 1 <= i < |ps| ==> buf[4 * i..4 * i + 4] == rest[4 * (i - 1)..4 * (i - 1) + 4];
      buf
  }

  /** The buffer `createViewFromBitmapData` fills, `4 * height * width`
      bytes, pixel by pixel in row-major order. */
  function DisplayBuffer(m: Grid<RGBPixel>): (buf: seq<byte>)
    requires Rectangular(m)
    ensures |buf| == 4 * (Height(m) * Width(m))
  {
    FlattenLength(m);
    Interleave(Flatten(m))
  }

  /** Pixel `(r, c)` lands at bytes `4 * (r * width + c)` onwards, as blue,
      green, red and a zero byte. */
  lemma DisplayBufferPixel(m: Grid<RGBPixel>, r: nat, c: nat)
    requires Rectangular(m) && r < Height(m) && c < Width(m)
    ensures 4 * (r * Width(m) + c) + 4 <= |DisplayBuffer(m)|
    ensures DisplayBuffer(m)[4 * (r * Width(m) + c)..4 * (r * Width(m) + c) + 4] == DisplayBytes(m[r][c])
  {
    FlattenAt(m, r, c);
    FlattenLength(m);
  }
}
