/** The records of a Windows BMP file the reader loads (BITMAPFILEHEADER
    without its two-byte signature, and BITMAPINFOHEADER) and the pixel
    type of the decoded image. */
module BitmapStructs {
  import opened ByteOrder

  /** The file header after the signature: `Int32, Int16, Int16, Int32`. */
  datatype FileHeader = FileHeader(fileSize: int, reservedWord1: int, reservedWord2: int, dataOffset: int)
  {
    function Fields(): seq<int>
    {
      [fileSize, reservedWord1, reservedWord2, dataOffset]
    }
  }

  /** The info header: three `Int32`, two `Int16`, six `Int32`. */
  datatype BitmapHeader = BitmapHeader(
    size: int, width: int, height: int, bitPlanes: int, colorDepth: int,
    compression: int, imageSize: int, xppm: int, yppm: int,
    usedColors: int, importantColors: int)
  {
    function Fields(): seq<int>
    {
      [size, width, height, bitPlanes, colorDepth, compression, imageSize, xppm, yppm, usedColors, importantColors]
    }
  }

  /** Field widths in declaration order; the fields are packed with no gaps. */
  const FileHeaderLayout: seq<nat> := [4, 2, 2, 4]
  const BitmapHeaderLayout: seq<nat> := [4, 4, 4, 2, 2, 4, 4, 4, 4, 4, 4]

  const FileHeaderSize: nat := 12
  const BitmapHeaderSize: nat := 40

  lemma LayoutSizes()
    ensures Widths(FileHeaderLayout) && Sum(FileHeaderLayout) == FileHeaderSize
    ensures Widths(BitmapHeaderLayout) && Sum(BitmapHeaderLayout) == BitmapHeaderSize
  {
  }

  /** Where each field starts. */
  const FileHeaderOffsets: seq<nat> := [0, 4, 6, 8]
  const BitmapHeaderOffsets: seq<nat> := [0, 4, 8, 12, 14, 16, 20, 24, 28, 32, 36]

  lemma {:induction false} OffsetsFrom(widths: seq<nat>, offsets: seq<nat>, k: nat)
    requires |offsets| == |widths| && k < |widths| && offsets[0] == 0
    requires forall t :: 0 <= t < k ==> offsets[t + 1] == offsets[t] + widths[t]
    ensures Offset(widths, k) == offsets[k]
  {
    if k == 0 {
      assert widths[..0] == [];
    } else {
      OffsetsFrom(widths, offsets, k - 1);
      OffsetNext(widths, k - 1);
    }
  }

  lemma LayoutOffsets(k: nat)
    ensures k < 4 ==> Offset(FileHeaderLayout, k) == FileHeaderOffsets[k]
    ensures k < 11 ==> Offset(BitmapHeaderLayout, k) == BitmapHeaderOffsets[k]
  {
    if k < 4 {
      OffsetsFrom(FileHeaderLayout, FileHeaderOffsets, k);
    }
    if k < 11 {
      OffsetsFrom(BitmapHeaderLayout, BitmapHeaderOffsets, k);
    }
  }

  /** Field `k` of a packed header is the signed load at its offset. */
  lemma FileFieldAt(bs: seq<byte>, k: nat)
    requires |bs| == FileHeaderSize && k < 4
    ensures Widths(FileHeaderLayout) && Sum(FileHeaderLayout) == |bs|
    ensures FileHeaderOffsets[k] + FileHeaderLayout[k] <= |bs|
    ensures LoadFields(FileHeaderLayout, bs)[k]
      == LoadSigned(bs[FileHeaderOffsets[k]..FileHeaderOffsets[k] + FileHeaderLayout[k]])
  {
    LayoutSizes();
    LayoutOffsets(k);
    LoadFieldAt(FileHeaderLayout, bs, k);
  }

  lemma BitmapFieldAt(bs: seq<byte>, k: nat)
    requires |bs| == BitmapHeaderSize && k < 11
    ensures Widths(BitmapHeaderLayout) && Sum(BitmapHeaderLayout) == |bs|
    ensures BitmapHeaderOffsets[k] + BitmapHeaderLayout[k] <= |bs|
    ensures LoadFields(BitmapHeaderLayout, bs)[k]
      == LoadSigned(bs[BitmapHeaderOffsets[k]..BitmapHeaderOffsets[k] + BitmapHeaderLayout[k]])
  {
    LayoutSizes();
    LayoutOffsets(k);
    LoadFieldAt(BitmapHeaderLayout, bs, k);
  }

  /** Every field fits its declared width. */
  predicate FileHeaderFits(h: FileHeader)
  {
    FieldsFit(h.Fields(), FileHeaderLayout)
  }

  predicate BitmapHeaderFits(h: BitmapHeader)
  {
    FieldsFit(h.Fields(), BitmapHeaderLayout)
  }

  function FileHeaderOf(vs: seq<int>): FileHeader
    requires |vs| == 4
  {
    FileHeader(vs[0], vs[1], vs[2], vs[3])
  }

  function BitmapHeaderOf(vs: seq<int>): BitmapHeader
    requires |vs| == 11
  {
    BitmapHeader(vs[0], vs[1], vs[2], vs[3], vs[4], vs[5], vs[6], vs[7], vs[8], vs[9], vs[10])
  }

  /** A native load of the 12-byte file header: the fields in declaration
      order, each the signed load of its bytes (see `FileHeaderField`). */
  function LoadFileHeader(bs: seq<byte>): (h: FileHeader)
    requires |bs| == FileHeaderSize
    ensures FileHeaderFits(h)
  {
    LayoutSizes();
    var vs := LoadFields(FileHeaderLayout, bs);
    FileHeaderFieldsOf(vs);
    FileHeaderOf(vs)
  }

  lemma FileHeaderFieldsOf(vs: seq<int>)
    requires |vs| == 4
    ensures FileHeaderOf(vs).Fields() == vs
  {
  }

  /** Every field of the file header is the signed load of its bytes:
      `fileSize` at byte 0, the reserved words at 4 and 6, `dataOffset` at 8. */
  lemma FileHeaderField(bs: seq<byte>, k: nat)
    requires |bs| == FileHeaderSize && k < 4
    ensures FileHeaderOffsets[k] + FileHeaderLayout[k] <= |bs|
    ensures LoadFileHeader(bs).Fields()[k]
      == LoadSigned(bs[FileHeaderOffsets[k]..FileHeaderOffsets[k] + FileHeaderLayout[k]])
  {
    LayoutSizes();
    FileFieldAt(bs, k);
    FileHeaderFieldsOf(LoadFields(FileHeaderLayout, bs));
  }

  /** A native load of the 40-byte info header. */
  function LoadBitmapHeader(bs: seq<byte>): (h: BitmapHeader)
    requires |bs| == BitmapHeaderSize
    ensures BitmapHeaderFits(h)
  {
    LayoutSizes();
    var vs := LoadFields(BitmapHeaderLayout, bs);
    BitmapHeaderFieldsOf(vs);
    BitmapHeaderOf(vs)
  }

  lemma BitmapHeaderFieldsOf(vs: seq<int>)
    requires |vs| == 11
    ensures BitmapHeaderOf(vs).Fields() == vs
  {
  }

  /** Every field of the info header is the signed load of its bytes, at the
      offsets of `BitmapHeaderOffsets`; the reader uses `width` at byte 4,
      `height` at 8 and `colorDepth` at 14. */
  lemma BitmapHeaderField(bs: seq<byte>, k: nat)
    requires |bs| == BitmapHeaderSize && k < 11
    ensures BitmapHeaderOffsets[k] + BitmapHeaderLayout[k] <= |bs|
    ensures LoadBitmapHeader(bs).Fields()[k]
      == LoadSigned(bs[BitmapHeaderOffsets[k]..BitmapHeaderOffsets[k] + BitmapHeaderLayout[k]])
  {
    LayoutSizes();
    BitmapFieldAt(bs, k);
    BitmapHeaderFieldsOf(LoadFields(BitmapHeaderLayout, bs));
  }

  /** The three info header fields the reader uses. */
  lemma BitmapHeaderUsedFields(bs: seq<byte>)
    requires |bs| == BitmapHeaderSize
    ensures LoadBitmapHeader(bs).width == LoadSigned(bs[4..8])
    ensures LoadBitmapHeader(bs).height == LoadSigned(bs[8..12])
    ensures LoadBitmapHeader(bs).colorDepth == LoadSigned(bs[14..16])
  {
    BitmapHeaderField(bs, 1);
    BitmapHeaderField(bs, 2);
    BitmapHeaderField(bs, 4);
  }

  /** The bytes a native store of the header would write. */
  function StoreFileHeader(h: FileHeader): (bs: seq<byte>)
    requires FileHeaderFits(h)
    ensures |bs| == FileHeaderSize
  {
    LayoutSizes();
    StoreFields(FileHeaderLayout, h.Fields())
  }

  function StoreBitmapHeader(h: BitmapHeader): (bs: seq<byte>)
    requires BitmapHeaderFits(h)
    ensures |bs| == BitmapHeaderSize
  {
    LayoutSizes();
    StoreFields(BitmapHeaderLayout, h.Fields())
  }

  /** Loading is the inverse of storing, both ways round: every header that
      fits has one encoding, and every 12 bytes are some header. */
  lemma LoadStoreFileHeader(h: FileHeader)
    requires FileHeaderFits(h)
    ensures LoadFileHeader(StoreFileHeader(h)) == h
  {
    LayoutSizes();
    LoadStoreFields(FileHeaderLayout, h.Fields());
    var h' := LoadFileHeader(StoreFileHeader(h));
    assert h'.Fields() == h.Fields();
  }

  lemma StoreLoadFileHeader(bs: seq<byte>)
    requires |bs| == FileHeaderSize
    ensures StoreFileHeader(LoadFileHeader(bs)) == bs
  {
    LayoutSizes();
    StoreLoadFields(FileHeaderLayout, bs);
    FileHeaderFieldsOf(LoadFields(FileHeaderLayout, bs));
  }

  lemma LoadStoreBitmapHeader(h: BitmapHeader)
    requires BitmapHeaderFits(h)
    ensures LoadBitmapHeader(StoreBitmapHeader(h)) == h
  {
    LayoutSizes();
    LoadStoreFields(BitmapHeaderLayout, h.Fields());
    var h' := LoadBitmapHeader(StoreBitmapHeader(h));
    assert h'.Fields() == h.Fields();
  }

  lemma StoreLoadBitmapHeader(bs: seq<byte>)
    requires |bs| == BitmapHeaderSize
    ensures StoreBitmapHeader(LoadBitmapHeader(bs)) == bs
  {
    LayoutSizes();
    StoreLoadFields(BitmapHeaderLayout, bs);
    BitmapHeaderFieldsOf(LoadFields(BitmapHeaderLayout, bs));
  }

  // ------------------------------------------------------------------ pixels

  /** A pixel; its channels are stored in the order red, green, blue, alpha. */
  datatype RGBPixel = RGBPixel(red: byte, green: byte, blue: byte, alpha: byte)

  /** The four channel bytes in storage order. */
  function Channels(p: RGBPixel): (cs: seq<byte>)
  {
    [p.red, p.green, p.blue, p.alpha]
  }

  /** The pixel whose channel bytes, in storage order, are `cs`. */
  function PixelOf(cs: seq<byte>): (p: RGBPixel)
    requires |cs| == 4
  {
    RGBPixel(cs[0], cs[1], cs[2], cs[3])
  }

  lemma ChannelsRoundTrip(p: RGBPixel, cs: seq<byte>)
    requires |cs| == 4
    ensures PixelOf(Channels(p)) == p && Channels(PixelOf(cs)) == cs
  {
  }

  /** The pixel with every channel zero. */
  function EmptyPixel(): (p: RGBPixel)
    ensures forall k :: 0 <= k < 4 ==> Channels(p)[k] == 0
  {
    RGBPixel(0, 0, 0, 0)
  }

  /** The pixel `==`: all four channels agree. It coincides with equality of
      pixels, hence is an equivalence relation. */
  function PixelEquals(lhs: RGBPixel, rhs: RGBPixel): (same: bool)
    ensures same <==> lhs == rhs
    ensures same <==> Channels(lhs) == Channels(rhs)
  {
    lhs.red == rhs.red && lhs.green == rhs.green && lhs.blue == rhs.blue && lhs.alpha == rhs.alpha
  }
}
