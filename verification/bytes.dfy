/** Little-endian integer fields in byte buffers: what a native load of an
    `Int16`/`Int32` from raw bytes yields on the little-endian machines the
    reader runs on, and the inverse stores used to state round trips. */
module ByteOrder {

  type byte = x: int | 0 <= x < 256

  function Pow256(k: nat): (p: nat)
    ensures p >= 1
  {
    if k == 0 then 1 else 256 * Pow256(k - 1)
  }

  // ------------------------------------------------------------- unsigned

  /** The unsigned value of `bs`, least significant byte first. */
  function LoadUnsigned(bs: seq<byte>): (x: nat)
    ensures x < Pow256(|bs|)
  {
    if |bs| == 0 then 0 else bs[0] + 256 * LoadUnsigned(bs[1..])
  }

  /** The `k` bytes of `x`, least significant first. */
  function StoreUnsigned(x: nat, k: nat): (bs: seq<byte>)
    requires x < Pow256(k)
    ensures |bs| == k
  {
    if k == 0 then [] else [x % 256] + StoreUnsigned(x / 256, k - 1)
  }

  lemma {:induction false} LoadStoreUnsigned(x: nat, k: nat)
    requires x < Pow256(k)
    ensures LoadUnsigned(StoreUnsigned(x, k)) == x
  {
    if k > 0 {
      LoadStoreUnsigned(x / 256, k - 1);
      assert StoreUnsigned(x, k)[1..] == StoreUnsigned(x / 256, k - 1);
    }
  }

  lemma {:induction false} StoreLoadUnsigned(bs: seq<byte>)
    ensures StoreUnsigned(LoadUnsigned(bs), |bs|) == bs
  {
    if |bs| > 0 {
      StoreLoadUnsigned(bs[1..]);
      var x := LoadUnsigned(bs);
      assert x % 256 == bs[0] && x / 256 == LoadUnsigned(bs[1..]);
    }
  }

  /** The top half of the unsigned range is exactly the values whose last
      (most significant) byte has its high bit set. */
  lemma {:induction false} HighBit(bs: seq<byte>)
    requires |bs| >= 1
    ensures Pow256(|bs|) % 2 == 0
    ensures LoadUnsigned(bs) >= Pow256(|bs|) / 2 <==> bs[|bs| - 1] >= 128
  {
    if |bs| > 1 {
      HighBit(bs[1..]);
      assert bs[1..][|bs| - 2] == bs[|bs| - 1];
    }
  }

  // --------------------------------------------------------------- signed

  /** `x` fits a `k`-byte two's complement field. */
  predicate FitsSigned(x: int, k: nat)
  {
    k >= 1 && -(Pow256(k) / 2) <= x < Pow256(k) / 2
  }

  /** The two's complement value of `bs`, least significant byte first: a
      native load of a signed integer on a little-endian machine. Negative
      exactly when the last byte's high bit is set. */
  function LoadSigned(bs: seq<byte>): (x: int)
    requires |bs| >= 1
    ensures FitsSigned(x, |bs|)
    ensures x < 0 <==> bs[|bs| - 1] >= 128
  {
    HighBit(bs);
    var u := LoadUnsigned(bs);
    if u >= Pow256(|bs|) / 2 then u - Pow256(|bs|) else u
  }

  /** The `k`-byte two's complement encoding of `x`. */
  function StoreSigned(x: int, k: nat): (bs: seq<byte>)
    requires FitsSigned(x, k)
    ensures |bs| == k
  {
    StoreUnsigned(if x < 0 then x + Pow256(k) else x, k)
  }

  lemma LoadStoreSigned(x: int, k: nat)
    requires FitsSigned(x, k)
    ensures LoadSigned(StoreSigned(x, k)) == x
  {
    HighBit(StoreSigned(x, k));
    LoadStoreUnsigned(if x < 0 then x + Pow256(k) else x, k);
  }

  lemma StoreLoadSigned(bs: seq<byte>)
    requires |bs| >= 1
    ensures StoreSigned(LoadSigned(bs), |bs|) == bs
  {
    HighBit(bs);
    StoreLoadUnsigned(bs);
  }

  /** A slice of a slice is a slice of the whole. */
  lemma SliceOfSlice(s: seq<byte>, a: nat, b: nat, i: nat, j: nat)
    requires a <= b <= |s| && i <= j <= b - a
    ensures s[a..b][i..j] == s[a + i..a + j]
  {
    assert forall k :: 0 <= k < j - i ==> s[a..b][i..j][k] == s[a + i + k];
  }

  // ------------------------------------------------------ records of fields

  /** Total width of a record whose fields have the given byte widths. */
  function Sum(widths: seq<nat>): nat
  {
    if |widths| == 0 then 0 else widths[0] + Sum(widths[1..])
  }

  /** Byte offset of field `k`: the widths of the fields before it. */
  function Offset(widths: seq<nat>, k: nat): nat
    requires k <= |widths|
  {
    Sum(widths[..k])
  }

  predicate Widths(widths: seq<nat>)
  {
    forall k :: 0 <= k < |widths| ==> widths[k] >= 1
  }

  lemma {:induction false} SumAppend(s: seq<nat>, x: nat)
    ensures Sum(s + [x]) == Sum(s) + x
  {
    if |s| > 0 {
      SumAppend(s[1..], x);
      assert (s + [x])[1..] == s[1..] + [x];
    }
  }

  /** The next field starts where this one ends. */
  lemma OffsetNext(widths: seq<nat>, k: nat)
    requires k < |widths|
    ensures Offset(widths, k + 1) == Offset(widths, k) + widths[k]
  {
    assert widths[..k + 1] == widths[..k] + [widths[k]];
    SumAppend(widths[..k], widths[k]);
  }

  lemma OffsetStep(widths: seq<nat>, k: nat)
    requires 0 < k <= |widths|
    ensures Offset(widths, k) == widths[0] + Offset(widths[1..], k - 1)
  {
    assert widths[..k][1..] == widths[1..][..k - 1];
  }

  /** The bytes of each field of a packed record with no gaps, in order. */
  function Split(widths: seq<nat>, bs: seq<byte>): (parts: seq<seq<byte>>)
    requires |bs| == Sum(widths)
    ensures |parts| == |widths|
    ensures forall k :: 0 <= k < |parts| ==> |parts[k]| == widths[k]
  {
    if |widths| == 0 then []
    else [bs[..widths[0]]] + Split(widths[1..], bs[widths[0]..])
  }

  /** The parts laid end to end. */
  function Join(parts: seq<seq<byte>>): seq<byte>
  {
    if |parts| == 0 then [] else parts[0] + Join(parts[1..])
  }

  /** Part `k` is the bytes at field `k`'s offset. */
  lemma {:induction false} SplitAt(widths: seq<nat>, bs: seq<byte>, k: nat)
    requires |bs| == Sum(widths) && k < |widths|
    ensures Offset(widths, k) + widths[k] <= |bs|
    ensures Split(widths, bs)[k] == bs[Offset(widths, k)..Offset(widths, k) + widths[k]]
  {
    var rest := bs[widths[0]..];
    if k == 0 {
      assert widths[..0] == [];
    } else {
      SplitAt(widths[1..], rest, k - 1);
      OffsetStep(widths, k);
      var o := Offset(widths[1..], k - 1);
      assert rest[o..o + widths[k]] == bs[widths[0] + o..widths[0] + o + widths[k]];
    }
  }

  /** Joining parts of the given widths and splitting again gives the parts. */
  lemma {:induction false} SplitJoin(widths: seq<nat>, parts: seq<seq<byte>>)
    requires |parts| == |widths| && forall k :: 0 <= k < |parts| ==> |parts[k]| == widths[k]
    ensures |Join(parts)| == Sum(widths)
    ensures Split(widths, Join(parts)) == parts
  {
    if |parts| > 0 {
      SplitJoin(widths[1..], parts[1..]);
      var bs := Join(parts);
      assert bs[..widths[0]] == parts[0] && bs[widths[0]..] == Join(parts[1..]);
    }
  }

  /** Splitting a record and joining the parts gives the record. */
  lemma {:induction false} JoinSplit(widths: seq<nat>, bs: seq<byte>)
    requires |bs| == Sum(widths)
    ensures Join(Split(widths, bs)) == bs
  {
    if |widths| > 0 {
      JoinSplit(widths[1..], bs[widths[0]..]);
      assert Split(widths, bs)[1..] == Split(widths[1..], bs[widths[0]..]);
      assert bs == bs[..widths[0]] + bs[widths[0]..];
    }
  }

  /** Each value fits the field width at its position. */
  predicate FieldsFit(vs: seq<int>, widths: seq<nat>)
  {
    |vs| == |widths| && forall k :: 0 <= k < |vs| ==> FitsSigned(vs[k], widths[k])
  }

  /** Field values of a packed record: the signed load of each field's bytes. */
  function LoadFields(widths: seq<nat>, bs: seq<byte>): (vs: seq<int>)
    requires Widths(widths) && |bs| == Sum(widths)
    ensures FieldsFit(vs, widths)
  {
    var parts := Split(widths, bs);
    seq(|widths|, k requires 0 <= k < |widths| => LoadSigned(parts[k]))
  }

  /** The encodings of the given field values. */
  function Encodings(widths: seq<nat>, vs: seq<int>): (parts: seq<seq<byte>>)
    requires FieldsFit(vs, widths)
    ensures |parts| == |widths| && forall k :: 0 <= k < |parts| ==> |parts[k]| == widths[k]
  {
    seq(|vs|, k requires 0 <= k < |vs| => StoreSigned(vs[k], widths[k]))
  }

  /** The packed record holding the given field values. */
  function StoreFields(widths: seq<nat>, vs: seq<int>): (bs: seq<byte>)
    requires FieldsFit(vs, widths)
    ensures |bs| == Sum(widths)
  {
    var parts := Encodings(widths, vs);
    SplitJoin(widths, parts);
    Join(parts)
  }

  /** Field `k` is the signed load of the bytes at its offset. */
  lemma LoadFieldAt(widths: seq<nat>, bs: seq<byte>, k: nat)
    requires Widths(widths) && |bs| == Sum(widths) && k < |widths|
    ensures Offset(widths, k) + widths[k] <= |bs|
    ensures LoadFields(widths, bs)[k] == LoadSigned(bs[Offset(widths, k)..Offset(widths, k) + widths[k]])
  {
    SplitAt(widths, bs, k);
  }

  lemma LoadStoreFields(widths: seq<nat>, vs: seq<int>)
    requires Widths(widths) && FieldsFit(vs, widths)
    ensures LoadFields(widths, StoreFields(widths, vs)) == vs
  {
    var parts := Encodings(widths, vs);
    SplitJoin(widths, parts);
    forall k | 0 <= k < |vs|
      ensures LoadFields(widths, StoreFields(widths, vs))[k] == vs[k]
    {
      LoadStoreSigned(vs[k], widths[k]);
    }
  }

  lemma StoreLoadFields(widths: seq<nat>, bs: seq<byte>)
    requires Widths(widths) && |bs| == Sum(widths)
    ensures StoreFields(widths, LoadFields(widths, bs)) == bs
  {
    var parts := Split(widths, bs);
    var vs := LoadFields(widths, bs);
    forall k | 0 <= k < |vs|
      ensures Encodings(widths, vs)[k] == parts[k]
    {
      StoreLoadSigned(parts[k]);
    }
    assert Encodings(widths, vs) == parts;
    JoinSplit(widths, bs);
  }
}
