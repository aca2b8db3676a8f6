/** The frame converter of the viewfinder callback: it repacks a strided NV12
    camera surface into a freshly allocated, tightly packed I420 surface. */
module Converter {
  import opened Layout

  /** The frame types the camera can deliver; only NV12 is converted. */
  datatype FrameType = Nv12 | OtherFrameType(code: int)

  /** A camera buffer: its frame type, the NV12 descriptor and the pixel bytes. */
  datatype CameraBuffer = CameraBuffer(frametype: FrameType, desc: Nv12Desc, framebuf: array<byte>)

  /** `out` holds the packed I420 image of the NV12 bytes `src` described by `d`:
      every luma sample copied from its strided row, every even byte of the
      interleaved chroma rows in the U plane and every odd byte in the V plane. */
  ghost predicate IsConversionOf(out: seq<byte>, src: seq<byte>, d: Nv12Desc)
  {
    LumaRowsDone(out, src, d, d.height) && ChromaRowsDone(out, src, d, d.height / 2)
  }

  /** The luma rows before row `i` have been copied without their padding. */
  ghost predicate LumaRowsDone(out: seq<byte>, src: seq<byte>, d: Nv12Desc, i: nat)
  {
    var w := d.width;
    forall i': nat, j: nat | i' < i && j < w ::
      LumaDst(w, i', j) < |out| && LumaSrc(d.stride, i', j) < |src| &&
      out[LumaDst(w, i', j)] == src[LumaSrc(d.stride, i', j)]
  }

  /** The chroma rows before row `i` have been split into the U and V planes. */
  ghost predicate ChromaRowsDone(out: seq<byte>, src: seq<byte>, d: Nv12Desc, i: nat)
  {
    var w, h := d.width, d.height;
    forall i': nat, j: nat | i' < i && j < w / 2 ::
      UDst(w, h, i', j) < |out| && VDst(w, h, i', j) < |out| && ChromaSrc(d, i', j) + 1 < |src| &&
      out[UDst(w, h, i', j)] == src[ChromaSrc(d, i', j)] &&
      out[VDst(w, h, i', j)] == src[ChromaSrc(d, i', j) + 1]
  }

  /** `memcpy(dst + doff, src + soff, n)` between two distinct buffers. */
  method Memcpy(dst: array<byte>, doff: nat, src: array<byte>, soff: nat, n: nat)
    requires dst != src
    requires doff + n <= dst.Length && soff + n <= src.Length
    modifies dst
    ensures forall k | doff <= k < doff + n :: dst[k] == src[k - doff + soff]
    ensures forall k | 0 <= k < dst.Length && !(doff <= k < doff + n) :: dst[k] == old(dst[k])
  {
    var t := 0;
    while t < n
      invariant 0 <= t <= n
      invariant forall k | doff <= k < doff + t :: dst[k] == src[k - doff + soff]
      invariant forall k | 0 <= k < dst.Length && !(doff <= k < doff + t) :: dst[k] == old(dst[k])
    {
      dst[doff + t] := src[soff + t];
      t := t + 1;
    }
  }

  /** The repacking half of the viewfinder callback: allocate a packed buffer
      of `width * height * 3 / 2` bytes, copy the luma rows without their stride
      padding, then split the interleaved chroma rows into the U and V planes,
      and describe the result with `stride == width` and `uv_offset == width * height`. */
  method Convert(buf: CameraBuffer) returns (packed: CameraBuffer)
    requires Nv12Fits(buf.desc, buf.framebuf.Length) && NoWrap(buf.desc)
    ensures packed.frametype == buf.frametype
    ensures packed.desc == PackedDesc(buf.desc)
    ensures fresh(packed.framebuf)
    ensures packed.framebuf.Length == PackedSize(buf.desc.width, buf.desc.height)
    ensures IsConversionOf(packed.framebuf[..], buf.framebuf[..], buf.desc)
  {
    var d := buf.desc;
    var w, h := d.width, d.height;
    NoWrapPacked(d);
    // The sizes and offsets are `uint32_t` products in the C code.
    var size := Wrap32(Wrap32(w * h) * 3) / 2;
    var stride := w;
    var uvOffset := Wrap32(stride * h);
    var out := new byte[size];
    packed := CameraBuffer(buf.frametype, Nv12Desc(w, h, stride, uvOffset), out);
    ChromaPlaneFits(d.width, d.height);
    CopyLuma(out, buf.framebuf, d);
    ghost var lumaDone := out[..];
    SplitChroma(out, buf.framebuf, d);
    LumaRowsKept(lumaDone, out[..], buf.framebuf[..], d);
  }

  /** The first loop of the conversion: one `memcpy` of `width` bytes per row,
      from offset `i * stride` of the camera buffer to offset `i * width` of the
      packed one. Nothing past the luma plane is written. */
  method CopyLuma(out: array<byte>, src: array<byte>, d: Nv12Desc)
    requires out != src
    requires Nv12Fits(d, src.Length) && NoWrap(d) && d.width * d.height <= out.Length
    modifies out
    ensures LumaRowsDone(out[..], src[..], d, d.height)
    ensures forall k | d.width * d.height <= k < out.Length :: out[k] == old(out[k])
  {
    var w, h, s := d.width, d.height, d.stride;
    var i: nat := 0;
    while i < h
      invariant i <= h
      invariant LumaRowsDone(out[..], src[..], d, i)
      invariant forall k | w * h <= k < out.Length :: out[k] == old(out[k])
    {
      CopyLumaRow(out, src, d, i);
      i := i + 1;
    }
  }

  /** One pass of the luma loop: `memcpy` row `i` from offset `i * stride`
      to offset `i * width`, both computed as `uint32_t` products. */
  method CopyLumaRow(out: array<byte>, src: array<byte>, d: Nv12Desc, i: nat)
    requires out != src && i < d.height
    requires Nv12Fits(d, src.Length) && NoWrap(d) && d.width * d.height <= out.Length
    requires LumaRowsDone(out[..], src[..], d, i)
    modifies out
    ensures LumaRowsDone(out[..], src[..], d, i + 1)
    ensures forall k | d.width * d.height <= k < out.Length :: out[k] == old(out[k])
  {
    var w, s := d.width, d.stride;
    LumaRowOffsets(d, i);
    var doff, soff := Wrap32(i * w), Wrap32(i * s);
    assert soff + w <= src.Length by { assert LumaSrc(s, i, 0) + w <= src.Length; }
    ghost var before := out[..];
    Memcpy(out, doff, src, soff, w);
    LumaRowStep(before, out[..], src[..], d, i);
  }

  /** Copying row `i` into `[i * width, (i + 1) * width)` keeps the rows before it. */
  lemma {:induction false} LumaRowStep(before: seq<byte>, after: seq<byte>, src: seq<byte>, d: Nv12Desc, i: nat)
    requires |before| == |after|
    requires RowOffset(d.width, i) + d.width <= |after| && RowOffset(d.stride, i) + d.width <= |src|
    requires forall k | RowOffset(d.width, i) <= k < RowOffset(d.width, i) + d.width ::
      after[k] == src[k - RowOffset(d.width, i) + RowOffset(d.stride, i)]
    requires forall k | 0 <= k < |after| && !(RowOffset(d.width, i) <= k < RowOffset(d.width, i) + d.width) ::
      after[k] == before[k]
    requires LumaRowsDone(before, src, d, i)
    ensures LumaRowsDone(after, src, d, i + 1)
  {
    var w := d.width;
    forall i': nat, j: nat | i' < i + 1 && j < w
      ensures LumaDst(w, i', j) < |after| && LumaSrc(d.stride, i', j) < |src|
      ensures after[LumaDst(w, i', j)] == src[LumaSrc(d.stride, i', j)]
    {
      if i' < i {
        RowBefore(w, i', j, i);
      }
    }
  }

  /** Splitting the chroma plane writes no luma byte, so the luma rows survive it. */
  lemma {:induction false} LumaRowsKept(before: seq<byte>, after: seq<byte>, src: seq<byte>, d: Nv12Desc)
    requires |before| == |after|
    requires forall k | 0 <= k < d.width * d.height && k < |after| :: after[k] == before[k]
    requires LumaRowsDone(before, src, d, d.height)
    ensures LumaRowsDone(after, src, d, d.height)
  {
    forall i': nat, j: nat | i' < d.height && j < d.width
      ensures LumaDst(d.width, i', j) < d.width * d.height
    {
      LumaInPlane(d.width, d.height, i', j);
    }
  }

  /** The second loop of the conversion: walk each interleaved chroma row two
      bytes at a time, the even byte to the U plane and the odd byte to the V
      plane, then advance the source row pointer by `stride`. */
  method SplitChroma(out: array<byte>, src: array<byte>, d: Nv12Desc)
    requires out != src
    requires Nv12Fits(d, src.Length) && NoWrap(d) && out.Length == PackedSize(d.width, d.height)
    modifies out
    ensures ChromaRowsDone(out[..], src[..], d, d.height / 2)
    ensures forall k | 0 <= k < d.width * d.height && k < out.Length :: out[k] == old(out[k])
  {
    var w, h, s := d.width, d.height, d.stride;
    var srcuv: nat := d.uvOffset;
    var lumaSize := Wrap32(w * h);
    var destu: nat := lumaSize;
    var destv: nat := destu + lumaSize / 4;
    LumaSizeNoWrap(d);
    var i: nat := 0;
    while i < h / 2
      invariant i <= h / 2
      invariant srcuv == ChromaSrc(d, i, 0)
      invariant destu == UDst(w, h, i, 0) && destv == VDst(w, h, i, 0)
      invariant forall k | 0 <= k < lumaSize && k < out.Length :: out[k] == old(out[k])
      invariant ChromaRowsDone(out[..], src[..], d, i)
    {
      assert ChromaSrc(d, i, 0) + 2 * (w / 2) <= src.Length;
      ChromaRowBounds(d, i);
      ghost var before := out[..];
      var destu0, destv0 := destu, destv;
      destu, destv := SplitChromaRow(out, src, d, i, srcuv, destu, destv);
      ChromaRowAppend(before, out[..], src[..], d, i);
      UnchangedBelow(before, out[..], destu0, destv0, w / 2, lumaSize);
      srcuv := srcuv + s;
      i := i + 1;
    }
  }

  /** One pass of the inner loop: chroma pair `j` of row `i` is read at
      `curuv` and written through the `destu` and `destv` pointers, which the
      caller carries on to the next row. Only the `width / 2` bytes after each
      pointer change. */
  method SplitChromaRow(out: array<byte>, src: array<byte>, d: Nv12Desc, i: nat, srcuv: nat, destu0: nat, destv0: nat)
    returns (destu: nat, destv: nat)
    requires out != src
    requires srcuv == ChromaSrc(d, i, 0) && srcuv + 2 * (d.width / 2) <= src.Length
    requires destu0 == UDst(d.width, d.height, i, 0) && destv0 == VDst(d.width, d.height, i, 0)
    requires destu0 + d.width / 2 <= destv0 && destv0 + d.width / 2 <= out.Length
    modifies out
    ensures destu == destu0 + d.width / 2 && destv == destv0 + d.width / 2
    ensures ChromaPairsDone(out[..], src[..], d, i, d.width / 2)
    ensures UnchangedOutside(old(out[..]), out[..], destu0, destv0, d.width / 2)
  {
    var w := d.width;
    destu, destv := destu0, destv0;
    var curuv := srcuv;
    var j: nat := 0;
    while j < w / 2
      invariant j <= w / 2
      invariant curuv == srcuv + 2 * j
      invariant destu == destu0 + j && destv == destv0 + j
      invariant ChromaPairsDone(out[..], src[..], d, i, j)
      invariant UnchangedOutside(old(out[..]), out[..], destu0, destv0, j)
    {
      ghost var before := out[..];
      out[destu] := src[curuv];
      destu := destu + 1;
      curuv := curuv + 1;
      out[destv] := src[curuv];
      destv := destv + 1;
      curuv := curuv + 1;
      ChromaPairStep(before, out[..], src[..], d, i, j);
      j := j + 1;
    }
  }

  /** The first `j` pairs of chroma row `i` have been split. */
  ghost predicate ChromaPairsDone(out: seq<byte>, src: seq<byte>, d: Nv12Desc, i: nat, j: nat)
  {
    var w, h := d.width, d.height;
    forall j': nat | j' < j ::
      UDst(w, h, i, j') < |out| && VDst(w, h, i, j') < |out| && ChromaSrc(d, i, j') + 1 < |src| &&
      out[UDst(w, h, i, j')] == src[ChromaSrc(d, i, j')] &&
      out[VDst(w, h, i, j')] == src[ChromaSrc(d, i, j') + 1]
  }

  /** `after` differs from `before` at most in the `n` bytes from `u` and the
      `n` bytes from `v`. */
  ghost predicate UnchangedOutside(before: seq<byte>, after: seq<byte>, u: nat, v: nat, n: nat)
  {
    |before| == |after| &&
    forall k | 0 <= k < |after| && !(u <= k < u + n) && !(v <= k < v + n) :: after[k] == before[k]
  }

  /** Nothing below both written ranges changes. */
  lemma UnchangedBelow(before: seq<byte>, after: seq<byte>, u: nat, v: nat, n: nat, lim: nat)
    requires UnchangedOutside(before, after, u, v, n) && lim <= u && u <= v
    ensures forall k | 0 <= k < lim && k < |after| :: after[k] == before[k]
  {
  }

  /** Splitting row `i`, which writes only the `width / 2` bytes at the start
      of its U row and of its V row, keeps the rows before it and completes
      row `i`. */
  lemma {:induction false} ChromaRowAppend(before: seq<byte>, after: seq<byte>, src: seq<byte>, d: Nv12Desc, i: nat)
    requires |before| == |after|
    requires UDst(d.width, d.height, i, 0) + d.width / 2 <= VDst(d.width, d.height, 0, 0)
    requires UnchangedOutside(before, after, UDst(d.width, d.height, i, 0), VDst(d.width, d.height, i, 0), d.width / 2)
    requires ChromaRowsDone(before, src, d, i) && ChromaPairsDone(after, src, d, i, d.width / 2)
    ensures ChromaRowsDone(after, src, d, i + 1)
  {
    var w, h := d.width, d.height;
    forall i': nat, j: nat | i' < i && j < w / 2
      ensures after[UDst(w, h, i', j)] == before[UDst(w, h, i', j)]
      ensures after[VDst(w, h, i', j)] == before[VDst(w, h, i', j)]
    {
      RowBefore(w / 2, i', j, i);
    }
    forall i': nat, j: nat | i' < i + 1 && j < w / 2
      ensures UDst(w, h, i', j) < |after|
    {
      if i' == i {
        assert ChromaPairsDone(after, src, d, i, w / 2);
      }
    }
  }

  /** Where chroma row `i` is read and written: its U and V pairs stay below
      the V plane and the end of the packed buffer, and the next row starts
      `stride` bytes further on in the camera buffer. */
  lemma {:induction false} ChromaRowBounds(d: Nv12Desc, i: nat)
    requires i < d.height / 2
    ensures UDst(d.width, d.height, i, 0) + d.width / 2 <= VDst(d.width, d.height, 0, 0)
    ensures VDst(d.width, d.height, i, 0) + d.width / 2 <= PackedSize(d.width, d.height)
    ensures ChromaSrc(d, i + 1, 0) == ChromaSrc(d, i, 0) + d.stride
  {
    if 0 < d.width / 2 {
      UBeforeV(d.width, d.height, i, d.width / 2 - 1);
      VInBuffer(d.width, d.height, i, d.width / 2 - 1);
    } else {
      RowOffsetIsProduct(0, i);
      RowOffsetIsProduct(d.width, d.height);
    }
  }

  /** Writing chroma pair `j` of row `i` keeps the pairs before it and
      completes pair `j`. */
  lemma {:induction false} ChromaPairStep(before: seq<byte>, after: seq<byte>, src: seq<byte>, d: Nv12Desc, i: nat, j: nat)
    requires |before| == |after|
    requires UDst(d.width, d.height, i, j) < VDst(d.width, d.height, i, 0)
    requires VDst(d.width, d.height, i, j) < |after| && ChromaSrc(d, i, j) + 1 < |src|
    requires forall k | 0 <= k < |after| && k != UDst(d.width, d.height, i, j) && k != VDst(d.width, d.height, i, j) ::
      after[k] == before[k]
    requires after[UDst(d.width, d.height, i, j)] == src[ChromaSrc(d, i, j)]
    requires after[VDst(d.width, d.height, i, j)] == src[ChromaSrc(d, i, j) + 1]
    requires ChromaPairsDone(before, src, d, i, j)
    ensures ChromaPairsDone(after, src, d, i, j + 1)
  {
  }

  /** A luma sample of a converted frame, in the C code's own arithmetic:
      `out[i * width + j] == src[i * stride + j]`. */
  lemma {:induction false} LumaSample(out: seq<byte>, src: seq<byte>, d: Nv12Desc, i: nat, j: nat)
    requires IsConversionOf(out, src, d) && i < d.height && j < d.width
    ensures i * d.width + j < |out| && i * d.stride + j < |src|
    ensures out[i * d.width + j] == src[i * d.stride + j]
  {
    RowOffsetIsProduct(d.width, i);
    RowOffsetIsProduct(d.stride, i);
    assert LumaDst(d.width, i, j) < |out|;
  }

  /** A chroma pair of a converted frame, in the C code's own arithmetic: the
      U sample at `width * height + i * (width / 2) + j` and the V sample a
      quarter of the luma size further on are the even and the odd byte at
      `uv_offset + i * stride + 2 * j`. */
  lemma {:induction false} ChromaSample(out: seq<byte>, src: seq<byte>, d: Nv12Desc, i: nat, j: nat)
    requires IsConversionOf(out, src, d) && i < d.height / 2 && j < d.width / 2
    ensures var u := d.width * d.height + i * (d.width / 2) + j;
      var v := d.width * d.height + d.width * d.height / 4 + i * (d.width / 2) + j;
      var uv := d.uvOffset + i * d.stride + 2 * j;
      u < |out| && v < |out| && uv + 1 < |src| && out[u] == src[uv] && out[v] == src[uv + 1]
  {
    RowOffsetIsProduct(d.width, d.height);
    RowOffsetIsProduct(d.width / 2, i);
    RowOffsetIsProduct(d.stride, i);
    assert UDst(d.width, d.height, i, j) < |out|;
  }

  /** For even dimensions the conversion is fully determined by the source:
      two packed buffers of the right size that both satisfy it are equal. */
  lemma {:induction false} ConversionUnique(o1: seq<byte>, o2: seq<byte>, src: seq<byte>, d: Nv12Desc)
    requires d.width > 0 && d.width % 2 == 0 && d.height % 2 == 0
    requires |o1| == |o2| == PackedSize(d.width, d.height)
    requires IsConversionOf(o1, src, d) && IsConversionOf(o2, src, d)
    ensures o1 == o2
  {
    forall k | 0 <= k < |o1| ensures o1[k] == o2[k] {
      SameAt(o1, o2, src, d, k);
    }
  }

  /** Byte `k` of the packed buffer is a luma, U or V sample, and both
      conversions copied it from the same source byte. */
  lemma {:induction false} SameAt(o1: seq<byte>, o2: seq<byte>, src: seq<byte>, d: Nv12Desc, k: nat)
    requires d.width > 0 && d.width % 2 == 0 && d.height % 2 == 0
    requires |o1| == |o2| == PackedSize(d.width, d.height) && k < |o1|
    requires LumaRowsDone(o1, src, d, d.height) && LumaRowsDone(o2, src, d, d.height)
    requires ChromaRowsDone(o1, src, d, d.height / 2) && ChromaRowsDone(o2, src, d, d.height / 2)
    ensures o1[k] == o2[k]
  {
    var w, h := d.width, d.height;
    if k < w * h {
      SameInLuma(o1, o2, src, d, k);
    } else if k < w * h + w * h / 4 {
      SameInU(o1, o2, src, d, k);
    } else {
      SameInV(o1, o2, src, d, k);
    }
  }

  lemma {:induction false} SameInLuma(o1: seq<byte>, o2: seq<byte>, src: seq<byte>, d: Nv12Desc, k: nat)
    requires d.width > 0 && k < d.width * d.height
    requires LumaRowsDone(o1, src, d, d.height) && LumaRowsDone(o2, src, d, d.height)
    ensures k < |o1| && k < |o2| && o1[k] == o2[k]
  {
    LumaTile(d.width, d.height, k);
    SameAtLuma(o1, o2, src, d, k / d.width, k % d.width);
  }

  lemma {:induction false} SameInU(o1: seq<byte>, o2: seq<byte>, src: seq<byte>, d: Nv12Desc, k: nat)
    requires d.width > 0 && d.width % 2 == 0 && d.height % 2 == 0
    requires d.width * d.height <= k < d.width * d.height + d.width * d.height / 4
    requires ChromaRowsDone(o1, src, d, d.height / 2) && ChromaRowsDone(o2, src, d, d.height / 2)
    ensures k < |o1| && k < |o2| && o1[k] == o2[k]
  {
    var i, j := USampleAt(d.width, d.height, k);
    SameAtChroma(o1, o2, src, d, i, j);
  }

  lemma {:induction false} SameInV(o1: seq<byte>, o2: seq<byte>, src: seq<byte>, d: Nv12Desc, k: nat)
    requires d.width > 0 && d.width % 2 == 0 && d.height % 2 == 0
    requires d.width * d.height + d.width * d.height / 4 <= k < PackedSize(d.width, d.height)
    requires ChromaRowsDone(o1, src, d, d.height / 2) && ChromaRowsDone(o2, src, d, d.height / 2)
    ensures k < |o1| && k < |o2| && o1[k] == o2[k]
  {
    var i, j := VSampleAt(d.width, d.height, k);
    SameAtChroma(o1, o2, src, d, i, j);
  }

  lemma SameAtLuma(o1: seq<byte>, o2: seq<byte>, src: seq<byte>, d: Nv12Desc, i: nat, j: nat)
    requires i < d.height && j < d.width
    requires LumaRowsDone(o1, src, d, d.height) && LumaRowsDone(o2, src, d, d.height)
    ensures LumaDst(d.width, i, j) < |o1| && LumaDst(d.width, i, j) < |o2|
    ensures o1[LumaDst(d.width, i, j)] == o2[LumaDst(d.width, i, j)]
  {
  }

  lemma SameAtChroma(o1: seq<byte>, o2: seq<byte>, src: seq<byte>, d: Nv12Desc, i: nat, j: nat)
    requires i < d.height / 2 && j < d.width / 2
    requires ChromaRowsDone(o1, src, d, d.height / 2) && ChromaRowsDone(o2, src, d, d.height / 2)
    ensures UDst(d.width, d.height, i, j) < |o1| && UDst(d.width, d.height, i, j) < |o2|
    ensures VDst(d.width, d.height, i, j) < |o1| && VDst(d.width, d.height, i, j) < |o2|
    ensures o1[UDst(d.width, d.height, i, j)] == o2[UDst(d.width, d.height, i, j)]
    ensures o1[VDst(d.width, d.height, i, j)] == o2[VDst(d.width, d.height, i, j)]
  {
  }
}
