/** Byte layout of the two surface formats the capture pipeline deals with:
    the camera's NV12 surface (a strided luma plane followed, at some byte
    offset, by a strided plane of interleaved U/V pairs) and the packed
    I420 / YUV420P surface the encoder is fed (luma, then U, then V, no
    padding). Everything here is index arithmetic; the converter and the
    encoding worker both rely on it. */
module Layout {

  newtype byte = x: int | 0 <= x < 256

  /** One past the largest value of a C `uint32_t`. */
  const U32_LIMIT: int := 0x1_0000_0000

  /** The NV12 part of a camera frame descriptor: the fields the pipeline reads
      and rewrites (`width`, `height`, `stride` are `uint32_t`, `uv_offset` is
      `int64_t` in the camera API). */
  datatype Nv12Desc = Nv12Desc(width: nat, height: nat, stride: nat, uvOffset: nat)

  /** Size of the packed buffer the converter allocates, `width * height * 3 / 2`. */
  function PackedSize(w: nat, h: nat): nat
  {
    w * h * 3 / 2
  }

  /** The descriptor of a converted frame: padding removed (`stride == width`)
      and the chroma planes starting right after the luma plane. */
  function PackedDesc(d: Nv12Desc): (p: Nv12Desc)
    ensures p.width == d.width && p.height == d.height
    ensures p.stride == p.width && p.uvOffset == p.width * p.height
  {
    var stride := d.width;
    Nv12Desc(d.width, d.height, stride, stride * d.height)
  }

  /** The camera's promise that the frame buffer holds every byte the converter
      reads: `width` bytes of each of the `height` luma rows, and `2 * (width / 2)`
      bytes of each of the `height / 2` interleaved chroma rows. */
  predicate Nv12Fits(d: Nv12Desc, len: nat)
  {
    (forall i: nat | i < d.height :: LumaSrc(d.stride, i, 0) + d.width <= len) &&
    (forall i: nat | i < d.height / 2 :: ChromaSrc(d, i, 0) + 2 * (d.width / 2) <= len)
  }

  /** The converter computes `width * height * 3 / 2` and the row offsets
      `i * stride` (for `i < height`) in 32-bit unsigned arithmetic; exactly
      below these bounds none of those products wraps around (`NoWrapPacked`
      and `NoWrapRow` spell them out). */
  predicate NoWrap(d: Nv12Desc)
  {
    d.width < U32_LIMIT && d.height < U32_LIMIT && d.stride < U32_LIMIT &&
    RowOffset(3 * d.width, d.height) < U32_LIMIT &&
    (d.height == 0 || RowOffset(d.stride, d.height - 1) < U32_LIMIT)
  }

  /** Offset of the start of row `i` of a plane whose rows are `pitch` bytes
      apart: `i * pitch`, written as a running sum so that the row-by-row
      reasoning below stays linear. */
  function RowOffset(pitch: nat, i: nat): (r: nat)
    decreases i
  {
    if i == 0 then 0 else RowOffset(pitch, i - 1) + pitch
  }

  // Where sample (row i, column j) of each plane lives.

  /** Packed luma: row pitch `w`. */
  function LumaDst(w: nat, i: nat, j: nat): nat { RowOffset(w, i) + j }

  /** Strided luma in the camera buffer: row pitch `s`. */
  function LumaSrc(s: nat, i: nat, j: nat): nat { RowOffset(s, i) + j }

  /** Packed U plane: starts after the `h` luma rows of `w` bytes (`w * h`),
      row pitch `w / 2`. */
  function UDst(w: nat, h: nat, i: nat, j: nat): nat { RowOffset(w, h) + RowOffset(w / 2, i) + j }

  /** Packed V plane: starts a quarter of the luma size after the U plane
      (`w * h + w * h / 4`), row pitch `w / 2`. */
  function VDst(w: nat, h: nat, i: nat, j: nat): nat { RowOffset(w, h) + RowOffset(w, h) / 4 + RowOffset(w / 2, i) + j }

  /** The interleaved chroma pair j of chroma row i in the camera buffer; U is
      the byte at this index and V the byte after it. */
  function ChromaSrc(d: Nv12Desc, i: nat, j: nat): nat { d.uvOffset + RowOffset(d.stride, i) + 2 * j }

  /** The running sum is the product the C code computes. */
  lemma {:induction false} RowOffsetIsProduct(pitch: nat, i: nat)
    ensures RowOffset(pitch, i) == i * pitch
    decreases i
  {
    if i > 0 {
      RowOffsetIsProduct(pitch, i - 1);
    }
  }

  /** The value a C `uint32_t` expression yields for the mathematical value
      `x`: `x` modulo 2^32. */
  function Wrap32(x: nat): (r: nat)
    ensures r < U32_LIMIT
    ensures x < U32_LIMIT ==> r == x
  {
    x % U32_LIMIT
  }

  /** What `NoWrap` promises about the size of the packed buffer and the
      luma plane size `width * height`. */
  lemma {:induction false} NoWrapPacked(d: Nv12Desc)
    requires NoWrap(d)
    ensures d.width * d.height * 3 < U32_LIMIT
    ensures d.width * d.height < U32_LIMIT
  {
    assert d.width * d.height * 3 < U32_LIMIT by {
      RowOffsetIsProduct(3 * d.width, d.height);
      assert d.height * (3 * d.width) == d.width * d.height * 3;
    }
  }

  /** The `uint32_t` luma size `width * height` where the chroma planes start. */
  lemma {:induction false} LumaSizeNoWrap(d: Nv12Desc)
    requires NoWrap(d)
    ensures Wrap32(d.width * d.height) == d.width * d.height == RowOffset(d.width, d.height)
  {
    NoWrapPacked(d);
    RowOffsetIsProduct(d.width, d.height);
  }

  /** What `NoWrap` promises about the row offsets `i * stride` and
      `i * width` of the luma copy. */
  lemma {:induction false} NoWrapRow(d: Nv12Desc, i: nat)
    requires NoWrap(d) && i < d.height
    ensures i * d.stride < U32_LIMIT && i * d.width < U32_LIMIT
  {
    assert i * d.stride < U32_LIMIT by {
      RowOffsetMonotone(d.stride, i, d.height - 1);
      RowOffsetIsProduct(d.stride, i);
    }
    assert i * d.width < U32_LIMIT by {
      NoWrapPacked(d);
      MulLeMonotone(i, d.height, d.width);
      assert d.height * d.width == d.width * d.height;
    }
  }

  /** Row `i` of the luma copy: the `uint32_t` offsets `i * width` and
      `i * stride` are the true row offsets, and the row of `width` bytes lies
      inside the luma plane. */
  lemma {:induction false} LumaRowOffsets(d: Nv12Desc, i: nat)
    requires NoWrap(d) && i < d.height
    ensures Wrap32(i * d.width) == RowOffset(d.width, i) && Wrap32(i * d.stride) == RowOffset(d.stride, i)
    ensures RowOffset(d.width, i) + d.width <= d.width * d.height
  {
    NoWrapRow(d, i);
    RowOffsetNoWrap(d.width, i);
    RowOffsetNoWrap(d.stride, i);
    if d.width > 0 {
      LumaInPlane(d.width, d.height, i, d.width - 1);
    } else {
      RowOffsetIsProduct(d.width, i);
    }
  }

  /** Below 2^32 the `uint32_t` product is the row offset. */
  lemma {:induction false} RowOffsetNoWrap(pitch: nat, i: nat)
    requires i * pitch < U32_LIMIT
    ensures Wrap32(i * pitch) == RowOffset(pitch, i)
  {
    RowOffsetIsProduct(pitch, i);
  }

  lemma MulLeMonotone(a: nat, b: nat, c: nat)
    requires a <= b
    ensures a * c <= b * c
  {
  }

  /** Row-major order: a sample of an earlier row lies below the start of any
      later row. */
  lemma {:induction false} RowBefore(pitch: nat, i: nat, j: nat, k: nat)
    requires i < k && j < pitch
    ensures RowOffset(pitch, i) + j < RowOffset(pitch, k)
    decreases k
  {
    if k > i + 1 {
      RowBefore(pitch, i, j, k - 1);
    }
  }

  /** Later rows start no earlier. */
  lemma {:induction false} RowOffsetMonotone(pitch: nat, i: nat, k: nat)
    requires i <= k
    ensures RowOffset(pitch, i) <= RowOffset(pitch, k)
    decreases k
  {
    if i < k {
      RowOffsetMonotone(pitch, i, k - 1);
    }
  }

  /** The quarter-size chroma planes fit in the `w * h / 4` bytes reserved for
      each, for odd dimensions too. */
  lemma {:induction false} ChromaPlaneFits(w: nat, h: nat)
    ensures (h / 2) * (w / 2) <= w * h / 4
    ensures w * h + 2 * (w * h / 4) <= PackedSize(w, h)
  {
    var a, b := w / 2, h / 2;
    MulLeMonotone(2 * b, h, 2 * a);
    MulLeMonotone(2 * a, w, h);
    assert (2 * b) * (2 * a) == 4 * (a * b);
    assert 4 * (a * b) <= w * h;
  }

  /** Every luma sample lands inside the `w * h` bytes of the luma plane. */
  lemma {:induction false} LumaInPlane(w: nat, h: nat, i: nat, j: nat)
    requires i < h && j < w
    ensures LumaDst(w, i, j) < w * h
  {
    RowBefore(w, i, j, h);
    RowOffsetIsProduct(w, h);
  }

  /** Every U sample lands below the start of the V plane. */
  lemma {:induction false} UBeforeV(w: nat, h: nat, i: nat, j: nat)
    requires i < h / 2 && j < w / 2
    ensures UDst(w, h, i, j) < VDst(w, h, 0, 0)
  {
    RowBefore(w / 2, i, j, h / 2);
    RowOffsetIsProduct(w / 2, h / 2);
    RowOffsetIsProduct(w, h);
    ChromaPlaneFits(w, h);
  }

  /** Every V sample lands inside the packed buffer. */
  lemma {:induction false} VInBuffer(w: nat, h: nat, i: nat, j: nat)
    requires i < h / 2 && j < w / 2
    ensures VDst(w, h, i, j) < PackedSize(w, h)
  {
    RowBefore(w / 2, i, j, h / 2);
    RowOffsetIsProduct(w / 2, h / 2);
    RowOffsetIsProduct(w, h);
    ChromaPlaneFits(w, h);
  }

  /** Bounds and layout of the packed surface: the luma, U and V samples the
      converter writes lie in three pairwise disjoint ranges, in this order,
      inside a buffer of `PackedSize(w, h)` bytes, for odd dimensions too. */
  lemma {:induction false} PlanesDisjoint(w: nat, h: nat, i: nat, j: nat)
    ensures i < h && j < w ==> LumaDst(w, i, j) < w * h
    ensures i < h / 2 && j < w / 2 ==>
      w * h <= UDst(w, h, i, j) < w * h + w * h / 4 <= VDst(w, h, i, j) < PackedSize(w, h)
  {
    RowOffsetIsProduct(w, h);
    if i < h && j < w {
      LumaInPlane(w, h, i, j);
    }
    if i < h / 2 && j < w / 2 {
      UBeforeV(w, h, i, j);
      VInBuffer(w, h, i, j);
    }
  }

  /** With even dimensions the three planes tile the whole packed buffer: an
      offset in the U plane is the U position of the sample in row `m / (w / 2)`,
      column `m % (w / 2)` of the chroma planes, with `m` its distance from the
      start of the plane. */
  lemma {:induction false} UTile(w: nat, h: nat, k: nat)
    requires w > 0 && w % 2 == 0 && h % 2 == 0
    requires w * h <= k < w * h + w * h / 4
    ensures var m := k - w * h; m / (w / 2) < h / 2 && k == UDst(w, h, m / (w / 2), m % (w / 2))
  {
    ChromaTile(w, h, k - w * h);
    RowOffsetIsProduct(w, h);
  }

  /** The same for the V plane, which ends where the packed buffer ends. */
  lemma {:induction false} VTile(w: nat, h: nat, k: nat)
    requires w > 0 && w % 2 == 0 && h % 2 == 0
    requires w * h + w * h / 4 <= k < PackedSize(w, h)
    ensures var m := k - w * h - w * h / 4; m / (w / 2) < h / 2 && k == VDst(w, h, m / (w / 2), m % (w / 2))
  {
    EvenQuarters(w, h);
    ChromaTile(w, h, k - w * h - w * h / 4);
    RowOffsetIsProduct(w, h);
  }

  /** The chroma sample whose U position is `k`. */
  lemma {:induction false} USampleAt(w: nat, h: nat, k: nat) returns (i: nat, j: nat)
    requires w > 0 && w % 2 == 0 && h % 2 == 0
    requires w * h <= k < w * h + w * h / 4
    ensures i < h / 2 && j < w / 2 && k == UDst(w, h, i, j)
  {
    UTile(w, h, k);
    i, j := (k - w * h) / (w / 2), (k - w * h) % (w / 2);
  }

  /** The chroma sample whose V position is `k`. */
  lemma {:induction false} VSampleAt(w: nat, h: nat, k: nat) returns (i: nat, j: nat)
    requires w > 0 && w % 2 == 0 && h % 2 == 0
    requires w * h + w * h / 4 <= k < PackedSize(w, h)
    ensures i < h / 2 && j < w / 2 && k == VDst(w, h, i, j)
  {
    VTile(w, h, k);
    i, j := (k - w * h - w * h / 4) / (w / 2), (k - w * h - w * h / 4) % (w / 2);
  }

  /** An offset `k` inside the luma plane is the luma position of the sample
      in row `k / w`, column `k % w`. */
  lemma {:induction false} LumaTile(w: nat, h: nat, k: nat)
    requires w > 0 && k < w * h
    ensures k / w < h && k == LumaDst(w, k / w, k % w)
  {
    QuotientBelow(k, w, h);
    RowOffsetIsProduct(w, k / w);
  }

  /** For even dimensions the packed buffer is exactly the luma plane plus two
      quarter-size planes of `(h / 2) * (w / 2)` bytes. */
  lemma {:induction false} EvenQuarters(w: nat, h: nat)
    requires w % 2 == 0 && h % 2 == 0
    ensures w * h / 4 == (h / 2) * (w / 2)
    ensures PackedSize(w, h) == w * h + 2 * (w * h / 4)
  {
    var a, b := w / 2, h / 2;
    assert (2 * a) * (2 * b) == 4 * (a * b);
    assert b * a == a * b;
  }

  /** An offset `m` inside a quarter-size chroma plane is the position of the
      sample in row `m / (w / 2)`, column `m % (w / 2)`. */
  lemma {:induction false} ChromaTile(w: nat, h: nat, m: nat)
    requires w > 0 && w % 2 == 0 && h % 2 == 0
    requires m < w * h / 4
    ensures m / (w / 2) < h / 2 && m == RowOffset(w / 2, m / (w / 2)) + m % (w / 2)
  {
    EvenQuarters(w, h);
    assert (h / 2) * (w / 2) == (w / 2) * (h / 2);
    QuotientBelow(m, w / 2, h / 2);
    RowOffsetIsProduct(w / 2, m / (w / 2));
  }

  /** `m < q * n` gives `m / q < n`, and `m` splits back into quotient and remainder. */
  lemma {:induction false} QuotientBelow(m: nat, q: nat, n: nat)
    requires q > 0 && m < q * n
    ensures m / q < n && m == (m / q) * q + m % q
  {
    if m / q >= n {
      MulLeMonotone(n, m / q, q);
      assert false;
    }
  }

  /** Every luma byte the converter reads sits in the first `width` columns of
      its source row, so none of the `stride - width` padding bytes is copied. */
  lemma {:induction false} LumaSkipsPadding(s: nat, w: nat, i: nat, j: nat)
    requires w <= s && j < w
    ensures LumaSrc(s, i, j) / s == i && LumaSrc(s, i, j) % s == j
  {
    RowOffsetIsProduct(s, i);
    DivModUnique(i * s + j, s, i, j);
  }

  lemma DivModUnique(m: nat, q: nat, a: nat, b: nat)
    requires q > 0 && b < q && m == a * q + b
    ensures m / q == a && m % q == b
  {
    var d, r := m / q, m % q;
    assert d * q + r == a * q + b;
    if d > a {
      MulLeMonotone(a + 1, d, q);
      assert false;
    } else if d < a {
      MulLeMonotone(d + 1, a, q);
      assert false;
    }
  }
}
