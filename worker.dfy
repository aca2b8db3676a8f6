/** The encoding thread, run sequentially: it drains its own copy of the frame
    queue, encoding each frame with the next counter value as its
    presentation time, then flushes the encoder until it reports no packet.
    The encoder is an oracle: the results of its successive calls are given
    as a sequence. */
module Worker {
  import opened Layout
  import opened Converter
  import opened Pipeline

  /** What one call of `avcodec_encode_video2` reports: its return value, the
      `got_packet` flag and the packet bytes. */
  datatype EncodeResult = EncodeResult(success: int, gotPacket: int, packet: seq<byte>)

  /** The plane pointers (as offsets into the frame buffer) and line sizes the
      worker hands to the encoder. */
  datatype PlaneLayout = PlaneLayout(data: seq<int>, linesize: seq<nat>)

  /** One call of the encoder: with a frame, or with no frame to flush. */
  datatype EncodeCall = EncodeFrame(pts: int, planes: PlaneLayout, buf: array<byte>) | EncodeFlush

  /** Where packets go: the callback if one is set, otherwise the fd. */
  datatype Sink = FdSink(fd: int) | CallbackSink

  /** One packet handed to the sink. */
  datatype Emission = Emission(sink: Sink, packet: seq<byte>)

  /** Plane pointers and line sizes of a packed frame: Y at the start of the
      buffer, U at `uv_offset`, V a quarter of the luma size further on; line
      sizes `width`, `width / 2`, `width / 2`. */
  function WorkerPlanes(d: Nv12Desc): (p: PlaneLayout)
    ensures |p.data| == 3 && p.linesize == [d.width, d.width / 2, d.width / 2]
    ensures p.data[0] == 0 && p.data[1] == d.uvOffset
    ensures d.width * d.height < U32_LIMIT ==> p.data[2] == d.uvOffset + d.width * d.height / 4
  {
    // `width * height` is a `uint32_t` product in the C code.
    PlaneLayout([0, d.uvOffset, d.uvOffset + Wrap32(d.width * d.height) / 4], [d.width, d.width / 2, d.width / 2])
  }

  /** The byte the encoder reads for sample (row i, column j) of a plane: the
      plane pointer plus `i` line sizes plus `j`. */
  function PlanePos(p: PlaneLayout, plane: nat, i: nat, j: nat): int
    requires plane < |p.data| && plane < |p.linesize|
  {
    p.data[plane] + RowOffset(p.linesize[plane], i) + j
  }

  /** The planes the worker describes are the planes the converter wrote:
      reading a converted frame through the worker's pointers and line sizes
      yields the camera's luma samples and its even (U) and odd (V) chroma bytes. */
  lemma {:induction false} WorkerSeesConvertedFrame(out: seq<byte>, src: seq<byte>, d: Nv12Desc)
    requires IsConversionOf(out, src, d) && NoWrap(d)
    ensures var p := WorkerPlanes(PackedDesc(d));
      forall i: nat, j: nat | i < d.height && j < d.width ::
        0 <= PlanePos(p, 0, i, j) < |out| && LumaSrc(d.stride, i, j) < |src| &&
        out[PlanePos(p, 0, i, j)] == src[LumaSrc(d.stride, i, j)]
    ensures var p := WorkerPlanes(PackedDesc(d));
      forall i: nat, j: nat | i < d.height / 2 && j < d.width / 2 ::
        0 <= PlanePos(p, 1, i, j) < |out| && 0 <= PlanePos(p, 2, i, j) < |out| &&
        ChromaSrc(d, i, j) + 1 < |src| &&
        out[PlanePos(p, 1, i, j)] == src[ChromaSrc(d, i, j)] &&
        out[PlanePos(p, 2, i, j)] == src[ChromaSrc(d, i, j) + 1]
  {
    var p := WorkerPlanes(PackedDesc(d));
    NoWrapPacked(d);
    RowOffsetIsProduct(d.width, d.height);
    forall i: nat, j: nat | i < d.height && j < d.width
      ensures 0 <= PlanePos(p, 0, i, j) < |out| && LumaSrc(d.stride, i, j) < |src|
      ensures out[PlanePos(p, 0, i, j)] == src[LumaSrc(d.stride, i, j)]
    {
      assert PlanePos(p, 0, i, j) == LumaDst(d.width, i, j);
    }
    forall i: nat, j: nat | i < d.height / 2 && j < d.width / 2
      ensures 0 <= PlanePos(p, 1, i, j) < |out| && 0 <= PlanePos(p, 2, i, j) < |out|
      ensures ChromaSrc(d, i, j) + 1 < |src|
      ensures out[PlanePos(p, 1, i, j)] == src[ChromaSrc(d, i, j)]
      ensures out[PlanePos(p, 2, i, j)] == src[ChromaSrc(d, i, j) + 1]
    {
      assert PlanePos(p, 1, i, j) == UDst(d.width, d.height, i, j);
      assert PlanePos(p, 2, i, j) == VDst(d.width, d.height, i, j);
    }
  }

  /** The encoder call for a dequeued frame, stamped with `pts`. */
  function FrameCall(buf: CameraBuffer, pts: int): EncodeCall
  {
    EncodeFrame(pts, WorkerPlanes(buf.desc), buf.framebuf)
  }

  /** A packet is written only when the encoder returned 0 and set `got_packet`. */
  predicate PacketReady(r: EncodeResult)
  {
    r.success == 0 && r.gotPacket > 0
  }

  /** What one encoder call sends to the sink: its packet or nothing. */
  function Route(r: EncodeResult, sink: Sink): (e: seq<Emission>)
    ensures |e| <= 1
    ensures |e| == 1 <==> PacketReady(r)
    ensures e != [] ==> e[0] == Emission(sink, r.packet)
  {
    if PacketReady(r) then [Emission(sink, r.packet)] else []
  }

  /** Everything encoder calls `lo` up to (not including) `hi` send to the
      sink, in call order. */
  function Emissions(rs: seq<EncodeResult>, lo: nat, hi: nat, sink: Sink): seq<Emission>
    requires lo <= hi <= |rs|
    decreases hi
  {
    if hi == lo then [] else Emissions(rs, lo, hi - 1, sink) + Route(rs[hi - 1], sink)
  }

  /** Two adjacent runs of calls emit one after the other. */
  lemma {:induction false} EmissionsSplit(rs: seq<EncodeResult>, lo: nat, mid: nat, hi: nat, sink: Sink)
    requires lo <= mid <= hi <= |rs|
    ensures Emissions(rs, lo, hi, sink) == Emissions(rs, lo, mid, sink) + Emissions(rs, mid, hi, sink)
    decreases hi
  {
    if hi > mid {
      EmissionsSplit(rs, lo, mid, hi - 1, sink);
    }
  }

  /** Nothing reaches the sink exactly when no call of the run produced a
      ready packet. */
  lemma {:induction false} EmissionsEmptyIff(rs: seq<EncodeResult>, lo: nat, hi: nat, sink: Sink)
    requires lo <= hi <= |rs|
    ensures Emissions(rs, lo, hi, sink) == [] <==> forall i | lo <= i < hi :: !PacketReady(rs[i])
    decreases hi
  {
    if hi > lo {
      EmissionsEmptyIff(rs, lo, hi - 1, sink);
    }
  }

  /** At most one packet per call, all to the one sink, and each carrying the
      bytes some ready call of the run produced. */
  lemma {:induction false} EmissionsFromReadyCalls(rs: seq<EncodeResult>, lo: nat, hi: nat, sink: Sink)
    requires lo <= hi <= |rs|
    ensures |Emissions(rs, lo, hi, sink)| <= hi - lo
    ensures forall e | e in Emissions(rs, lo, hi, sink) ::
      e.sink == sink && exists i | lo <= i < hi :: PacketReady(rs[i]) && rs[i].packet == e.packet
    decreases hi
  {
    if hi > lo {
      EmissionsFromReadyCalls(rs, lo, hi - 1, sink);
      forall e | e in Emissions(rs, lo, hi, sink)
        ensures e.sink == sink && exists i | lo <= i < hi :: PacketReady(rs[i]) && rs[i].packet == e.packet
      {
        if e !in Emissions(rs, lo, hi - 1, sink) {
          assert PacketReady(rs[hi - 1]) && rs[hi - 1].packet == e.packet;
        }
      }
    }
  }

  /** The flush loop can end: some encoder call from `k` on reports no packet. */
  predicate FlushEnds(rs: seq<EncodeResult>, k: nat)
  {
    exists j | k <= j < |rs| :: rs[j].gotPacket <= 0
  }

  /** How many times the do-while flush loop starting at call `k` runs: up to
      and including the first call whose `got_packet` is not positive, so at
      least once. */
  function FlushIterations(rs: seq<EncodeResult>, k: nat): (n: nat)
    requires FlushEnds(rs, k)
    ensures 1 <= n && k + n <= |rs|
    decreases |rs| - k
  {
    if rs[k].gotPacket > 0 then
      assert FlushEnds(rs, k + 1) by {
        var j :| k <= j < |rs| && rs[j].gotPacket <= 0;
        assert j != k;
      }
      1 + FlushIterations(rs, k + 1)
    else 1
  }

  /** The flush loop started at call `k` runs exactly `n` times: the calls
      before the last reported a packet, the last did not. */
  predicate FlushRuns(rs: seq<EncodeResult>, k: nat, n: nat)
  {
    1 <= n && k + n <= |rs| && rs[k + n - 1].gotPacket <= 0 &&
    forall m | k <= m < k + n - 1 :: rs[m].gotPacket > 0
  }

  /** The flush loop stops at the first call from `k` on that reports no
      packet: every earlier call reported one, the last one did not. */
  lemma {:induction false} FlushStopsAtFirstEmpty(rs: seq<EncodeResult>, k: nat)
    requires FlushEnds(rs, k)
    ensures FlushRuns(rs, k, FlushIterations(rs, k))
    decreases |rs| - k
  {
    if rs[k].gotPacket > 0 {
      var j :| k <= j < |rs| && rs[j].gotPacket <= 0;
      assert FlushEnds(rs, k + 1);
      FlushStopsAtFirstEmpty(rs, k + 1);
    }
  }

  /** The number of flush calls is determined by the encoder's answers: a run
      of `n` calls ending at the first empty answer exists exactly when some
      answer is empty, and then `n` is `FlushIterations`. */
  lemma {:induction false} FlushRunsIff(rs: seq<EncodeResult>, k: nat, n: nat)
    ensures FlushRuns(rs, k, n) <==> FlushEnds(rs, k) && n == FlushIterations(rs, k)
  {
    if FlushRuns(rs, k, n) {
      assert FlushEnds(rs, k) by {
        assert k <= k + n - 1 < |rs| && rs[k + n - 1].gotPacket <= 0;
      }
      FlushStopsAtFirstEmpty(rs, k);
    } else if FlushEnds(rs, k) {
      FlushStopsAtFirstEmpty(rs, k);
    }
  }

  /** Within a run of `n` flush calls, call `k` reports a packet exactly when
      it is not the last. */
  lemma FlushRunsAt(rs: seq<EncodeResult>, k0: nat, n: nat, k: nat)
    requires FlushRuns(rs, k0, n) && k0 <= k < k0 + n
    ensures rs[k].gotPacket > 0 <==> k + 1 < k0 + n
  {
  }

  /** The sink the worker writes to: the callback if one is set, otherwise the fd. */
  function SinkOf(ctx: Context): (s: Sink)
    reads ctx
    ensures s == CallbackSink <==> ctx.writeCallback
    ensures s.FdSink? ==> s.fd == ctx.fd
  {
    if ctx.writeCallback then CallbackSink else FdSink(ctx.fd)
  }

  /** The steady-state loop over the worker's own copy of the queue: pop the
      head, stamp it with the counter and bump the counter, encode it, route
      a ready packet to the sink, and release the frame whether or not a
      packet came out. Encoder call `i` reports `results[i]`. */
  method Drain(ctx: Context, frames: seq<CameraBuffer>, results: seq<EncodeResult>)
    returns (calls: seq<EncodeCall>, out: seq<Emission>)
    requires ctx.reserved != null && |frames| <= |results|
    modifies ctx.reserved`frameCount
    ensures ctx.reserved.frameCount == old(ctx.reserved.frameCount) + |frames|
    ensures |calls| == |frames|
    ensures forall i | 0 <= i < |frames| :: calls[i] == FrameCall(frames[i], old(ctx.reserved.frameCount) + i)
    ensures out == Emissions(results, 0, |frames|, SinkOf(ctx))
  {
    var r := ctx.reserved;
    ghost var sink := SinkOf(ctx);
    var queue := frames;
    var k := 0;
    calls, out := [], [];
    while |queue| > 0
      invariant k + |queue| == |frames| && queue == frames[k..]
      invariant r.frameCount == old(r.frameCount) + k
      invariant |calls| == k
      invariant forall i | 0 <= i < k :: calls[i] == FrameCall(frames[i], old(r.frameCount) + i)
      invariant out == Emissions(results, 0, k, sink)
    {
      var buf := queue[0];
      queue := queue[1..];
      var framePosition := r.frameCount;
      r.frameCount := r.frameCount + 1;
      calls := calls + [FrameCall(buf, framePosition)];
      var res := results[k];
      out := out + Route(res, SinkOf(ctx));
      k := k + 1;
    }
  }

  /** The do-while flush loop: call the encoder with no frame, consume one
      counter value, route a ready packet, and go round again while
      `got_packet` is positive. Encoder call `k` reports `results[k]`; the
      loop runs `n` times, as `FlushRuns` pins down. */
  method Flush(ctx: Context, results: seq<EncodeResult>, k0: nat, ghost n: nat)
    returns (calls: seq<EncodeCall>, out: seq<Emission>)
    requires ctx.reserved != null && FlushRuns(results, k0, n)
    modifies ctx.reserved`frameCount
    ensures ctx.reserved.frameCount == old(ctx.reserved.frameCount) + n
    ensures |calls| == n && forall i | 0 <= i < |calls| :: calls[i] == EncodeFlush
    ensures out == Emissions(results, k0, k0 + n, SinkOf(ctx))
  {
    var r := ctx.reserved;
    ghost var sink := SinkOf(ctx);
    var k := k0;
    calls, out := [], [];
    var more := true;
    while more
      invariant k0 <= k <= k0 + n
      invariant more <==> k < k0 + n
      invariant r.frameCount == old(r.frameCount) + (k - k0)
      invariant |calls| == k - k0 && forall i | 0 <= i < |calls| :: calls[i] == EncodeFlush
      invariant out == Emissions(results, k0, k, sink)
      decreases k0 + n - k
    {
      var framePosition := r.frameCount;
      r.frameCount := r.frameCount + 1;
      calls := calls + [EncodeFlush];
      var res := results[k];
      out := out + Route(res, SinkOf(ctx));
      FlushRunsAt(results, k0, n, k);
      k := k + 1;
      more := res.gotPacket > 0;
    }
  }

  /** The whole worker: take a copy of the shared queue, drain the copy, then
      flush. The drain loop runs while the running flag is set or the copy is
      non-empty; the copy is never refilled, so with the flag set the thread
      ends up waiting on the condition variable for good (`parked`) and never
      flushes. The shared queue itself is left as it was, and the counter rises
      by one per drained frame and one per flush iteration. */
  method EncodingThread(ctx: Context, results: seq<EncodeResult>, ghost m: nat)
    returns (calls: seq<EncodeCall>, out: seq<Emission>, parked: bool)
    requires ctx.reserved != null && |ctx.reserved.frames| <= |results|
    requires !ctx.reserved.running ==> FlushRuns(results, |ctx.reserved.frames|, m)
    modifies ctx.reserved`frameCount
    ensures parked <==> ctx.reserved.running
    ensures ctx.reserved.frames == old(ctx.reserved.frames)
    ensures var flushes := if parked then 0 else m;
      ctx.reserved.frameCount == old(ctx.reserved.frameCount) + |ctx.reserved.frames| + flushes
    ensures var n := |ctx.reserved.frames|;
      |calls| == n + (if parked then 0 else m) &&
      (forall i | 0 <= i < n :: calls[i] == FrameCall(ctx.reserved.frames[i], old(ctx.reserved.frameCount) + i)) &&
      (forall i | n <= i < |calls| :: calls[i] == EncodeFlush)
    ensures out == Emissions(results, 0, |ctx.reserved.frames| + (if parked then 0 else m), SinkOf(ctx))
  {
    var frames := ctx.reserved.frames;
    var n := |frames|;
    ghost var sink := SinkOf(ctx);
    calls, out := Drain(ctx, frames, results);
    if ctx.reserved.running {
      parked := true;
      return;
    }
    parked := false;
    var flushed, flushOut := Flush(ctx, results, n, m);
    calls := calls + flushed;
    out := out + flushOut;
    EmissionsSplit(results, 0, n, n + m, sink);
  }
}
