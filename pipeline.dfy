/** The capture pipeline's context and lifecycle: `ffcamera_init`, `_start`,
    `_stop`, `_close`, the default-codec helper and the viewfinder callback
    that converts and enqueues frames. The lifecycle is modelled as the code
    is written, including `init` setting the running flag and `stop` refusing
    when that flag is set. */
module Pipeline {
  import opened Layout
  import opened Converter

  datatype Option<T> = None | Some(value: T)

  /** The result codes of the lifecycle operations, in declaration order. */
  datatype FfcameraError =
    | Ok
    | NotInitialized
    | NoCodecSpecified
    | CodecNotFound
    | CouldNotOpenCodec
    | InvalidDimensions
    | AlreadyRunning
    | AlreadyStopped

  /** The numeric value of each result code: the enumerators count up from 0. */
  function ErrorCode(e: FfcameraError): (c: nat)
    ensures c < 8
    ensures c == 0 <==> e == Ok
  {
    match e
    case Ok => 0
    case NotInitialized => 1
    case NoCodecSpecified => 2
    case CodecNotFound => 3
    case CouldNotOpenCodec => 4
    case InvalidDimensions => 5
    case AlreadyRunning => 6
    case AlreadyStopped => 7
  }

  datatype PixelFormat = Yuv420p
  datatype ColorSpace = Smpte170m

  /** The encoder settings the default-codec helper fills in. */
  datatype CodecConfig = CodecConfig(
    codecId: int, pixFmt: PixelFormat, width: int, height: int, bitRate: int,
    timeBaseNum: int, timeBaseDen: int, ticksPerFrame: int, gopSize: int,
    colorspace: ColorSpace, threadCount: int)

  datatype CodecResult = CodecResult(err: FfcameraError, codec: Option<CodecConfig>)

  /** `ffcamera_default_codec`. The encoder lookup and `avcodec_open2` belong
      to the codec library and are given as parameters: whether the first
      lookup found the encoder, whether the lookup after registering all
      codecs did, and the status `avcodec_open2` returned. A codec is handed
      back only on success. */
  function DefaultCodec(codecId: int, width: int, height: int,
                        foundFirst: bool, foundAfterRegister: bool, openStatus: int): (r: CodecResult)
    ensures r.err == InvalidDimensions <==> width <= 0 || height <= 0
    ensures r.err == CodecNotFound <==> width > 0 && height > 0 && !foundFirst && !foundAfterRegister
    ensures r.err == CouldNotOpenCodec <==>
      width > 0 && height > 0 && (foundFirst || foundAfterRegister) && openStatus < 0
    ensures r.err in {Ok, InvalidDimensions, CodecNotFound, CouldNotOpenCodec}
    ensures r.codec.Some? <==> r.err == Ok
    ensures r.codec.Some? ==>
      r.codec.value.width == width && r.codec.value.height == height &&
      r.codec.value.codecId == codecId && r.codec.value.pixFmt == Yuv420p
  {
    if width <= 0 || height <= 0 then CodecResult(InvalidDimensions, None)
    else if !foundFirst && !foundAfterRegister then CodecResult(CodecNotFound, None)
    else if openStatus < 0 then CodecResult(CouldNotOpenCodec, None)
    else
      CodecResult(Ok, Some(CodecConfig(codecId, Yuv420p, width, height, 400000, 1, 30, 2, 15, Smpte170m, 2)))
  }

  // ---------------------------------------------------------------------
  // Abstract lifecycle state and the specification of each operation.

  /** The part of the reserved state the lifecycle operations read and write. */
  datatype Flags = Flags(running: bool, frameCount: int)

  /** Whether a codec context is attached, and the reserved state if `init`
      has allocated it. */
  datatype Lifecycle = Lifecycle(hasCodec: bool, reserved: Option<Flags>)

  /** The state `ffcamera_init` leaves: no codec, counter 0 and, as written,
      the running flag already set. */
  function InitState(): (s: Lifecycle)
    ensures s.reserved.Some? && s.reserved.value.running && !s.hasCodec
  {
    Lifecycle(false, Some(Flags(true, 0)))
  }

  /** `ffcamera_start`: the checks in source order, then reset the counter and
      set the running flag. */
  function StartSpec(s: Lifecycle): (r: (FfcameraError, Lifecycle))
    ensures r.0 == NotInitialized <==> s.reserved.None?
    ensures r.0 == AlreadyRunning <==> s.reserved.Some? && s.reserved.value.running
    ensures r.0 == NoCodecSpecified <==> s.reserved.Some? && !s.reserved.value.running && !s.hasCodec
    ensures r.0 in {Ok, NotInitialized, AlreadyRunning, NoCodecSpecified}
    ensures r.0 != Ok ==> r.1 == s
    ensures r.0 == Ok ==> r.1 == s.(reserved := Some(Flags(true, 0)))
  {
    match s.reserved
    case None => (NotInitialized, s)
    case Some(f) =>
      if f.running then (AlreadyRunning, s)
      else if !s.hasCodec then (NoCodecSpecified, s)
      else (Ok, s.(reserved := Some(Flags(true, 0))))
  }

  /** `ffcamera_stop` as written: it refuses with `ALREADY_STOPPED` when the
      flag is SET and otherwise clears a flag that is already clear, so it
      never changes the state. */
  function StopSpec(s: Lifecycle): (r: (FfcameraError, Lifecycle))
    ensures r.0 == NotInitialized <==> s.reserved.None?
    ensures r.0 == AlreadyStopped <==> s.reserved.Some? && s.reserved.value.running
    ensures r.0 == Ok <==> s.reserved.Some? && !s.reserved.value.running
    ensures r.1 == s
  {
    match s.reserved
    case None => (NotInitialized, s)
    case Some(f) =>
      if f.running then (AlreadyStopped, s)
      else (Ok, s.(reserved := Some(f.(running := false))))
  }

  /** `ffcamera_close`: always `OK`, and the codec context is released. */
  function CloseSpec(s: Lifecycle): (r: (FfcameraError, Lifecycle))
    ensures r.0 == Ok && !r.1.hasCodec && r.1.reserved == s.reserved
  {
    (Ok, s.(hasCodec := false))
  }

  /** The operations a client can apply to an initialised context: the three
      lifecycle calls, and assigning the public `codec_context` field. */
  datatype Op = StartOp | StopOp | CloseOp | AssignCodec

  function Apply(s: Lifecycle, op: Op): (FfcameraError, Lifecycle)
  {
    match op
    case StartOp => StartSpec(s)
    case StopOp => StopSpec(s)
    case CloseOp => CloseSpec(s)
    case AssignCodec => (Ok, s.(hasCodec := true))
  }

  /** The result codes and the final state of a sequence of operations. */
  function Run(s: Lifecycle, ops: seq<Op>): (r: (seq<FfcameraError>, Lifecycle))
    ensures |r.0| == |ops|
    decreases |ops|
  {
    if ops == [] then ([], s)
    else
      var (e, s') := Apply(s, ops[0]);
      var (es, t) := Run(s', ops[1..]);
      ([e] + es, t)
  }

  /** Once the running flag is set nothing clears it: `stop` refuses, so every
      later `start` answers `ALREADY_RUNNING` and every `stop`
      `ALREADY_STOPPED`, whatever the order of calls and codec assignments. */
  lemma {:induction false} RunningIsPermanent(s: Lifecycle, ops: seq<Op>)
    requires s.reserved.Some? && s.reserved.value.running
    ensures Run(s, ops).1.reserved == s.reserved
    ensures forall i | 0 <= i < |ops| && ops[i] == StartOp :: Run(s, ops).0[i] == AlreadyRunning
    ensures forall i | 0 <= i < |ops| && ops[i] == StopOp :: Run(s, ops).0[i] == AlreadyStopped
    decreases |ops|
  {
    if ops != [] {
      var s' := Apply(s, ops[0]).1;
      RunningIsPermanent(s', ops[1..]);
      forall i | 1 <= i < |ops|
        ensures Run(s, ops).0[i] == Run(s', ops[1..]).0[i - 1]
      {
      }
    }
  }

  /** Hence `start` can never succeed on a context set up by `ffcamera_init`. */
  lemma StartNeverSucceedsAfterInit(ops: seq<Op>)
    ensures forall i | 0 <= i < |ops| && ops[i] == StartOp :: Run(InitState(), ops).0[i] == AlreadyRunning
  {
    RunningIsPermanent(InitState(), ops);
  }

  // ---------------------------------------------------------------------
  // The context objects.

  /** The state `ffcamera_init` allocates behind the context's `reserved`
      pointer: the running flag, the frame counter and the frame queue. */
  class Reserved {
    var running: bool
    var frameCount: int
    var frames: seq<CameraBuffer>

    constructor ()
      ensures running && frameCount == 0 && frames == []
    {
      running := true;
      frameCount := 0;
      frames := [];
    }
  }

  /** The caller-owned `ffcamera_context`. A missing codec context or
      callback is `None` / `false`; `reserved == null` is a context that
      `init` has not set up. */
  class Context {
    var codecContext: Option<CodecConfig>
    var fd: int
    var writeCallback: bool
    var reserved: Reserved?

    /** A zero-filled context, before `ffcamera_init`. */
    constructor ()
      ensures codecContext == None && fd == 0 && !writeCallback && reserved == null
    {
      codecContext := None;
      fd := 0;
      writeCallback := false;
      reserved := null;
    }

    /** The lifecycle state of this context. */
    function State(): Lifecycle
      reads this, reserved
    {
      Lifecycle(codecContext.Some?,
                if reserved == null then None else Some(Flags(reserved.running, reserved.frameCount)))
    }

    /** The frame queue, empty when there is no reserved state. */
    function Frames(): seq<CameraBuffer>
      reads this, reserved
    {
      if reserved == null then [] else reserved.frames
    }

    /** `ffcamera_init`: clear the codec, fd and callback, and allocate a fresh
        reserved state with an empty queue. */
    method Init()
      modifies this
      ensures State() == InitState()
      ensures fresh(reserved) && Frames() == []
      ensures fd == 0 && !writeCallback
    {
      codecContext := None;
      fd := 0;
      writeCallback := false;
      reserved := new Reserved();
    }

    /** `ffcamera_start`. Spawning the encoding thread is not modelled here;
        the worker is `Worker.EncodingThread`. */
    method Start() returns (r: FfcameraError)
      modifies reserved
      ensures (r, State()) == StartSpec(old(State()))
      ensures reserved == old(reserved) && Frames() == old(Frames())
    {
      if reserved == null {
        return NotInitialized;
      }
      if reserved.running {
        return AlreadyRunning;
      }
      if codecContext.None? {
        return NoCodecSpecified;
      }
      reserved.frameCount := 0;
      reserved.running := true;
      return Ok;
    }

    /** `ffcamera_stop`, with its test of the running flag as written. */
    method Stop() returns (r: FfcameraError)
      modifies reserved
      ensures (r, State()) == StopSpec(old(State()))
      ensures reserved == old(reserved) && Frames() == old(Frames())
    {
      if reserved == null {
        return NotInitialized;
      }
      if reserved.running {
        return AlreadyStopped;
      }
      reserved.running := false;
      return Ok;
    }

    /** `ffcamera_close`: release the codec context. The C code reaches the
        synchronisation objects through the reserved pointer without testing
        it, so the context must have been set up by `ffcamera_init`. */
    method Close() returns (r: FfcameraError)
      requires reserved != null
      modifies this
      ensures (r, State()) == CloseSpec(old(State()))
      ensures codecContext == None
      ensures reserved == old(reserved) && Frames() == old(Frames())
      ensures fd == old(fd) && writeCallback == old(writeCallback)
    {
      if codecContext.Some? {
        codecContext := None;
      }
      return Ok;
    }

    /** Whether the viewfinder callback converts and enqueues a frame of this type. */
    predicate Accepts(frametype: FrameType)
      reads this, reserved
    {
      frametype == Nv12 && reserved != null && reserved.running
    }

    /** `ffcamera_vfcallback`: drop frames that are not NV12 or that arrive
        while there is no reserved state or the running flag is clear;
        otherwise append the converted frame at the tail of the queue. */
    method VfCallback(buf: CameraBuffer)
      requires Accepts(buf.frametype) ==> Nv12Fits(buf.desc, buf.framebuf.Length) && NoWrap(buf.desc)
      modifies reserved
      ensures reserved == old(reserved) && State() == old(State())
      ensures !old(Accepts(buf.frametype)) ==> Frames() == old(Frames())
      ensures old(Accepts(buf.frametype)) ==>
        |Frames()| == |old(Frames())| + 1 && Frames()[..|old(Frames())|] == old(Frames()) &&
        var packed := Frames()[|old(Frames())|];
        packed.frametype == Nv12 && packed.desc == PackedDesc(buf.desc) && fresh(packed.framebuf) &&
        packed.framebuf.Length == PackedSize(buf.desc.width, buf.desc.height) &&
        IsConversionOf(packed.framebuf[..], buf.framebuf[..], buf.desc)
    {
      if buf.frametype != Nv12 {
        return;
      }
      if reserved == null || !reserved.running {
        return;
      }
      var packed := Convert(buf);
      reserved.frames := reserved.frames + [packed];
    }
  }
}
