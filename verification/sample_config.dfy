/** The configuration arithmetic and the frame loop of the two sample
    tools: `src/encode_sample.rs` (a raw 1280x720 NV12 file encoded to
    H.264) and `src/scale_sample.rs` (a raw NV12 file of any size, scaled
    and then either encoded or written back as raw NV12).

    Sizes are computed in the source with `u32` arithmetic, whose overflow
    panics in a debug build; the model reports it as `Overflow`. A division
    by a zero frame size panics too and is reported as `DivideByZero`. */
module SampleConfig {
  import opened Common
  import Bitrate
  import PlaneCopy

  /** The fixed geometry and rate of the encode sample. */
  const WIDTH: nat := 1280
  const HEIGHT: nat := 720
  const FRAMERATE: nat := 60

  /** One NV12 frame of the encode sample, `WIDTH * HEIGHT * 3 / 2` bytes. */
  const FRAME_SIZE: nat := WIDTH * HEIGHT * 3 / 2

  /** The quality the encode sample asks for in constant-quality mode. */
  const DEFAULT_QP: nat := 23

  /** Why a sample tool stops before or during its run. */
  datatype ConfigError =
    | Overflow
    | DivideByZero
    | MissingBitrate
    | MissingMaxrate
    | InvalidBitrate(cause: Bitrate.BitrateError)
    | InvalidMaxrate(cause: Bitrate.BitrateError)
    | InvalidMode(mode: string)
    | EncodeFailed
    | DrainFailed

  // ---------------------------------------------------------------------
  // Frame sizes and counts.

  /** `w * h * 3 / 2` evaluated in `u32`: the size of an NV12 frame, or
      `None` when one of the two multiplications overflows. */
  function Nv12Size(w: nat, h: nat): (r: Option<nat>)
    ensures r.Some? <==> w * h * 3 <= U32_MAX
    ensures r.Some? ==> r.value == PlaneCopy.LumaSize(w, h) + PlaneCopy.ChromaSize(w, h)
  {
    if w * h > U32_MAX || w * h * 3 > U32_MAX then None else Some(w * h * 3 / 2)
  }

  /** The encode sample's frame is 1382400 bytes: a 921600-byte luma plane
      and a 460800-byte chroma plane; the constant does not overflow. */
  lemma FrameSizeValue()
    ensures FRAME_SIZE == 1382400
    ensures Nv12Size(WIDTH, HEIGHT) == Some(FRAME_SIZE)
    ensures PlaneCopy.LumaSize(WIDTH, HEIGHT) == 921600 && PlaneCopy.ChromaSize(WIDTH, HEIGHT) == 460800
  {
  }

  /** `frames.unwrap_or(available).min(available)` with
      `available = file_size / frame_size`: the number of frames the loop
      processes. Every one of them lies wholly inside the file, so the
      loop's end-of-file branch is never taken. */
  function TotalFrames(fileSize: nat, frameSize: nat, frames: Option<nat>): (r: Result<nat, ConfigError>)
    ensures r.Err? <==> frameSize == 0
    ensures r.Err? ==> r.error == DivideByZero
    ensures r.Ok? ==> r.value * frameSize <= fileSize
    ensures r.Ok? && frames.Some? ==> r.value <= frames.value
  {
    if frameSize == 0 then Err(DivideByZero)
    else
      var available := fileSize / frameSize;
      var requested := frames.GetOr(available);
      var n := if requested <= available then requested else available;
      PlaneCopy.MulMono(n, available, frameSize);
      Ok(n)
  }

  /** ... and it is the largest such number: any count of whole frames that
      fits in the file and does not exceed the request is at most it. */
  lemma {:induction false} TotalFramesLargest(fileSize: nat, frameSize: nat, frames: Option<nat>, k: nat)
    requires frameSize > 0
    requires k * frameSize <= fileSize
    requires frames.Some? ==> k <= frames.value
    ensures k <= TotalFrames(fileSize, frameSize, frames).value
  {
    var q := fileSize / frameSize;
    assert fileSize < q * frameSize + frameSize;
    assert (q + 1) * frameSize == q * frameSize + frameSize;
    if k >= q + 1 {
      PlaneCopy.MulMono(q + 1, k, frameSize);
    }
  }

  // ---------------------------------------------------------------------
  // Bitrates and rate control.

  /** The scale sample's output format. */
  datatype OutputFormat = H264 | Nv12

  /** The scale sample's `(bitrate, maxrate)`: both texts are required for
      H.264 output (a missing bitrate is reported first, then a missing
      maxrate, and only then are they parsed, bitrate first); raw NV12
      output uses `(0, 0)` and ignores them. */
  function RequiredRates(format: OutputFormat, bitrate: Option<string>, maxrate: Option<string>): (r: Result<(nat, nat), ConfigError>)
    ensures format.Nv12? ==> r == Ok((0, 0))
    ensures format.H264? ==>
      (r.Ok? <==> bitrate.Some? && maxrate.Some?
                  && Bitrate.ParseBitrate(bitrate.value).Ok? && Bitrate.ParseBitrate(maxrate.value).Ok?)
    ensures format.H264? && r.Ok? ==>
      r.value == (Bitrate.ParseBitrate(bitrate.value).value, Bitrate.ParseBitrate(maxrate.value).value)
    ensures format.H264? && bitrate.None? ==> r == Err(MissingBitrate)
    ensures format.H264? && bitrate.Some? && maxrate.None? ==> r == Err(MissingMaxrate)
  {
    match format
    case Nv12 => Ok((0, 0))
    case H264 =>
      if bitrate.None? then Err(MissingBitrate)
      else if maxrate.None? then Err(MissingMaxrate)
      else match Bitrate.ParseBitrate(bitrate.value)
        case Err(e) => Err(InvalidBitrate(e))
        case Ok(b) =>
          match Bitrate.ParseBitrate(maxrate.value)
          case Err(e) => Err(InvalidMaxrate(e))
          case Ok(m) => Ok((b, m))
  }

  /** Rates written as numerals with a unit, padded with white space, are
      read back as the values they denote. */
  lemma {:induction false} RequiredRatesRendered(ws: string, b: nat, bScale: nat, m: nat, mScale: nat)
    requires Bitrate.AllWhiteSpace(ws)
    requires bScale in {1, 1_000, 1_000_000} && mScale in {1, 1_000, 1_000_000}
    requires b * bScale <= U64_MAX && m * mScale <= U64_MAX
    ensures RequiredRates(H264, Some(ws + Bitrate.Decimal(b) + Bitrate.UnitText(bScale) + ws),
                                Some(ws + Bitrate.Decimal(m) + Bitrate.UnitText(mScale) + ws))
            == Ok((b * bScale, m * mScale))
  {
    RenderedRate(ws, b, bScale);
    RenderedRate(ws, m, mScale);
  }

  lemma {:induction false} RenderedRate(ws: string, n: nat, scale: nat)
    requires Bitrate.AllWhiteSpace(ws)
    requires scale in {1, 1_000, 1_000_000}
    requires n * scale <= U64_MAX
    ensures Bitrate.ParseBitrate(ws + Bitrate.Decimal(n) + Bitrate.UnitText(scale) + ws) == Ok(n * scale)
  {
    assert n <= n * scale;
    Bitrate.ParseRendered(ws, n, scale, ws);
  }

  /** The encoder's rate control. */
  datatype RateControl =
    | ConstantBitrate(bps: nat)
    | VariableBitrate(target: nat, max: nat)
    | ConstantQuality(qp: nat)

  /** The encode sample's `--rc-mode` text: "cbr", "vbr" or "cqp"; anything
      else is refused. */
  function EncodeRateControl(mode: string, bitrate: nat, maxrate: nat): (r: Result<RateControl, ConfigError>)
    ensures r.Ok? <==> mode in {"cbr", "vbr", "cqp"}
    ensures r.Err? ==> r.error == InvalidMode(mode)
    ensures r.Ok? && !r.value.ConstantQuality? ==> TargetRate(r.value) == bitrate
    ensures r.Ok? && r.value.VariableBitrate? ==> r.value.max == maxrate
    ensures mode == "cbr" ==> r == Ok(ConstantBitrate(bitrate))
    ensures mode == "vbr" ==> r == Ok(VariableBitrate(bitrate, maxrate))
    ensures mode == "cqp" ==> r == Ok(ConstantQuality(DEFAULT_QP))
  {
    if mode == "cbr" then Ok(ConstantBitrate(bitrate))
    else if mode == "vbr" then Ok(VariableBitrate(bitrate, maxrate))
    else if mode == "cqp" then Ok(ConstantQuality(DEFAULT_QP))
    else Err(InvalidMode(mode))
  }

  /** The rate a bitrate-driven mode aims at. */
  function TargetRate(rc: RateControl): nat
    requires !rc.ConstantQuality?
  {
    match rc
    case ConstantBitrate(b) => b
    case VariableBitrate(t, _) => t
  }

  /** The scale sample's `--rc-mode` choice (it has no constant-quality
      mode) and its spelling on the command line. */
  datatype RcMode = Cbr | Vbr

  function ModeName(m: RcMode): string
  {
    match m
    case Cbr => "cbr"
    case Vbr => "vbr"
  }

  function ScaleRateControl(m: RcMode, bitrate: nat, maxrate: nat): (r: RateControl)
    ensures !r.ConstantQuality? && TargetRate(r) == bitrate
    ensures m.Cbr? ==> r == ConstantBitrate(bitrate)
    ensures m.Vbr? ==> r == VariableBitrate(bitrate, maxrate)
  {
    match m
    case Cbr => ConstantBitrate(bitrate)
    case Vbr => VariableBitrate(bitrate, maxrate)
  }

  /** The two tools agree: a mode both accept yields the same rate control. */
  lemma ModesAgree(m: RcMode, bitrate: nat, maxrate: nat)
    ensures EncodeRateControl(ModeName(m), bitrate, maxrate) == Ok(ScaleRateControl(m, bitrate, maxrate))
  {
  }

  // ---------------------------------------------------------------------
  // Frame layouts.

  datatype PlaneLayout = PlaneLayout(bufferIndex: nat, offset: nat, stride: nat)

  datatype FrameLayout = FrameLayout(width: nat, height: nat, planes: seq<PlaneLayout>)

  /** A packed NV12 frame of `w` x `h` in one buffer: luma from 0 and chroma
      from `w * h`, both `w` bytes a row. */
  function Nv12Layout(w: nat, h: nat): FrameLayout
  {
    FrameLayout(w, h, [PlaneLayout(0, 0, w), PlaneLayout(0, w * h, w)])
  }

  /** The scale sample's layout: a packed NV12 layout for H.264 output (its
      chroma offset `w * h` is a `u32` product), none for raw output. */
  function OutputLayout(format: OutputFormat, w: nat, h: nat): (r: Result<Option<FrameLayout>, ConfigError>)
    ensures format.Nv12? ==> r == Ok(None)
    ensures format.H264? ==> (r.Ok? <==> w * h <= U32_MAX)
    ensures format.H264? && r.Ok? ==> r.value == Some(Nv12Layout(w, h))
  {
    match format
    case Nv12 => Ok(None)
    case H264 => if w * h > U32_MAX then Err(Overflow) else Ok(Some(Nv12Layout(w, h)))
  }

  /** The encode sample's layout. */
  function EncodeLayout(): FrameLayout
  {
    Nv12Layout(WIDTH, HEIGHT)
  }

  /** A two-plane layout as the plane copies see it. */
  function AsImage(l: FrameLayout): PlaneCopy.ImageLayout
    requires |l.planes| == 2
  {
    PlaneCopy.ImageLayout(l.planes[0].offset, l.planes[0].stride, l.planes[1].offset, l.planes[1].stride)
  }

  /** The packed layout describes a packed frame: both planes' rows lie in
      the frame's `Nv12Size` bytes, the luma rows end where the chroma plane
      starts, and the chroma rows end inside the frame. */
  lemma {:induction false} LayoutDescribesPackedFrame(w: nat, h: nat)
    ensures var im := AsImage(Nv12Layout(w, h));
      && im == PlaneCopy.ImageLayout(0, w, PlaneCopy.LumaSize(w, h), w)
      && PlaneCopy.ImageHolds(PlaneCopy.LumaSize(w, h) + PlaneCopy.ChromaSize(w, h), im, w, h)
      && PlaneCopy.RowsEnd(0, w, w, h) == im.offset1
  {
    var frame := PlaneCopy.Zeros(PlaneCopy.LumaSize(w, h) + PlaneCopy.ChromaSize(w, h));
    PlaneCopy.FrameRowsFit(frame, w, h);
    if h > 0 {
      PlaneCopy.PosIsProduct(0, w, h - 1);
      PlaneCopy.PosIsProduct(0, w, h);
      assert (h - 1) * w + w == h * w;
    }
  }

  /** A frame of even height uploaded with its own packed layout into an
      image of the frame's size, then downloaded into a zeroed buffer,
      comes back unchanged. */
  lemma {:induction false} PackedLayoutRoundTrip(dest: seq<byte>, frame: seq<byte>, w: nat, h: nat)
    requires |frame| == |dest| == PlaneCopy.LumaSize(w, h) + PlaneCopy.ChromaSize(w, h)
    requires h % 2 == 0
    ensures var im := AsImage(Nv12Layout(w, h));
      && PlaneCopy.Upload(dest, frame, w, h, im).Ok?
      && PlaneCopy.Download(PlaneCopy.Upload(dest, frame, w, h, im).value, PlaneCopy.Zeros(|frame|), w, h, im) == Ok(frame)
  {
    var im := AsImage(Nv12Layout(w, h));
    LayoutDescribesPackedFrame(w, h);
    assert PlaneCopy.FrameHolds(frame, w, h);
    PlaneCopy.DownloadAfterUploadEven(dest, frame, w, h, im);
  }

  // ---------------------------------------------------------------------
  // Frame metadata.

  datatype FrameMetadata = FrameMetadata(timestamp: nat, layout: FrameLayout, forceKeyframe: bool)

  /** The metadata both tools attach to frame `idx`: its index as the
      timestamp, and a forced key frame for the first frame only. */
  function Metadata(idx: nat, layout: FrameLayout): FrameMetadata
  {
    FrameMetadata(idx, layout, idx == 0)
  }

  // ---------------------------------------------------------------------
  // The encode sample's frame loop.

  /** One encoder submission: the metadata and the frame's bytes. */
  datatype Submission = Submission(meta: FrameMetadata, frame: seq<byte>)

  /** The encoder collaborator, by behaviour: `encode(subs)` is what the
      poll loop collects after the last of `subs` is submitted (`None` if
      encoding or polling fails); `drain(subs)` is what it collects after
      the drain (`None` on failure). */
  datatype SampleCodec = SampleCodec(
    encode: seq<Submission> -> Option<seq<seq<byte>>>,
    drain: seq<Submission> -> Option<seq<seq<byte>>>)

  /** Frame `k` of a file of frames of `size` bytes, when it is there. */
  function Slot(data: seq<byte>, size: nat, k: nat): seq<byte>
  {
    var at := PlaneCopy.Pos(0, size, k);
    if at + size <= |data| then data[at..at + size] else []
  }

  /** What the loop submits for the first `n` frames of `data`: frame `k`
      is bytes `k * size` to `(k + 1) * size` of the file, with
      `Metadata(k, layout)`. */
  function Submissions(data: seq<byte>, size: nat, n: nat, layout: FrameLayout): (s: seq<Submission>)
    ensures |s| == n
  {
    seq(n, k requires 0 <= k < n => Submission(Metadata(k, layout), Slot(data, size, k)))
  }

  /** Every encode call of a run over `subs` succeeds. */
  ghost predicate EncodesSucceed(c: SampleCodec, subs: seq<Submission>)
  {
    forall k | 0 < k <= |subs| :: c.encode(subs[..k]).Some?
  }

  /** The bytes polled after each submission, per submission. */
  function Polls(c: SampleCodec, subs: seq<Submission>): (ps: seq<seq<byte>>)
    ensures |ps| == |subs|
  {
    seq(|subs|, k requires 0 <= k < |subs| => Flatten(c.encode(subs[..k + 1]).GetOr([])))
  }

  /** The file the encode sample leaves for a run over `subs`: the bytes
      polled after every submission, in order, then the bytes polled after
      the drain; written once at the end, so a failed run writes nothing. */
  ghost function EncodeRun(c: SampleCodec, subs: seq<Submission>): Result<seq<byte>, ConfigError>
  {
    if !EncodesSucceed(c, subs) then Err(EncodeFailed)
    else match c.drain(subs)
      case None => Err(DrainFailed)
      case Some(cs) => Ok(Flatten(Polls(c, subs)) + Flatten(cs))
  }

  /** The encode sample's main loop over the input file `data`: choose the
      rate control, read `TotalFrames` frames one `FRAME_SIZE` read at a
      time, submit each with its metadata and collect what the poll loop
      returns, drain, collect again. */
  method EncodeSample(data: seq<byte>, frames: Option<nat>, mode: string, bitrate: nat, maxrate: nat,
                      codec: RateControl -> SampleCodec)
    returns (r: Result<seq<byte>, ConfigError>)
    ensures var rc := EncodeRateControl(mode, bitrate, maxrate);
      && (rc.Err? ==> r == Err(InvalidMode(mode)))
      && (rc.Ok? ==>
            var n := TotalFrames(|data|, FRAME_SIZE, frames).value;
            r == EncodeRun(codec(rc.value), Submissions(data, FRAME_SIZE, n, EncodeLayout())))
  {
    var rc := EncodeRateControl(mode, bitrate, maxrate);
    if rc.Err? {
      return Err(rc.error);
    }
    var total := TotalFrames(|data|, FRAME_SIZE, frames).value;
    PlaneCopy.PosIsProduct(0, FRAME_SIZE, total);
    r := EncodeFrames(codec(rc.value), data, FRAME_SIZE, total, EncodeLayout());
  }

  /** The frame loop proper: `n` reads of `size` bytes, each submitted and
      polled dry, then the drain. */
  method EncodeFrames(c: SampleCodec, data: seq<byte>, size: nat, n: nat, layout: FrameLayout)
    returns (r: Result<seq<byte>, ConfigError>)
    requires PlaneCopy.Pos(0, size, n) <= |data|
    ensures r == EncodeRun(c, Submissions(data, size, n, layout))
  {
    ghost var all := Submissions(data, size, n, layout);
    var subs: seq<Submission> := [];
    var bitstream: seq<byte> := [];
    var idx, offset := 0, 0;
    while idx < n
      invariant idx <= n && offset == PlaneCopy.Pos(0, size, idx)
      invariant subs == all[..idx]
      invariant EncodesSucceed(c, subs)
      invariant bitstream == Flatten(Polls(c, subs))
    {
      SubmissionsSnoc(data, size, n, layout, idx);
      subs := subs + [Submission(Metadata(idx, layout), data[offset..offset + size])];
      var out := c.encode(subs);
      if out.None? {
        EncodeFailure(c, all, idx + 1);
        return Err(EncodeFailed);
      }
      PollsSnoc(c, subs);
      bitstream := bitstream + Flatten(out.value);
      idx, offset := idx + 1, offset + size;
    }
    assert subs == all;
    var tail := c.drain(subs);
    if tail.None? {
      return Err(DrainFailed);
    }
    r := Ok(bitstream + Flatten(tail.value));
  }

  /** The submissions for the first `idx + 1` frames extend those for the
      first `idx` by frame `idx`, read from where the previous one ended. */
  lemma {:induction false} SubmissionsSnoc(data: seq<byte>, size: nat, n: nat, layout: FrameLayout, idx: nat)
    requires idx < n && PlaneCopy.Pos(0, size, n) <= |data|
    ensures PlaneCopy.Pos(0, size, idx) + size <= |data|
    ensures var at := PlaneCopy.Pos(0, size, idx);
      Submissions(data, size, n, layout)[..idx + 1]
      == Submissions(data, size, n, layout)[..idx] + [Submission(Metadata(idx, layout), data[at..at + size])]
  {
    PlaneCopy.PosMono(0, size, idx + 1, n);
  }

  /** A failed encode call makes the whole run fail. */
  lemma {:induction false} EncodeFailure(c: SampleCodec, subs: seq<Submission>, k: nat)
    requires 0 < k <= |subs| && c.encode(subs[..k]).None?
    ensures !EncodesSucceed(c, subs)
  {
  }

  /** One more submission adds its polled bytes after the others. */
  lemma {:induction false} PollsSnoc(c: SampleCodec, subs: seq<Submission>)
    requires |subs| > 0
    requires EncodesSucceed(c, subs[..|subs| - 1])
    requires c.encode(subs).Some?
    ensures EncodesSucceed(c, subs)
    ensures Flatten(Polls(c, subs)) == Flatten(Polls(c, subs[..|subs| - 1])) + Flatten(c.encode(subs).value)
  {
    var n := |subs| - 1;
    var init := subs[..n];
    forall k | 0 < k <= n
      ensures init[..k] == subs[..k]
    {
    }
    assert subs[..n + 1] == subs;
    assert Polls(c, subs)[..n] == Polls(c, init);
  }

  /** The frames of a list of submissions. */
  function Frames(s: seq<Submission>): (fs: seq<seq<byte>>)
    ensures |fs| == |s| && forall k | 0 <= k < |s| :: fs[k] == s[k].frame
  {
    seq(|s|, k requires 0 <= k < |s| => s[k].frame)
  }

  /** The run submits frame `k` with timestamp `k` and forces a key frame
      for the first frame only; each frame is `size` bytes of the file. */
  lemma {:induction false} SubmissionsMetadata(data: seq<byte>, size: nat, n: nat, layout: FrameLayout)
    requires PlaneCopy.Pos(0, size, n) <= |data|
    ensures var s := Submissions(data, size, n, layout);
      && (forall k | 0 <= k < n :: s[k].meta.timestamp == k && (s[k].meta.forceKeyframe <==> k == 0))
      && (forall k | 0 <= k < n :: s[k].meta.layout == layout && |s[k].frame| == size)
  {
    var s := Submissions(data, size, n, layout);
    forall k | 0 <= k < n
      ensures |s[k].frame| == size
    {
      PlaneCopy.PosMono(0, size, k + 1, n);
    }
  }

  /** The frames of the first `n` submissions, side by side, are the first
      `n` frames' worth of the file: nothing skipped, nothing read twice. */
  lemma {:induction false} FramesCoverPrefix(data: seq<byte>, size: nat, n: nat, layout: FrameLayout)
    requires PlaneCopy.Pos(0, size, n) <= |data|
    ensures Flatten(Frames(Submissions(data, size, n, layout))) == data[..PlaneCopy.Pos(0, size, n)]
    decreases n
  {
    if n > 0 {
      var m := PlaneCopy.Pos(0, size, n - 1);
      var fs := Frames(Submissions(data, size, n, layout));
      var prev := Frames(Submissions(data, size, n - 1, layout));
      assert m + size <= |data|;
      FramesCoverPrefix(data, size, n - 1, layout);
      assert fs[..n - 1] == prev by {
        forall k | 0 <= k < n - 1 ensures fs[k] == prev[k] {
          assert fs[k] == Slot(data, size, k) == prev[k];
        }
      }
      assert fs[n - 1] == data[m..m + size] by {
        assert fs[n - 1] == Slot(data, size, n - 1);
      }
      assert Flatten(fs) == Flatten(prev) + data[m..m + size];
      SliceJoin(data, 0, m, m + size);
      assert data[..m] == data[0..m];
    }
  }

  /** The encode sample reads whole frames only: the `TotalFrames` frames
      it submits are the start of the file, frame `k` carrying timestamp
      `k` and only frame 0 a forced key frame. */
  lemma {:induction false} EncodeSampleReadsPrefix(data: seq<byte>, frames: Option<nat>)
    ensures var n := TotalFrames(|data|, FRAME_SIZE, frames).value;
      var s := Submissions(data, FRAME_SIZE, n, EncodeLayout());
      && Flatten(Frames(s)) == data[..n * FRAME_SIZE]
      && (forall k | 0 <= k < n :: s[k].meta.timestamp == k && (s[k].meta.forceKeyframe <==> k == 0))
      && (forall k | 0 <= k < n :: |s[k].frame| == FRAME_SIZE)
  {
    var n := TotalFrames(|data|, FRAME_SIZE, frames).value;
    PlaneCopy.PosIsProduct(0, FRAME_SIZE, n);
    FramesCoverPrefix(data, FRAME_SIZE, n, EncodeLayout());
    SubmissionsMetadata(data, FRAME_SIZE, n, EncodeLayout());
  }
}
