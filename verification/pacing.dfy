/** The fixed-cadence pacing loop of `src/main.rs`.

    Each tick reads the latest captured frame (if any), creates the encoder
    from the first frame's geometry, submits the frame, polls the encoder
    until it has nothing more to hand out, writes every chunk to the output
    file, and then waits for the next deadline. When the loop is told to
    stop, the encoder (if one was ever created) is drained and polled dry.

    Time is a natural number in an abstract unit: `start` is the instant
    the loop begins and `period` the frame duration. The encoder is an
    abstract collaborator (`Codec`) described only by what it makes ready to
    poll; sleeping and output are recorded as events, so the whole run is a
    pure function of the tick observations. */
module Pacing {
  import opened Common

  /** A captured frame handle: its identity and its geometry. */
  datatype Frame = Frame(id: nat, width: nat, height: nat)

  /** One unit of encoder output (an encoded bitstream buffer). */
  type Chunk = seq<byte>

  /** What one loop iteration observes: the latest frame the capture side
      has published, and the clock reading taken just before the wait. */
  datatype Tick = Tick(frame: Option<Frame>, now: nat)

  /** The encoder collaborator, by behaviour.
      `create(w, h)` tells whether construction succeeds for that geometry.
      `encode(fs)` is the output made ready for polling when the last frame
      of `fs` is submitted after the earlier ones, or `None` if the call
      fails; `drain(fs)` is the output a drain releases after `fs` were
      submitted, or `None` if it fails. */
  datatype Codec = Codec(
    create: (nat, nat) -> bool,
    encode: seq<Frame> -> Option<seq<Chunk>>,
    drain: seq<Frame> -> Option<seq<Chunk>>)

  /** A live encoder: its fixed geometry, the frames submitted so far and the
      chunks ready to be polled. */
  datatype Encoder = Encoder(width: nat, height: nat, submitted: seq<Frame>, ready: seq<Chunk>)

  /** What the loop does, in order. */
  datatype Event =
    | Created(width: nat, height: nat)
    | Encoded(frame: Frame)
    | Polled(chunk: Chunk)
    | Slept(duration: nat)
    | Drained

  /** The state owned by the pacing thread: the next deadline, the encoder
      once it exists, what happened so far and the bytes written so far. */
  datatype Pacer = Pacer(deadline: nat, encoder: Option<Encoder>, events: seq<Event>, output: seq<byte>)

  /** Fatal errors: encoder construction (a panic in the source), `encode`
      and `drain` failures (propagated with `?`). */
  datatype Failure = CreateFailed | EncodeFailed | DrainFailed

  /** The state before the first tick: the first deadline is one period
      after the start. */
  function Begin(start: nat, period: nat): Pacer
  {
    Pacer(start + period, None, [], [])
  }

  /** `Polled` events for the chunks of `cs`, in order. */
  function PolledEvents(cs: seq<Chunk>): (ev: seq<Event>)
    ensures |ev| == |cs|
    ensures forall i | 0 <= i < |cs| :: ev[i] == Polled(cs[i])
  {
    if |cs| == 0 then [] else [Polled(cs[0])] + PolledEvents(cs[1..])
  }

  /** `while let Some(chunk) = encoder.poll() { write(chunk) }` over the
      chunks `cs` the encoder has ready: one poll per chunk, each chunk
      appended to the output as it comes. */
  function PollLoop(cs: seq<Chunk>, events: seq<Event>, output: seq<byte>): (r: (seq<Event>, seq<byte>))
    ensures r.0 == events + PolledEvents(cs)
    ensures r.1 == output + Flatten(cs)
    decreases |cs|
  {
    if |cs| == 0 then (events, output)
    else
      FlattenCons(cs);
      assert events + PolledEvents(cs) == (events + [Polled(cs[0])]) + PolledEvents(cs[1..]);
      assert output + Flatten(cs) == (output + cs[0]) + Flatten(cs[1..]);
      PollLoop(cs[1..], events + [Polled(cs[0])], output + cs[0])
  }

  /** Polls the encoder dry, recording every chunk and writing it out. */
  function PollAll(p: Pacer): (r: Pacer)
    requires p.encoder.Some?
    ensures r.encoder == Some(p.encoder.value.(ready := []))
    ensures r.deadline == p.deadline
    ensures r.events == p.events + PolledEvents(p.encoder.value.ready)
    ensures r.output == p.output + Flatten(p.encoder.value.ready)
  {
    var e := p.encoder.value;
    var r := PollLoop(e.ready, p.events, p.output);
    Pacer(p.deadline, Some(e.(ready := [])), r.0, r.1)
  }

  /** The encoder to use for frame `f`: the existing one, or a new one with
      `f`'s geometry if none exists yet. */
  function Acquire(codec: Codec, p: Pacer, f: Frame): (r: Result<Pacer, Failure>)
    ensures r.Ok? ==> r.value.encoder.Some? && r.value.deadline == p.deadline && r.value.output == p.output
    ensures r.Ok? && p.encoder.Some? ==> r.value == p
    ensures p.encoder.None? && r.Ok? ==>
      r.value.encoder == Some(Encoder(f.width, f.height, [], [])) && r.value.events == p.events + [Created(f.width, f.height)]
    ensures r.Err? <==> p.encoder.None? && !codec.create(f.width, f.height)
  {
    if p.encoder.Some? then Ok(p)
    else if codec.create(f.width, f.height) then
      Ok(p.(encoder := Some(Encoder(f.width, f.height, [], [])), events := p.events + [Created(f.width, f.height)]))
    else Err(CreateFailed)
  }

  /** Steps 1-3 of a tick: with a frame, make sure an encoder exists and
      submit the frame; without one, do nothing (not an error). */
  function Submit(codec: Codec, p: Pacer, frame: Option<Frame>): (r: Result<Pacer, Failure>)
  {
    match frame
    case None => Ok(p)
    case Some(f) =>
      match Acquire(codec, p, f)
      case Err(err) => Err(err)
      case Ok(q) =>
        var e := q.encoder.value;
        var submitted := e.submitted + [f];
        match codec.encode(submitted)
        case None => Err(EncodeFailed)
        case Some(out) =>
          Ok(q.(encoder := Some(e.(submitted := submitted, ready := e.ready + out)),
                events := q.events + [Encoded(f)]))
  }

  /** The wait at the end of a tick: sleep only when the deadline has not
      passed yet, then move the deadline by exactly one period (strict
      cadence: a late tick is not rescheduled, the next ones catch up). */
  function Pace(period: nat, p: Pacer, now: nat): (r: Pacer)
  {
    p.(deadline := p.deadline + period,
       events := p.events + (if p.deadline >= now then [Slept(p.deadline - now)] else []))
  }

  /** One loop iteration. */
  function Step(codec: Codec, period: nat, p: Pacer, t: Tick): Result<Pacer, Failure>
  {
    match Submit(codec, p, t.frame)
    case Err(err) => Err(err)
    case Ok(q) => Ok(Pace(period, if q.encoder.Some? then PollAll(q) else q, t.now))
  }

  /** The loop over the ticks that happen before the stop request. */
  function Loop(codec: Codec, period: nat, p: Pacer, ticks: seq<Tick>): Result<Pacer, Failure>
  {
    if |ticks| == 0 then Ok(p)
    else
      match Loop(codec, period, p, ticks[..|ticks| - 1])
      case Err(err) => Err(err)
      case Ok(q) => Step(codec, period, q, ticks[|ticks| - 1])
  }

  /** After the loop: drain the encoder if there is one, then poll it dry. */
  function Shutdown(codec: Codec, p: Pacer): Result<Pacer, Failure>
  {
    match p.encoder
    case None => Ok(p)
    case Some(e) =>
      match codec.drain(e.submitted)
      case None => Err(DrainFailed)
      case Some(out) => Ok(PollAll(p.(encoder := Some(e.(ready := e.ready + out)), events := p.events + [Drained])))
  }

  /** A whole run of the program: the loop, then the shutdown. */
  function Session(codec: Codec, start: nat, period: nat, ticks: seq<Tick>): Result<Pacer, Failure>
  {
    match Loop(codec, period, Begin(start, period), ticks)
    case Err(err) => Err(err)
    case Ok(p) => Shutdown(codec, p)
  }

  // ---------------------------------------------------------------------
  // Views of a run, used to state its properties.

  function TickFrame(t: Tick): Option<Frame> { t.frame }

  /** The frames the ticks observed, in order, skipping empty ticks. */
  function FramesOf(ticks: seq<Tick>): seq<Frame> { Pick(ticks, TickFrame) }

  function EncodedOf(e: Event): Option<Frame> { if e.Encoded? then Some(e.frame) else None }
  function PolledOf(e: Event): Option<Chunk> { if e.Polled? then Some(e.chunk) else None }
  function SleptOf(e: Event): Option<nat> { if e.Slept? then Some(e.duration) else None }

  /** The frames submitted for encoding, in submission order. */
  function EncodedFrames(ev: seq<Event>): seq<Frame> { Pick(ev, EncodedOf) }

  /** The chunks polled from the encoder, in emission order. */
  function PolledChunks(ev: seq<Event>): seq<Chunk> { Pick(ev, PolledOf) }

  /** The durations slept, in order. */
  function Sleeps(ev: seq<Event>): seq<nat> { Pick(ev, SleptOf) }

  /** The reference cadence: tick `k` (from 0) is due at
      `start + (k + 1) * period`, whatever happened before, and sleeps for
      the time left until then if that is not negative. */
  function ExpectedSleeps(start: nat, period: nat, ticks: seq<Tick>): seq<nat>
  {
    if |ticks| == 0 then []
    else
      var k := |ticks| - 1;
      var due := start + (k + 1) * period;
      ExpectedSleeps(start, period, ticks[..k]) + (if due >= ticks[k].now then [due - ticks[k].now] else [])
  }

  /** Everything the encoder made ready, in order, when `fs` are submitted
      one after the other. */
  function Outputs(codec: Codec, fs: seq<Frame>): seq<Chunk>
  {
    if |fs| == 0 then [] else Outputs(codec, fs[..|fs| - 1]) + codec.encode(fs).GetOr([])
  }

  /** The life cycle the loop must follow: no encoder (`Init`), then an
      encoder that is fed and polled (`Running`), then drained and only
      polled (`Draining`). Any other order is `Broken`. */
  datatype Phase = Init | Running | Draining | Broken

  function Next(s: Phase, e: Event): Phase
  {
    match s
    case Init => if e.Slept? then Init else if e.Created? then Running else Broken
    case Running =>
      if e.Encoded? || e.Polled? || e.Slept? then Running
      else if e.Drained? then Draining
      else Broken
    case Draining => if e.Polled? then Draining else Broken
    case Broken => Broken
  }

  function Track(s: Phase, ev: seq<Event>): Phase
  {
    if |ev| == 0 then s else Next(Track(s, ev[..|ev| - 1]), ev[|ev| - 1])
  }

  lemma {:induction false} TrackAppend(s: Phase, a: seq<Event>, b: seq<Event>)
    ensures Track(s, a + b) == Track(Track(s, a), b)
    decreases |b|
  {
    if |b| == 0 {
      assert a + b == a;
    } else {
      assert (a + b)[..|a + b| - 1] == a + b[..|b| - 1];
      TrackAppend(s, a, b[..|b| - 1]);
    }
  }

  lemma {:induction false} TrackPolls(s: Phase, cs: seq<Chunk>)
    requires s == Running || s == Draining
    ensures Track(s, PolledEvents(cs)) == s
    decreases |cs|
  {
    if |cs| > 0 {
      var ev := PolledEvents(cs);
      assert ev == [Polled(cs[0])] + PolledEvents(cs[1..]);
      TrackAppend(s, [Polled(cs[0])], PolledEvents(cs[1..]));
      assert Track(s, [Polled(cs[0])]) == s by {
        assert [Polled(cs[0])][..0] == [];
      }
      TrackPolls(s, cs[1..]);
    }
  }

  lemma {:induction false} PickPolls<U>(cs: seq<Chunk>, f: Event -> Option<U>)
    requires forall c :: f(Polled(c)) == None
    ensures Pick(PolledEvents(cs), f) == []
    decreases |cs|
  {
    if |cs| > 0 {
      var e := Polled(cs[0]);
      assert PolledEvents(cs) == [e] + PolledEvents(cs[1..]);
      PickAppend([e], PolledEvents(cs[1..]), f);
      PickOne(e, f);
      PickPolls(cs[1..], f);
    }
  }

  lemma {:induction false} PolledOfPolls(cs: seq<Chunk>)
    ensures PolledChunks(PolledEvents(cs)) == cs
    decreases |cs|
  {
    if |cs| > 0 {
      var e := Polled(cs[0]);
      assert PolledEvents(cs) == [e] + PolledEvents(cs[1..]);
      PickAppend([e], PolledEvents(cs[1..]), PolledOf);
      PickOne(e, PolledOf);
      PolledOfPolls(cs[1..]);
      assert cs == [cs[0]] + cs[1..];
    }
  }

  /** The deadline of tick `k` (from 0), as the loop keeps it: one period
      after the start for the first tick, one period after the previous
      deadline for every later one. */
  function Due(start: nat, period: nat, k: nat): nat
  {
    if k == 0 then start + period else Due(start, period, k - 1) + period
  }

  /** The deadlines the loop accumulates are the fixed grid of the
      reference cadence. */
  lemma {:induction false} DueIsProduct(start: nat, period: nat, k: nat)
    ensures Due(start, period, k) == start + (k + 1) * period
  {
    if k > 0 {
      DueIsProduct(start, period, k - 1);
      assert (k + 1) * period == k * period + period;
    }
  }

  /** What is true of the loop after every tick (the loop invariant of
      `main`). */
  ghost predicate LoopInvariant(codec: Codec, start: nat, period: nat, ticks: seq<Tick>, p: Pacer)
  {
    var fs := FramesOf(ticks);
    && p.deadline == Due(start, period, |ticks|)
    && (p.encoder.Some? <==> |fs| > 0)
    && (p.encoder.Some? ==>
          && p.encoder.value.submitted == fs
          && p.encoder.value.ready == []
          && p.encoder.value.width == fs[0].width
          && p.encoder.value.height == fs[0].height)
    && EncodedFrames(p.events) == fs
    && PolledChunks(p.events) == Outputs(codec, fs)
    && Sleeps(p.events) == ExpectedSleeps(start, period, ticks)
    && p.output == Flatten(PolledChunks(p.events))
    && Track(Init, p.events) == (if |fs| > 0 then Running else Init)
  }

  /** Every successful prefix of the loop satisfies the loop invariant. */
  lemma {:induction false} LoopKeepsInvariant(codec: Codec, start: nat, period: nat, ticks: seq<Tick>)
    requires Loop(codec, period, Begin(start, period), ticks).Ok?
    ensures LoopInvariant(codec, start, period, ticks, Loop(codec, period, Begin(start, period), ticks).value)
  {
    if |ticks| > 0 {
      var k := |ticks| - 1;
      var init := ticks[..k];
      var t := ticks[k];
      var p := Loop(codec, period, Begin(start, period), init).value;
      LoopKeepsInvariant(codec, start, period, init);
      StepKeepsInvariant(codec, start, period, init, t, p);
      assert init + [t] == ticks;
    }
  }

  /** How one more event changes each view of a run. */
  lemma {:induction false} ViewsSnoc(ev: seq<Event>, e: Event)
    ensures EncodedFrames(ev + [e]) == EncodedFrames(ev) + (if e.Encoded? then [e.frame] else [])
    ensures PolledChunks(ev + [e]) == PolledChunks(ev) + (if e.Polled? then [e.chunk] else [])
    ensures Sleeps(ev + [e]) == Sleeps(ev) + (if e.Slept? then [e.duration] else [])
    ensures Track(Init, ev + [e]) == Next(Track(Init, ev), e)
  {
    assert (ev + [e])[..|ev|] == ev;
  }

  /** How appending events changes each view of a run. */
  lemma {:induction false} ViewsAppend(a: seq<Event>, b: seq<Event>)
    ensures EncodedFrames(a + b) == EncodedFrames(a) + EncodedFrames(b)
    ensures PolledChunks(a + b) == PolledChunks(a) + PolledChunks(b)
    ensures Sleeps(a + b) == Sleeps(a) + Sleeps(b)
    ensures Track(Init, a + b) == Track(Track(Init, a), b)
  {
    PickAppend(a, b, EncodedOf);
    PickAppend(a, b, PolledOf);
    PickAppend(a, b, SleptOf);
    TrackAppend(Init, a, b);
  }

  /** The views of a run of polls. */
  lemma {:induction false} ViewsPolls(cs: seq<Chunk>)
    ensures EncodedFrames(PolledEvents(cs)) == []
    ensures PolledChunks(PolledEvents(cs)) == cs
    ensures Sleeps(PolledEvents(cs)) == []
    ensures Track(Running, PolledEvents(cs)) == Running
    ensures Track(Draining, PolledEvents(cs)) == Draining
  {
    PickPolls(cs, EncodedOf);
    PickPolls(cs, SleptOf);
    PolledOfPolls(cs);
    TrackPolls(Running, cs);
    TrackPolls(Draining, cs);
  }

  /** Steps 1-3 of a tick leave the deadline and the output alone, and do
      nothing at all on a tick without a frame. */
  lemma {:induction false} SubmitKeeps(codec: Codec, p: Pacer, frame: Option<Frame>)
    requires Submit(codec, p, frame).Ok?
    ensures var q := Submit(codec, p, frame).value;
      && q.deadline == p.deadline && q.output == p.output
      && (frame.None? ==> q == p)
  {
  }

  /** Steps 1-3 of a tick, on the encoder: a frame is appended to what was
      submitted, the encoder is created from the first frame's geometry and
      keeps it afterwards. */
  lemma {:induction false} SubmitEncoder(codec: Codec, p: Pacer, f: Frame)
    requires Submit(codec, p, Some(f)).Ok?
    requires p.encoder.Some? ==> p.encoder.value.ready == []
    ensures var q := Submit(codec, p, Some(f)).value;
      && q.encoder.Some?
      && q.encoder.value.submitted == (if p.encoder.Some? then p.encoder.value.submitted else []) + [f]
      && q.encoder.value.ready == codec.encode(q.encoder.value.submitted).value
      && (p.encoder.Some? ==> q.encoder.value.width == p.encoder.value.width && q.encoder.value.height == p.encoder.value.height)
      && (p.encoder.None? ==> q.encoder.value.width == f.width && q.encoder.value.height == f.height)
  {
    var a := Acquire(codec, p, f).value;
    assert a.encoder.value.ready == [];
  }

  /** Steps 1-3 of a tick, on the views: at most one `Created` (only when no
      encoder exists) and exactly one `Encoded` per frame. */
  lemma {:induction false} SubmitEffect(codec: Codec, p: Pacer, frame: Option<Frame>)
    requires Submit(codec, p, frame).Ok?
    ensures var q := Submit(codec, p, frame).value;
      && EncodedFrames(q.events) == EncodedFrames(p.events) + (if frame.Some? then [frame.value] else [])
      && PolledChunks(q.events) == PolledChunks(p.events)
      && Sleeps(q.events) == Sleeps(p.events)
      && (Track(Init, p.events) == (if p.encoder.Some? then Running else Init) ==>
            Track(Init, q.events) == (if q.encoder.Some? then Running else Init))
  {
    if frame.Some? {
      var f := frame.value;
      var a := Acquire(codec, p, f).value;
      var q := Submit(codec, p, frame).value;
      assert q.events == a.events + [Encoded(f)];
      ViewsSnoc(a.events, Encoded(f));
      if p.encoder.None? {
        ViewsSnoc(p.events, Created(f.width, f.height));
      }
    }
  }

  /** Polling, on the views: the ready chunks are appended to the polled
      chunks and to the output, nothing else changes. */
  lemma {:induction false} PollEffect(q: Pacer)
    requires q.encoder.Some?
    ensures var r := PollAll(q);
      && EncodedFrames(r.events) == EncodedFrames(q.events)
      && PolledChunks(r.events) == PolledChunks(q.events) + q.encoder.value.ready
      && Sleeps(r.events) == Sleeps(q.events)
      && (Track(Init, q.events) == Running ==> Track(Init, r.events) == Running)
      && (q.output == Flatten(PolledChunks(q.events)) ==> r.output == Flatten(PolledChunks(r.events)))
  {
    var cs := q.encoder.value.ready;
    ViewsAppend(q.events, PolledEvents(cs));
    ViewsPolls(cs);
    FlattenAppend(PolledChunks(q.events), cs);
  }

  /** Waiting, on the views: one `Slept` exactly when the deadline is not
      past. */
  lemma {:induction false} PaceEffect(period: nat, p: Pacer, now: nat)
    ensures var r := Pace(period, p, now);
      && EncodedFrames(r.events) == EncodedFrames(p.events)
      && PolledChunks(r.events) == PolledChunks(p.events)
      && Sleeps(r.events) == Sleeps(p.events) + (if p.deadline >= now then [p.deadline - now] else [])
      && (Track(Init, p.events) != Broken && Track(Init, p.events) != Draining ==> Track(Init, r.events) == Track(Init, p.events))
  {
    if p.deadline >= now {
      ViewsSnoc(p.events, Slept(p.deadline - now));
    } else {
      assert p.events + [] == p.events;
    }
  }

  lemma {:induction false} StepKeepsInvariant(codec: Codec, start: nat, period: nat, init: seq<Tick>, t: Tick, p: Pacer)
    requires LoopInvariant(codec, start, period, init, p)
    requires Step(codec, period, p, t).Ok?
    ensures LoopInvariant(codec, start, period, init + [t], Step(codec, period, p, t).value)
  {
    var ticks := init + [t];
    var r := Step(codec, period, p, t).value;
    FramesStep(init, t);
    StepDeadline(codec, period, p, t);
    assert Due(start, period, |ticks|) == Due(start, period, |init|) + period;
    StepEncoder(codec, start, period, init, t, p);
    StepEvents(codec, start, period, init, t, p);
    StepPolled(codec, start, period, init, t, p);
    StepSleeps(codec, start, period, init, t, p);
  }

  lemma {:induction false} FramesStep(init: seq<Tick>, t: Tick)
    ensures FramesOf(init + [t]) == FramesOf(init) + (if t.frame.Some? then [t.frame.value] else [])
  {
    assert (init + [t])[..|init|] == init;
  }

  /** The parts of a tick, named: the state after submitting, after
      polling and after waiting. */
  function Submitted(codec: Codec, p: Pacer, t: Tick): Pacer
    requires Submit(codec, p, t.frame).Ok?
  {
    Submit(codec, p, t.frame).value
  }

  function PolledDry(q: Pacer): Pacer
  {
    if q.encoder.Some? then PollAll(q) else q
  }

  lemma {:induction false} StepParts(codec: Codec, period: nat, p: Pacer, t: Tick)
    requires Step(codec, period, p, t).Ok?
    ensures Submit(codec, p, t.frame).Ok?
    ensures Step(codec, period, p, t).value == Pace(period, PolledDry(Submitted(codec, p, t)), t.now)
  {
  }

  /** A tick moves the deadline from one grid point to the next, and sleeps
      (if at all) until the deadline it started with. */
  lemma {:induction false} StepDeadline(codec: Codec, period: nat, p: Pacer, t: Tick)
    requires Step(codec, period, p, t).Ok?
    ensures Step(codec, period, p, t).value.deadline == p.deadline + period
  {
    StepParts(codec, period, p, t);
    SubmitKeeps(codec, p, t.frame);
  }

  lemma {:induction false} StepEncoder(codec: Codec, start: nat, period: nat, init: seq<Tick>, t: Tick, p: Pacer)
    requires LoopInvariant(codec, start, period, init, p)
    requires Step(codec, period, p, t).Ok?
    ensures var r := Step(codec, period, p, t).value;
            var fs := FramesOf(init + [t]);
            && (r.encoder.Some? <==> |fs| > 0)
            && (r.encoder.Some? ==>
                && r.encoder.value.submitted == fs
                && r.encoder.value.ready == []
                && r.encoder.value.width == fs[0].width
                && r.encoder.value.height == fs[0].height)
  {
    FramesStep(init, t);
    StepParts(codec, period, p, t);
    SubmitKeeps(codec, p, t.frame);
    if t.frame.Some? {
      SubmitEncoder(codec, p, t.frame.value);
    }
  }

  lemma {:induction false} StepEvents(codec: Codec, start: nat, period: nat, init: seq<Tick>, t: Tick, p: Pacer)
    requires LoopInvariant(codec, start, period, init, p)
    requires Step(codec, period, p, t).Ok?
    ensures var r := Step(codec, period, p, t).value;
            var fs := FramesOf(init + [t]);
            && EncodedFrames(r.events) == fs
            && Track(Init, r.events) == (if |fs| > 0 then Running else Init)
  {
    FramesStep(init, t);
    StepParts(codec, period, p, t);
    var q := Submitted(codec, p, t);
    SubmitEffect(codec, p, t.frame);
    SubmitKeeps(codec, p, t.frame);
    if t.frame.Some? {
      SubmitEncoder(codec, p, t.frame.value);
    }
    if q.encoder.Some? { PollEffect(q); }
    PaceEffect(period, PolledDry(q), t.now);
  }

  lemma {:induction false} StepPolled(codec: Codec, start: nat, period: nat, init: seq<Tick>, t: Tick, p: Pacer)
    requires LoopInvariant(codec, start, period, init, p)
    requires Step(codec, period, p, t).Ok?
    ensures var r := Step(codec, period, p, t).value;
            && PolledChunks(r.events) == Outputs(codec, FramesOf(init + [t]))
            && r.output == Flatten(PolledChunks(r.events))
  {
    var fs0 := FramesOf(init);
    var fs := FramesOf(init + [t]);
    FramesStep(init, t);
    StepParts(codec, period, p, t);
    var q := Submitted(codec, p, t);
    SubmitEffect(codec, p, t.frame);
    SubmitKeeps(codec, p, t.frame);
    if t.frame.Some? {
      SubmitEncoder(codec, p, t.frame.value);
    }
    if q.encoder.Some? { PollEffect(q); }
    PaceEffect(period, PolledDry(q), t.now);
    assert Outputs(codec, fs) == Outputs(codec, fs0) + (if q.encoder.Some? then q.encoder.value.ready else []) by {
      if t.frame.Some? {
        assert fs[..|fs| - 1] == fs0;
      }
    }
  }

  lemma {:induction false} StepSleeps(codec: Codec, start: nat, period: nat, init: seq<Tick>, t: Tick, p: Pacer)
    requires p.deadline == Due(start, period, |init|)
    requires Sleeps(p.events) == ExpectedSleeps(start, period, init)
    requires Step(codec, period, p, t).Ok?
    ensures Sleeps(Step(codec, period, p, t).value.events) == ExpectedSleeps(start, period, init + [t])
  {
    StepParts(codec, period, p, t);
    var q := Submitted(codec, p, t);
    SubmitEffect(codec, p, t.frame);
    SubmitKeeps(codec, p, t.frame);
    var d := PolledDry(q);
    DryKeepsSleeps(q);
    PaceEffect(period, d, t.now);
    ExpectedSleepsStep(start, period, init, t);
  }

  /** Polling neither moves the deadline nor sleeps. */
  lemma {:induction false} DryKeepsSleeps(q: Pacer)
    ensures PolledDry(q).deadline == q.deadline
    ensures Sleeps(PolledDry(q).events) == Sleeps(q.events)
  {
    if q.encoder.Some? { PollEffect(q); }
  }

  /** The reference cadence, one tick further: the new tick sleeps until its
      grid point if that is still ahead. */
  lemma {:induction false} ExpectedSleepsStep(start: nat, period: nat, init: seq<Tick>, t: Tick)
    ensures var due := Due(start, period, |init|);
            ExpectedSleeps(start, period, init + [t])
            == ExpectedSleeps(start, period, init) + (if due >= t.now then [due - t.now] else [])
  {
    var ticks := init + [t];
    assert ticks[..|ticks| - 1] == init;
    DueIsProduct(start, period, |init|);
  }

  // ---------------------------------------------------------------------
  // Properties of a whole session.

  /** The shutdown, on the views: with an encoder, one `Drained` followed by
      the polls of everything the drain released; without one, nothing. */
  lemma {:induction false} ShutdownEffect(codec: Codec, p: Pacer)
    requires Shutdown(codec, p).Ok?
    requires p.encoder.Some? ==> p.encoder.value.ready == []
    ensures var r := Shutdown(codec, p).value;
      && EncodedFrames(r.events) == EncodedFrames(p.events)
      && Sleeps(r.events) == Sleeps(p.events)
      && PolledChunks(r.events)
         == PolledChunks(p.events) + (if p.encoder.Some? then codec.drain(p.encoder.value.submitted).value else [])
      && (p.output == Flatten(PolledChunks(p.events)) ==> r.output == Flatten(PolledChunks(r.events)))
      && (p.encoder.None? ==> r.events == p.events)
      && (p.encoder.Some? && Track(Init, p.events) == Running ==> Track(Init, r.events) == Draining)
  {
    if p.encoder.Some? {
      var e := p.encoder.value;
      var out := codec.drain(e.submitted).value;
      var d := p.(encoder := Some(e.(ready := out)), events := p.events + [Drained]);
      assert e.ready + out == out;
      var r := PollAll(d);
      assert Shutdown(codec, p).value == r;
      assert EncodedFrames(d.events) == EncodedFrames(p.events)
          && PolledChunks(d.events) == PolledChunks(p.events)
          && Sleeps(d.events) == Sleeps(p.events)
          && (Track(Init, p.events) == Running ==> Track(Init, d.events) == Draining) by {
        ViewsSnoc(p.events, Drained);
      }
      PollEffect(d);
      if Track(Init, p.events) == Running {
        assert Track(Init, r.events) == Draining by {
          ViewsAppend(d.events, PolledEvents(out));
          ViewsPolls(out);
        }
      }
    }
  }

  /** The life cycle is respected: the encoder is created at most once and
      before any encode or poll, no `encode` follows the drain, and the
      session ends drained exactly when some frame was ever seen. */
  lemma {:induction false} SessionFollowsLifeCycle(codec: Codec, start: nat, period: nat, ticks: seq<Tick>)
    requires Session(codec, start, period, ticks).Ok?
    ensures Track(Init, Session(codec, start, period, ticks).value.events)
            == (if |FramesOf(ticks)| > 0 then Draining else Init)
  {
    LoopKeepsInvariant(codec, start, period, ticks);
    ShutdownEffect(codec, Loop(codec, period, Begin(start, period), ticks).value);
  }

  /** The encoder is created only from a frame: with the first observed
      frame's geometry if any tick saw a frame, never otherwise; and every
      frame observed is submitted exactly once, in order, with nothing
      submitted on empty ticks. */
  lemma {:induction false} SessionEncodesEveryObservedFrame(codec: Codec, start: nat, period: nat, ticks: seq<Tick>)
    requires Session(codec, start, period, ticks).Ok?
    ensures EncodedFrames(Session(codec, start, period, ticks).value.events) == FramesOf(ticks)
    ensures Loop(codec, period, Begin(start, period), ticks).Ok?
    ensures var e := Loop(codec, period, Begin(start, period), ticks).value.encoder;
            if |FramesOf(ticks)| == 0 then e.None?
            else e.Some? && e.value.width == FramesOf(ticks)[0].width && e.value.height == FramesOf(ticks)[0].height
  {
    LoopKeepsInvariant(codec, start, period, ticks);
    ShutdownEffect(codec, Loop(codec, period, Begin(start, period), ticks).value);
  }

  /** Strict cadence: the k-th tick waits for `start + (k + 1) * period`
      when that is still ahead, and does not wait at all when it is late;
      the shutdown never sleeps. */
  lemma {:induction false} SessionKeepsCadence(codec: Codec, start: nat, period: nat, ticks: seq<Tick>)
    requires Session(codec, start, period, ticks).Ok?
    ensures Sleeps(Session(codec, start, period, ticks).value.events) == ExpectedSleeps(start, period, ticks)
  {
    LoopKeepsInvariant(codec, start, period, ticks);
    ShutdownEffect(codec, Loop(codec, period, Begin(start, period), ticks).value);
  }

  /** The output file receives, in order, every chunk the encoder made ready
      after each submission and after the drain, and nothing else. */
  lemma {:induction false} SessionWritesAllOutput(codec: Codec, start: nat, period: nat, ticks: seq<Tick>)
    requires Session(codec, start, period, ticks).Ok?
    ensures var fs := FramesOf(ticks);
            var r := Session(codec, start, period, ticks).value;
            && PolledChunks(r.events)
               == Outputs(codec, fs) + (if |fs| > 0 then codec.drain(fs).GetOr([]) else [])
            && r.output == Flatten(PolledChunks(r.events))
  {
    LoopKeepsInvariant(codec, start, period, ticks);
    ShutdownEffect(codec, Loop(codec, period, Begin(start, period), ticks).value);
  }

  /** A capture side that never delivers a frame: the run succeeds, nothing
      is created, encoded, drained or written, and only sleeps happen. */
  lemma {:induction false} NoFramesNoOutput(codec: Codec, start: nat, period: nat, ticks: seq<Tick>)
    requires forall i | 0 <= i < |ticks| :: ticks[i].frame.None?
    ensures Session(codec, start, period, ticks).Ok?
    ensures Session(codec, start, period, ticks).value.output == []
    ensures forall e | e in Session(codec, start, period, ticks).value.events :: e.Slept?
  {
    NoFramesLoop(codec, start, period, ticks);
  }

  lemma {:induction false} NoFramesLoop(codec: Codec, start: nat, period: nat, ticks: seq<Tick>)
    requires forall i | 0 <= i < |ticks| :: ticks[i].frame.None?
    ensures Loop(codec, period, Begin(start, period), ticks).Ok?
    ensures var p := Loop(codec, period, Begin(start, period), ticks).value;
            p.encoder.None? && p.output == [] && forall e | e in p.events :: e.Slept?
  {
    if |ticks| > 0 {
      NoFramesLoop(codec, start, period, ticks[..|ticks| - 1]);
    }
  }

  /** A codec that never fails. */
  ghost predicate Reliable(codec: Codec)
  {
    && (forall w: nat, h: nat :: codec.create(w, h))
    && (forall fs: seq<Frame> :: codec.encode(fs).Some?)
    && (forall fs: seq<Frame> :: codec.drain(fs).Some?)
  }

  /** Failures only come from the encoder: with a codec that never fails
      the session always completes. */
  lemma {:induction false} ReliableCodecCompletes(codec: Codec, start: nat, period: nat, ticks: seq<Tick>)
    requires Reliable(codec)
    ensures Loop(codec, period, Begin(start, period), ticks).Ok?
    ensures Session(codec, start, period, ticks).Ok?
  {
    if |ticks| > 0 {
      ReliableCodecCompletes(codec, start, period, ticks[..|ticks| - 1]);
    }
  }

  /** A codec that makes exactly one chunk, `tag(f)`, ready for each frame
      `f` and releases nothing on drain. */
  function OneChunkCodec(tag: Frame -> Chunk): Codec
  {
    Codec((w, h) => true,
          fs => if |fs| == 0 then Some([]) else Some([tag(fs[|fs| - 1])]),
          fs => Some([]))
  }

  function Tags(tag: Frame -> Chunk, fs: seq<Frame>): (cs: seq<Chunk>)
    ensures |cs| == |fs|
    ensures forall i | 0 <= i < |fs| :: cs[i] == tag(fs[i])
  {
    seq(|fs|, i requires 0 <= i < |fs| => tag(fs[i]))
  }

  lemma {:induction false} OneChunkOutputs(tag: Frame -> Chunk, fs: seq<Frame>)
    ensures Outputs(OneChunkCodec(tag), fs) == Tags(tag, fs)
  {
    if |fs| > 0 {
      OneChunkOutputs(tag, fs[..|fs| - 1]);
    }
  }

  /** With an encoder that emits one chunk per submitted frame, n observed
      frames give exactly n chunks at the sink, in submission order. */
  lemma {:induction false} OneChunkPerFrame(tag: Frame -> Chunk, start: nat, period: nat, ticks: seq<Tick>)
    ensures Session(OneChunkCodec(tag), start, period, ticks).Ok?
    ensures PolledChunks(Session(OneChunkCodec(tag), start, period, ticks).value.events)
            == Tags(tag, FramesOf(ticks))
  {
    var codec := OneChunkCodec(tag);
    ReliableCodecCompletes(codec, start, period, ticks);
    SessionWritesAllOutput(codec, start, period, ticks);
    OneChunkOutputs(tag, FramesOf(ticks));
  }
}
