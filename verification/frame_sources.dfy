/** The frame sources of `examples/oneframe.rs`: `PooledFrameIterator`
    (metadata for consecutive frames), `TestFrameGenerator` (a fixed number
    of generated frames), `NV12FrameProducer` (one frame per chunk of raw
    NV12 bytes) and `upload_nv12_img`, which copies a packed frame into a
    mapped image row by row.

    The surfaces themselves are not modelled: the pool hands out a surface
    for every frame, and the mapped image a surface is uploaded into is a
    parameter. A slice out of range or a failed `debug_assert_eq!` panics
    in the source; here each is an error. */
module FrameSources {
  import opened Common
  import opened PlaneCopy
  import SampleConfig

  type FrameLayout = SampleConfig.FrameLayout
  type FrameMetadata = SampleConfig.FrameMetadata

  // ---------------------------------------------------------------------
  // PooledFrameIterator.

  /** The iterator's state: the next timestamp and the layout of every
      frame. */
  datatype PooledFrames = PooledFrames(counter: nat, layout: FrameLayout)

  function NewPooled(layout: FrameLayout): PooledFrames
  {
    PooledFrames(0, layout)
  }

  /** One `next`: metadata for the next frame, never a forced key frame,
      with the counter as its timestamp; the counter moves on by one. */
  function PooledNext(s: PooledFrames): (r: (PooledFrames, FrameMetadata))
    ensures r.1.timestamp == s.counter && r.1.layout == s.layout && !r.1.forceKeyframe
    ensures r.0 == PooledFrames(s.counter + 1, s.layout)
  {
    (PooledFrames(s.counter + 1, s.layout), SampleConfig.FrameMetadata(s.counter, s.layout, false))
  }

  /** The metadata of `n` calls of `next`, in order. */
  function PooledRun(s: PooledFrames, n: nat): (ms: seq<FrameMetadata>)
    ensures |ms| == n
    decreases n
  {
    if n == 0 then [] else var (s', m) := PooledNext(s); [m] + PooledRun(s', n - 1)
  }

  /** `n` calls of `next` on a fresh iterator give the timestamps `0` to
      `n - 1` in order, all with the iterator's layout and none a forced
      key frame. */
  lemma PooledTimestamps(layout: FrameLayout, n: nat)
    ensures forall k | 0 <= k < n :: PooledRun(NewPooled(layout), n)[k] == SampleConfig.FrameMetadata(k, layout, false)
  {
    PooledRunFrom(NewPooled(layout), n);
  }

  lemma {:induction false} PooledRunFrom(s: PooledFrames, n: nat)
    ensures forall k | 0 <= k < n :: PooledRun(s, n)[k] == SampleConfig.FrameMetadata(s.counter + k, s.layout, false)
    decreases n
  {
    if n > 0 {
      PooledRunFrom(PooledNext(s).0, n - 1);
    }
  }

  // ---------------------------------------------------------------------
  // TestFrameGenerator.

  /** The generator's state: frames handed out so far, the largest count
      it stops after, and its pooled iterator. */
  datatype Generator = Generator(counter: nat, maxCount: nat, pool: PooledFrames)

  function NewGenerator(maxCount: nat, layout: FrameLayout): Generator
  {
    Generator(0, maxCount, NewPooled(layout))
  }

  /** The generator and its pooled iterator count together. */
  predicate InStep(g: Generator)
  {
    g.counter == g.pool.counter
  }

  /** One `next`: nothing once the counter has passed `maxCount` (and the
      state stays as it is), else the pooled iterator's next frame. */
  function GeneratorNext(g: Generator): (r: (Generator, Option<FrameMetadata>))
    ensures r.1.None? <==> g.counter > g.maxCount
    ensures r.1.None? ==> r.0 == g
    ensures r.1.Some? ==> r.1.value == PooledNext(g.pool).1 && r.0.counter == g.counter + 1
    ensures r.0.maxCount == g.maxCount && r.0.pool.layout == g.pool.layout
    ensures InStep(g) ==> InStep(r.0)
  {
    if g.counter > g.maxCount then (g, None)
    else
      var (pool', meta) := PooledNext(g.pool);
      (Generator(g.counter + 1, g.maxCount, pool'), Some(meta))
  }

  /** What `n` calls of `next` return, in order. */
  function GeneratorRun(g: Generator, n: nat): (items: seq<Option<FrameMetadata>>)
    decreases n
  {
    if n == 0 then [] else var (g', m) := GeneratorNext(g); [m] + GeneratorRun(g', n - 1)
  }

  /** A fresh generator for `maxCount` yields `maxCount + 1` frames, with
      timestamps `0` to `maxCount`, and nothing after them, however often
      it is asked. */
  lemma GeneratorYields(maxCount: nat, layout: FrameLayout, n: nat)
    ensures |GeneratorRun(NewGenerator(maxCount, layout), n)| == n
    ensures forall k | 0 <= k < n ::
      GeneratorRun(NewGenerator(maxCount, layout), n)[k] ==
        if k <= maxCount then Some(SampleConfig.FrameMetadata(k, layout, false)) else None
  {
    GeneratorRunFrom(NewGenerator(maxCount, layout), n);
  }

  lemma {:induction false} GeneratorRunFrom(g: Generator, n: nat)
    requires InStep(g)
    ensures |GeneratorRun(g, n)| == n
    ensures forall k | 0 <= k < n ::
      GeneratorRun(g, n)[k] ==
        if g.counter + k <= g.maxCount then Some(SampleConfig.FrameMetadata(g.counter + k, g.pool.layout, false)) else None
    decreases n
  {
    if n > 0 {
      var (g', m) := GeneratorNext(g);
      GeneratorRunFrom(g', n - 1);
      if g.counter > g.maxCount {
        assert g' == g;
      }
    }
  }

  // ---------------------------------------------------------------------
  // upload_nv12_img.

  /** `n` rows copied `pitch` apart from `start`, as the loop walks them:
      each row's `width` bytes lie in the buffer and so does the start of
      the next (the slice is advanced by `pitch` after every row, the last
      one included). With no rows, `start` must still be inside. */
  predicate SlicedRowsFit(len: nat, start: nat, pitch: nat, width: nat, n: nat)
  {
    RowsFit(len, start, pitch, width, n) && Pos(start, pitch, n) <= len
  }

  /** `upload_nv12_img`: the `h` luma rows of `data` (`w` bytes each,
      packed) go to `offset0 + r * pitch0` of the image and the `h / 2`
      chroma rows that follow them, from byte `w * h` of `data`, go to
      `offset1 + r * pitch1`. It panics exactly when a slice of `data` or of
      the image runs past its end. */
  function UploadNv12Img(dest: seq<byte>, data: seq<byte>, w: nat, h: nat, img: ImageLayout): (r: Result<seq<byte>, CopyError>)
    ensures r.Ok? <==>
      && SlicedRowsFit(|data|, 0, w, w, h) && SlicedRowsFit(|dest|, img.offset0, img.pitch0, w, h)
      && SlicedRowsFit(|data|, w * h, w, w, h / 2) && SlicedRowsFit(|dest|, img.offset1, img.pitch1, w, h / 2)
    ensures r.Ok? ==> |r.value| == |dest|
  {
    if !SlicedRowsFit(|data|, 0, w, w, h) || !SlicedRowsFit(|dest|, img.offset0, img.pitch0, w, h) then Err(OutOfRange)
    else if !SlicedRowsFit(|data|, w * h, w, w, h / 2) || !SlicedRowsFit(|dest|, img.offset1, img.pitch1, w, h / 2) then Err(OutOfRange)
    else
      var luma := WriteRows(dest, img.offset0, img.pitch0, w, Rows(data, 0, w, w, h));
      Ok(WriteRows(luma, img.offset1, img.pitch1, w, Rows(data, w * h, w, w, h / 2)))
  }

  /** On a frame that holds both planes, `upload_nv12_img` does what the
      intended stride-aware upload does, and it succeeds whenever that
      upload does and the image has room for the slice advanced past each
      plane's last row. */
  lemma {:induction false} Nv12ImgIsUpload(dest: seq<byte>, data: seq<byte>, w: nat, h: nat, img: ImageLayout)
    requires FrameHolds(data, w, h)
    ensures UploadNv12Img(dest, data, w, h, img).Ok? ==> UploadNv12Img(dest, data, w, h, img) == Upload(dest, data, w, h, img)
    ensures Upload(dest, data, w, h, img).Ok? && Pos(img.offset0, img.pitch0, h) <= |dest| && Pos(img.offset1, img.pitch1, h / 2) <= |dest|
      ==> UploadNv12Img(dest, data, w, h, img).Ok?
  {
    FrameRowsFit(data, w, h);
  }

  /** With padded rows (a pitch above the width) the image gets every row
      of the frame: after the upload, with non-overlapping rows and the luma
      rows ending before the chroma plane, the image's rows are the frame's
      rows. */
  lemma Nv12ImgReadBack(dest: seq<byte>, data: seq<byte>, w: nat, h: nat, img: ImageLayout)
    requires FrameHolds(data, w, h) && UploadNv12Img(dest, data, w, h, img).Ok?
    requires img.pitch0 >= w && img.pitch1 >= w
    requires RowsEnd(img.offset0, img.pitch0, w, h) <= img.offset1
    ensures var out := UploadNv12Img(dest, data, w, h, img).value;
      && Rows(out, img.offset0, img.pitch0, w, h) == LumaRows(data, w, h)
      && Rows(out, img.offset1, img.pitch1, w, h / 2) == ChromaRows(data, w, h)
  {
    Nv12ImgIsUpload(dest, data, w, h, img);
    UploadReadBack(dest, data, w, h, img);
  }

  // ---------------------------------------------------------------------
  // NV12FrameProducer.

  /** Why a producer's `next` panics. */
  datatype SourceError =
    | Overflow        // `width * height + width * height / 2` leaves `u32`
    | LengthMismatch  // the chunk is not one NV12 frame of the layout's size
    | UploadFailed    // a slice in `upload_nv12_img` is out of range

  /** The producer's state: the raw chunks still to come and its pooled
      iterator. */
  datatype Producer = Producer(raw: seq<seq<byte>>, pool: PooledFrames)

  function NewProducer(raw: seq<seq<byte>>, layout: FrameLayout): Producer
  {
    Producer(raw, NewPooled(layout))
  }

  /** A frame a source hands out: its metadata and the surface's image. */
  datatype Frame = Frame(meta: FrameMetadata, image: seq<byte>)

  /** The size the producer expects of a chunk, in `u32` arithmetic:
      `None` when a step overflows. */
  function FrameLen(w: nat, h: nat): (r: Option<nat>)
    ensures r.Some? <==> w * h + w * h / 2 <= U32_MAX
    ensures r.Some? ==> r.value == LumaSize(w, h) + ChromaSize(w, h)
  {
    if w * h > U32_MAX || w * h + w * h / 2 > U32_MAX then None else Some(w * h + w * h / 2)
  }

  /** One `next`: nothing, with the state unchanged, once the chunks run
      out; otherwise the next chunk, checked to be exactly one NV12 frame of
      the layout's size, is uploaded into the surface's image `dest` (laid
      out as `img`) and handed out with the pooled iterator's metadata. The
      frame the image gets is the frame the intended upload gives. */
  function ProducerNext(p: Producer, dest: seq<byte>, img: ImageLayout): (r: Result<(Producer, Option<Frame>), SourceError>)
    ensures |p.raw| == 0 ==> r == Ok((p, None))
    ensures |p.raw| > 0 ==> (r.Ok? <==>
      var w := p.pool.layout.width;
      var h := p.pool.layout.height;
      && FrameLen(w, h) == Some(|p.raw[0]|)
      && UploadNv12Img(dest, p.raw[0], w, h, img).Ok?)
    ensures |p.raw| > 0 && r.Ok? ==>
      var w := p.pool.layout.width;
      var h := p.pool.layout.height;
      && r.value.0 == Producer(p.raw[1..], PooledFrames(p.pool.counter + 1, p.pool.layout))
      && r.value.1.Some?
      && r.value.1.value.meta == SampleConfig.FrameMetadata(p.pool.counter, p.pool.layout, false)
      && Upload(dest, p.raw[0], w, h, img).Ok?
      && r.value.1.value.image == Upload(dest, p.raw[0], w, h, img).value
  {
    if |p.raw| == 0 then Ok((p, None))
    else
      var chunk := p.raw[0];
      var (pool', meta) := PooledNext(p.pool);
      var w := meta.layout.width;
      var h := meta.layout.height;
      match FrameLen(w, h)
      case None => Err(Overflow)
      case Some(n) =>
        if n != |chunk| then Err(LengthMismatch)
        else
          match UploadNv12Img(dest, chunk, w, h, img)
          case Err(_) => Err(UploadFailed)
          case Ok(image) =>
            Nv12ImgIsUpload(dest, chunk, w, h, img);
            Ok((Producer(p.raw[1..], pool'), Some(Frame(meta, image))))
  }

  /** A chunk `next` accepts: exactly one NV12 frame of the layout's size,
      which the upload takes. */
  predicate ChunkFits(chunk: seq<byte>, layout: FrameLayout, dest: seq<byte>, img: ImageLayout)
  {
    && FrameLen(layout.width, layout.height) == Some(|chunk|)
    && UploadNv12Img(dest, chunk, layout.width, layout.height, img).Ok?
  }

  /** A producer whose chunks all fit hands out one frame per chunk, with
      timestamps counting on from its pooled iterator, and then nothing: the
      metadata of the frames it hands out are those `PooledRun` gives. */
  lemma {:induction false} ProducerFrames(p: Producer, dest: seq<byte>, img: ImageLayout, n: nat)
    requires n <= |p.raw|
    requires forall i | 0 <= i < |p.raw| :: ChunkFits(p.raw[i], p.pool.layout, dest, img)
    ensures ProducerRun(p, dest, img, n).Ok?
    ensures |ProducerRun(p, dest, img, n).value| == n
    ensures forall k | 0 <= k < n :: ProducerRun(p, dest, img, n).value[k].meta == PooledRun(p.pool, n)[k]
    decreases n
  {
    if n > 0 {
      assert ChunkFits(p.raw[0], p.pool.layout, dest, img);
      var r := ProducerNext(p, dest, img);
      assert r.Ok?;
      var p' := r.value.0;
      var f := r.value.1.value;
      assert p'.raw == p.raw[1..] && p'.pool == PooledFrames(p.pool.counter + 1, p.pool.layout);
      assert forall i | 0 <= i < |p'.raw| :: p'.raw[i] == p.raw[i + 1];
      ProducerFrames(p', dest, img, n - 1);
      var rest := ProducerRun(p', dest, img, n - 1).value;
      assert ProducerRun(p, dest, img, n).value == [f] + rest;
      assert PooledRun(p.pool, n) == [f.meta] + PooledRun(p'.pool, n - 1);
    }
  }

  /** The frames of `n` calls of `next`, or the first error. */
  function ProducerRun(p: Producer, dest: seq<byte>, img: ImageLayout, n: nat): Result<seq<Frame>, SourceError>
    decreases n
  {
    if n == 0 then Ok([])
    else match ProducerNext(p, dest, img)
      case Err(e) => Err(e)
      case Ok((p', item)) =>
        match item
        case None => Ok([])
        case Some(f) =>
          match ProducerRun(p', dest, img, n - 1)
          case Err(e) => Err(e)
          case Ok(fs) => Ok([f] + fs)
  }

  /** Once the chunks are used up, `next` returns nothing and keeps doing
      so. */
  lemma ProducerExhausted(p: Producer, dest: seq<byte>, img: ImageLayout, n: nat)
    requires |p.raw| == 0
    ensures ProducerRun(p, dest, img, n) == Ok([])
  {
  }
}
