/** Stride-aware copies between a packed NV12 frame and a mapped VA image,
    as `upload_nv12_frame` and `download_nv12_frame` do them in
    `src/scale_sample.rs` and `src/encode_sample.rs`.

    A packed NV12 frame of `w` x `h` pixels is `w * h` luma bytes followed
    by `w * h / 2` interleaved chroma bytes, `h / 2` rows of `w` bytes each.
    In the image each plane starts at its own offset and its rows are
    `pitch` bytes apart (a pitch may exceed the width: the row is padded).

    Buffers are sequences; a slice index out of range, which panics in the
    source, is the error `OutOfRange`. */
module PlaneCopy {
  import opened Common

  /** The plane offsets and pitches of a mapped image (the first two
      entries of a `VAImage`'s `offsets` and `pitches`). */
  datatype ImageLayout = ImageLayout(offset0: nat, pitch0: nat, offset1: nat, pitch1: nat)

  /** A slice bound outside the buffer: a panic in the source. */
  datatype CopyError = OutOfRange

  // ---------------------------------------------------------------------
  // Row positions.

  /** Where row `i` of rows `pitch` apart from `start` begins, one pitch at
      a time; `PosIsProduct` shows it is the source's `start + i * pitch`. */
  function Pos(start: nat, pitch: nat, i: nat): (p: nat)
    ensures p >= start
    decreases i
  {
    if i == 0 then start else Pos(start, pitch, i - 1) + pitch
  }

  lemma {:induction false} PosIsProduct(start: nat, pitch: nat, i: nat)
    ensures Pos(start, pitch, i) == start + i * pitch
    decreases i
  {
    if i > 0 {
      PosIsProduct(start, pitch, i - 1);
      assert (i - 1) * pitch + pitch == i * pitch;
    }
  }

  lemma {:induction false} PosMono(start: nat, pitch: nat, i: nat, j: nat)
    requires i <= j
    ensures Pos(start, pitch, i) <= Pos(start, pitch, j)
    decreases j - i
  {
    if i < j {
      PosMono(start, pitch, i, j - 1);
    }
  }

  /** Rows at least `width` apart do not overlap. */
  lemma {:induction false} PosApart(start: nat, pitch: nat, width: nat, i: nat, j: nat)
    requires i < j && width <= pitch
    ensures Pos(start, pitch, i) + width <= Pos(start, pitch, j)
  {
    PosMono(start, pitch, i + 1, j);
  }

  /** Rows from `start` are rows from 0, moved by `start`. */
  lemma {:induction false} PosShift(start: nat, pitch: nat, i: nat)
    ensures Pos(start, pitch, i) == start + Pos(0, pitch, i)
    decreases i
  {
    if i > 0 {
      PosShift(start, pitch, i - 1);
    }
  }

  /** A wider pitch moves row `i` at least `i` bytes further. */
  lemma {:induction false} PosWider(start: nat, p: nat, q: nat, i: nat)
    requires p < q
    ensures Pos(start, p, i) + i <= Pos(start, q, i)
    decreases i
  {
    if i > 0 {
      PosWider(start, p, q, i - 1);
    }
  }

  lemma {:induction false} MulMono(a: nat, b: nat, p: nat)
    requires a <= b
    ensures a * p <= b * p
    decreases b - a
  {
    if a < b {
      MulMono(a, b - 1, p);
    }
  }

  /** `h / 2` rows of `w` bytes fit in the `w * h / 2` bytes of a chroma
      plane. */
  lemma HalfRows(w: nat, h: nat)
    ensures (h / 2) * w <= w * h / 2
  {
    MulMono(2 * (h / 2), h, w);
    assert 2 * ((h / 2) * w) == (2 * (h / 2)) * w;
  }

  // ---------------------------------------------------------------------
  // Rows of a buffer.

  /** `n` rows of `width` bytes, `pitch` bytes apart from `start`, lie
      inside a buffer of `len` bytes. */
  predicate RowsFit(len: nat, start: nat, pitch: nat, width: nat, n: nat)
  {
    n == 0 || Pos(start, pitch, n - 1) + width <= len
  }

  /** One past the last byte the rows touch. */
  function RowsEnd(start: nat, pitch: nat, width: nat, n: nat): nat
  {
    if n == 0 then start else Pos(start, pitch, n - 1) + width
  }

  lemma {:induction false} RowFits(len: nat, start: nat, pitch: nat, width: nat, n: nat, i: nat)
    requires RowsFit(len, start, pitch, width, n) && i < n
    ensures Pos(start, pitch, i) + width <= RowsEnd(start, pitch, width, n) <= len
    ensures RowsFit(len, start, pitch, width, i)
  {
    PosMono(start, pitch, i, n - 1);
    if i > 0 {
      PosMono(start, pitch, i - 1, n - 1);
    }
  }

  lemma {:induction false} RowsFitPrefix(len: nat, start: nat, pitch: nat, width: nat, n: nat, m: nat)
    requires RowsFit(len, start, pitch, width, n) && m <= n
    ensures RowsFit(len, start, pitch, width, m)
  {
    if m > 0 {
      PosMono(start, pitch, m - 1, n - 1);
    }
  }

  /** Row `i`. */
  function Row(buf: seq<byte>, start: nat, pitch: nat, width: nat, i: nat): (row: seq<byte>)
    requires Pos(start, pitch, i) + width <= |buf|
    ensures |row| == width
  {
    seq(width, k requires 0 <= k < width => buf[Pos(start, pitch, i) + k])
  }

  /** Row `i` is the slice of `width` bytes at its position. */
  lemma RowIsSlice(buf: seq<byte>, start: nat, pitch: nat, width: nat, i: nat)
    requires Pos(start, pitch, i) + width <= |buf|
    ensures Row(buf, start, pitch, width, i) == buf[Pos(start, pitch, i)..Pos(start, pitch, i) + width]
  {
  }

  predicate AllWidth(rs: seq<seq<byte>>, width: nat)
  {
    forall i | 0 <= i < |rs| :: |rs[i]| == width
  }

  /** The first `n` rows, in order. */
  function Rows(buf: seq<byte>, start: nat, pitch: nat, width: nat, n: nat): (rs: seq<seq<byte>>)
    requires RowsFit(|buf|, start, pitch, width, n)
    ensures |rs| == n && AllWidth(rs, width)
  {
    seq(n, i requires 0 <= i < n => RowFits(|buf|, start, pitch, width, n, i); Row(buf, start, pitch, width, i))
  }

  lemma RowsIndex(buf: seq<byte>, start: nat, pitch: nat, width: nat, n: nat, i: nat)
    requires RowsFit(|buf|, start, pitch, width, n) && i < n
    ensures Pos(start, pitch, i) + width <= |buf|
    ensures Rows(buf, start, pitch, width, n)[i] == Row(buf, start, pitch, width, i)
  {
    RowFits(|buf|, start, pitch, width, n, i);
  }

  /** The first `n - 1` of the first `n` rows are the first `n - 1` rows. */
  lemma RowsLast(buf: seq<byte>, start: nat, pitch: nat, width: nat, n: nat)
    requires RowsFit(|buf|, start, pitch, width, n) && n > 0
    ensures RowsFit(|buf|, start, pitch, width, n - 1) && Pos(start, pitch, n - 1) + width <= |buf|
    ensures var rs := Rows(buf, start, pitch, width, n);
            rs[..n - 1] == Rows(buf, start, pitch, width, n - 1) && rs[n - 1] == Row(buf, start, pitch, width, n - 1)
  {
    RowFits(|buf|, start, pitch, width, n, n - 1);
    var rs := Rows(buf, start, pitch, width, n);
    var init := Rows(buf, start, pitch, width, n - 1);
    forall i | 0 <= i < n - 1
      ensures rs[i] == init[i]
    {
      RowFits(|buf|, start, pitch, width, n, i);
    }
  }

  /** Rows are read only from the bytes between `start` and `RowsEnd`:
      buffers that agree there have the same rows. */
  lemma RowsAgree(a: seq<byte>, b: seq<byte>, start: nat, pitch: nat, width: nat, n: nat)
    requires |a| == |b| && RowsFit(|a|, start, pitch, width, n)
    requires forall k | start <= k < RowsEnd(start, pitch, width, n) :: a[k] == b[k]
    ensures Rows(a, start, pitch, width, n) == Rows(b, start, pitch, width, n)
  {
    forall i | 0 <= i < n
      ensures Rows(a, start, pitch, width, n)[i] == Rows(b, start, pitch, width, n)[i]
    {
      RowFits(|a|, start, pitch, width, n, i);
      assert Row(a, start, pitch, width, i) == Row(b, start, pitch, width, i);
    }
  }

  /** Rows `width` apart are the bytes they cover, back to back. */
  lemma {:induction false} PackedRows(buf: seq<byte>, start: nat, width: nat, n: nat)
    requires Pos(start, width, n) <= |buf|
    ensures RowsFit(|buf|, start, width, width, n)
    ensures Flatten(Rows(buf, start, width, width, n)) == buf[start..Pos(start, width, n)]
    decreases n
  {
    if n > 0 {
      var m := Pos(start, width, n - 1);
      PackedRows(buf, start, width, n - 1);
      var rs := Rows(buf, start, width, width, n);
      RowsLast(buf, start, width, width, n);
      assert rs[n - 1] == buf[m..Pos(start, width, n)];
      SliceJoin(buf, start, m, Pos(start, width, n));
    }
  }

  // ---------------------------------------------------------------------
  // Writing rows.

  /** `dst` with `row` copied in at `at` (`copy_from_slice`). */
  function PutRow(dst: seq<byte>, at: nat, row: seq<byte>): (r: seq<byte>)
    requires at + |row| <= |dst|
    ensures |r| == |dst|
  {
    seq(|dst|, k requires 0 <= k < |dst| => if at <= k < at + |row| then row[k - at] else dst[k])
  }

  /** The row lands where it is put. */
  lemma PutRowInside(dst: seq<byte>, at: nat, row: seq<byte>)
    requires at + |row| <= |dst|
    ensures forall k | 0 <= k < |row| :: PutRow(dst, at, row)[at + k] == row[k]
  {
  }

  /** Nothing outside the row changes. */
  lemma PutRowOutside(dst: seq<byte>, at: nat, row: seq<byte>)
    requires at + |row| <= |dst|
    ensures forall k | 0 <= k < |dst| && !(at <= k < at + |row|) :: PutRow(dst, at, row)[k] == dst[k]
  {
  }

  /** The rows `rs`, each `width` bytes, written `pitch` apart from `start`,
      first to last (a later row wins where rows overlap). */
  function WriteRows(dst: seq<byte>, start: nat, pitch: nat, width: nat, rs: seq<seq<byte>>): (r: seq<byte>)
    requires AllWidth(rs, width) && RowsFit(|dst|, start, pitch, width, |rs|)
    ensures |r| == |dst|
    decreases |rs|
  {
    if |rs| == 0 then dst
    else
      var n := |rs|;
      RowFits(|dst|, start, pitch, width, n, n - 1);
      PutRow(WriteRows(dst, start, pitch, width, rs[..n - 1]), Pos(start, pitch, n - 1), rs[n - 1])
  }

  /** Writing rows leaves every byte before `start` and from `RowsEnd` on
      as it was. */
  lemma {:induction false} WriteRowsOutside(dst: seq<byte>, start: nat, pitch: nat, width: nat, rs: seq<seq<byte>>)
    requires AllWidth(rs, width) && RowsFit(|dst|, start, pitch, width, |rs|)
    ensures var r := WriteRows(dst, start, pitch, width, rs);
      forall k | 0 <= k < |dst| && (k < start || k >= RowsEnd(start, pitch, width, |rs|)) :: r[k] == dst[k]
    decreases |rs|
  {
    var n := |rs|;
    if n > 0 {
      RowFits(|dst|, start, pitch, width, n, n - 1);
      WriteRowsOutside(dst, start, pitch, width, rs[..n - 1]);
      if n > 1 {
        PosMono(start, pitch, n - 2, n - 1);
      }
    }
  }

  /** Reading back: when rows do not overlap (`pitch >= width`), the rows
      read where they were written are the rows written. */
  lemma {:induction false} ReadBack(dst: seq<byte>, start: nat, pitch: nat, width: nat, rs: seq<seq<byte>>)
    requires AllWidth(rs, width) && RowsFit(|dst|, start, pitch, width, |rs|)
    requires pitch >= width
    ensures Rows(WriteRows(dst, start, pitch, width, rs), start, pitch, width, |rs|) == rs
    decreases |rs|
  {
    var n := |rs|;
    if n > 0 {
      var init := rs[..n - 1];
      RowFits(|dst|, start, pitch, width, n, n - 1);
      ReadBack(dst, start, pitch, width, init);
      ReadBackLast(WriteRows(dst, start, pitch, width, init), start, pitch, width, n, rs[n - 1]);
      assert rs == init + [rs[n - 1]];
    }
  }

  /** Writing row `n - 1` leaves the rows before it as they were. */
  lemma {:induction false} ReadBackLast(prev: seq<byte>, start: nat, pitch: nat, width: nat, n: nat, row: seq<byte>)
    requires n > 0 && |row| == width && pitch >= width
    requires RowsFit(|prev|, start, pitch, width, n)
    ensures Pos(start, pitch, n - 1) + width <= |prev|
    ensures Rows(PutRow(prev, Pos(start, pitch, n - 1), row), start, pitch, width, n)
            == Rows(prev, start, pitch, width, n - 1) + [row]
  {
    RowFits(|prev|, start, pitch, width, n, n - 1);
    var at := Pos(start, pitch, n - 1);
    var r := PutRow(prev, at, row);
    RowsSnoc(r, start, pitch, width, n);
    PutRowInside(prev, at, row);
    assert Row(r, start, pitch, width, n - 1) == row;
    if n > 1 {
      PosApart(start, pitch, width, n - 2, n - 1);
    }
    PutRowOutside(prev, at, row);
    RowsAgree(r, prev, start, pitch, width, n - 1);
  }

  /** The first `n` rows are the first `n - 1` and then row `n - 1`. */
  lemma RowsSnoc(buf: seq<byte>, start: nat, pitch: nat, width: nat, n: nat)
    requires n > 0 && RowsFit(|buf|, start, pitch, width, n)
    ensures RowsFit(|buf|, start, pitch, width, n - 1)
    ensures Pos(start, pitch, n - 1) + width <= |buf|
    ensures Rows(buf, start, pitch, width, n)
            == Rows(buf, start, pitch, width, n - 1) + [Row(buf, start, pitch, width, n - 1)]
  {
    RowFits(|buf|, start, pitch, width, n, n - 1);
    forall i | 0 <= i < n - 1
      ensures Rows(buf, start, pitch, width, n)[i] == Rows(buf, start, pitch, width, n - 1)[i]
    {
      RowsIndex(buf, start, pitch, width, n, i);
      RowsIndex(buf, start, pitch, width, n - 1, i);
    }
    RowsIndex(buf, start, pitch, width, n, n - 1);
  }

  lemma {:induction false} FlattenSpan(rs: seq<seq<byte>>, start: nat, width: nat)
    requires AllWidth(rs, width)
    ensures start + |Flatten(rs)| == Pos(start, width, |rs|)
    decreases |rs|
  {
    if |rs| > 0 {
      FlattenSpan(rs[..|rs| - 1], start, width);
    }
  }

  /** Rows written `width` apart form one contiguous block. */
  lemma {:induction false} WritePacked(dst: seq<byte>, start: nat, width: nat, rs: seq<seq<byte>>)
    requires AllWidth(rs, width) && Pos(start, width, |rs|) <= |dst|
    ensures RowsFit(|dst|, start, width, width, |rs|)
    ensures WriteRows(dst, start, width, width, rs) == dst[..start] + Flatten(rs) + dst[Pos(start, width, |rs|)..]
    decreases |rs|
  {
    var n := |rs|;
    if n > 0 {
      var init := rs[..n - 1];
      WriteRowsLast(dst, start, width, width, rs);
      WritePacked(dst, start, width, init);
      FlattenSpan(init, start, width);
      PutAfter(dst, start, Flatten(init), rs[n - 1]);
    }
  }

  lemma WriteRowsLast(dst: seq<byte>, start: nat, pitch: nat, width: nat, rs: seq<seq<byte>>)
    requires AllWidth(rs, width) && RowsFit(|dst|, start, pitch, width, |rs|) && |rs| > 0
    ensures RowsFit(|dst|, start, pitch, width, |rs| - 1) && Pos(start, pitch, |rs| - 1) + width <= |dst|
    ensures WriteRows(dst, start, pitch, width, rs)
            == PutRow(WriteRows(dst, start, pitch, width, rs[..|rs| - 1]), Pos(start, pitch, |rs| - 1), rs[|rs| - 1])
  {
    RowFits(|dst|, start, pitch, width, |rs|, |rs| - 1);
  }

  /** Putting a row right after a block extends the block. */
  lemma PutAfter(dst: seq<byte>, start: nat, block: seq<byte>, row: seq<byte>)
    requires start + |block| + |row| <= |dst|
    ensures PutRow(dst[..start] + block + dst[start + |block|..], start + |block|, row)
            == dst[..start] + (block + row) + dst[start + |block| + |row|..]
  {
    var at := start + |block|;
    var prev := dst[..start] + block + dst[at..];
    assert prev[..at] == dst[..start] + block;
    assert prev[at + |row|..] == dst[at + |row|..];
  }

  /** Writing the first `i + 1` rows read from `src` is writing the first
      `i` and then row `i`: the copy proceeds one row at a time. */
  lemma WriteRowsStep(dst: seq<byte>, start: nat, pitch: nat, src: seq<byte>, srcStart: nat, srcPitch: nat, width: nat, i: nat)
    requires RowsFit(|dst|, start, pitch, width, i + 1) && RowsFit(|src|, srcStart, srcPitch, width, i + 1)
    ensures RowsFit(|dst|, start, pitch, width, i) && RowsFit(|src|, srcStart, srcPitch, width, i)
    ensures Pos(start, pitch, i) + width <= |dst| && Pos(srcStart, srcPitch, i) + width <= |src|
    ensures WriteRows(dst, start, pitch, width, Rows(src, srcStart, srcPitch, width, i + 1))
            == PutRow(WriteRows(dst, start, pitch, width, Rows(src, srcStart, srcPitch, width, i)),
                      Pos(start, pitch, i), Row(src, srcStart, srcPitch, width, i))
  {
    RowsLast(src, srcStart, srcPitch, width, i + 1);
    WriteRowsLast(dst, start, pitch, width, Rows(src, srcStart, srcPitch, width, i + 1));
  }

  /** `WriteRowsStep` for the last of `n` rows. */
  lemma WriteRowsLastStep(dst: seq<byte>, start: nat, pitch: nat, src: seq<byte>, srcStart: nat, srcPitch: nat, width: nat, n: nat)
    requires n > 0
    requires RowsFit(|dst|, start, pitch, width, n) && RowsFit(|src|, srcStart, srcPitch, width, n)
    ensures RowsFit(|dst|, start, pitch, width, n - 1) && RowsFit(|src|, srcStart, srcPitch, width, n - 1)
    ensures Pos(start, pitch, n - 1) + width <= |dst| && Pos(srcStart, srcPitch, n - 1) + width <= |src|
    ensures WriteRows(dst, start, pitch, width, Rows(src, srcStart, srcPitch, width, n))
            == PutRow(WriteRows(dst, start, pitch, width, Rows(src, srcStart, srcPitch, width, n - 1)),
                      Pos(start, pitch, n - 1), Row(src, srcStart, srcPitch, width, n - 1))
  {
    RowsLast(src, srcStart, srcPitch, width, n);
    WriteRowsLast(dst, start, pitch, width, Rows(src, srcStart, srcPitch, width, n));
  }

  /** One turn of the copy loop. */
  lemma CopyStep(dst: seq<byte>, start: nat, pitch: nat, src: seq<byte>, srcStart: nat, srcPitch: nat, width: nat, n: nat, row: nat)
    requires RowsFit(|dst|, start, pitch, width, n) && RowsFit(|src|, srcStart, srcPitch, width, n)
    requires row < n
    ensures RowsFit(|dst|, start, pitch, width, row + 1) && RowsFit(|src|, srcStart, srcPitch, width, row + 1)
    ensures Pos(start, pitch, row) + width <= |dst| && Pos(srcStart, srcPitch, row) + width <= |src|
    ensures Pos(start, pitch, row + 1) == Pos(start, pitch, row) + pitch
    ensures Pos(srcStart, srcPitch, row + 1) == Pos(srcStart, srcPitch, row) + srcPitch
    ensures var from := Pos(srcStart, srcPitch, row);
            WriteRows(dst, start, pitch, width, Rows(src, srcStart, srcPitch, width, row + 1))
            == PutRow(WriteRows(dst, start, pitch, width, Rows(src, srcStart, srcPitch, width, row)),
                      Pos(start, pitch, row), src[from..from + width])
  {
    RowsFitPrefix(|dst|, start, pitch, width, n, row + 1);
    RowsFitPrefix(|src|, srcStart, srcPitch, width, n, row + 1);
    WriteRowsStep(dst, start, pitch, src, srcStart, srcPitch, width, row);
    RowIsSlice(src, srcStart, srcPitch, width, row);
  }

  /** One turn of the row copy loop: `width` bytes of `src` from `from`
      copied into `r` at `at`. When `r` holds the first `row` rows, the
      result holds the first `row + 1`. */
  method CopyRow(r: seq<byte>, at: nat, src: seq<byte>, from: nat, width: nat,
                 dst: seq<byte>, start: nat, pitch: nat, srcStart: nat, srcPitch: nat, n: nat, row: nat)
    returns (r': seq<byte>)
    requires RowsFit(|dst|, start, pitch, width, n) && RowsFit(|src|, srcStart, srcPitch, width, n) && row < n
    requires at == Pos(start, pitch, row) && from == Pos(srcStart, srcPitch, row)
    requires RowsFit(|dst|, start, pitch, width, row) && RowsFit(|src|, srcStart, srcPitch, width, row)
    requires r == WriteRows(dst, start, pitch, width, Rows(src, srcStart, srcPitch, width, row))
    ensures RowsFit(|dst|, start, pitch, width, row + 1) && RowsFit(|src|, srcStart, srcPitch, width, row + 1)
    ensures at + pitch == Pos(start, pitch, row + 1) && from + srcPitch == Pos(srcStart, srcPitch, row + 1)
    ensures r' == WriteRows(dst, start, pitch, width, Rows(src, srcStart, srcPitch, width, row + 1))
  {
    CopyStep(dst, start, pitch, src, srcStart, srcPitch, width, n, row);
    r' := PutRow(r, at, src[from..from + width]);
  }

  /** The row copy loop of `upload_nv12_frame` in its imperative form:
      rows of `src` from `srcStart`, `srcPitch` apart, written `pitch` apart
      into `dst` from `start`. The loop keeps row `row`'s positions
      `start + row * pitch` and `srcStart + row * srcPitch` by adding a
      pitch per row. Its contract says it computes `WriteRows`, the
      functional form `Upload` is built from, so the functional model
      describes what the loop does. */
  method CopyRows(dst: seq<byte>, start: nat, pitch: nat, src: seq<byte>, srcStart: nat, srcPitch: nat, width: nat, n: nat)
    returns (r: seq<byte>)
    requires RowsFit(|dst|, start, pitch, width, n) && RowsFit(|src|, srcStart, srcPitch, width, n)
    ensures r == WriteRows(dst, start, pitch, width, Rows(src, srcStart, srcPitch, width, n))
  {
    r := dst;
    var row, at, from := 0, start, srcStart;
    while row < n
      invariant row <= n && at == Pos(start, pitch, row) && from == Pos(srcStart, srcPitch, row)
      invariant RowsFit(|dst|, start, pitch, width, row) && RowsFit(|src|, srcStart, srcPitch, width, row)
      invariant r == WriteRows(dst, start, pitch, width, Rows(src, srcStart, srcPitch, width, row))
    {
      r := CopyRow(r, at, src, from, width, dst, start, pitch, srcStart, srcPitch, n, row);
      row, at, from := row + 1, at + pitch, from + srcPitch;
    }
  }

  // ---------------------------------------------------------------------
  // Uploads.

  /** The sizes of a packed frame's planes: `w * h` luma bytes and
      `w * h / 2` chroma bytes. */
  function LumaSize(w: nat, h: nat): nat
  {
    w * h
  }

  function ChromaSize(w: nat, h: nat): nat
  {
    w * h / 2
  }

  /** The bytes of a packed frame its rows cover: the luma plane and `h / 2`
      chroma rows of `w` bytes. For an odd height the last `w / 2` bytes of
      the chroma plane lie in no row. */
  function Covered(w: nat, h: nat): nat
  {
    LumaSize(w, h) + (h / 2) * w
  }

  /** The frame is long enough for both planes the upload reads. */
  predicate FrameHolds(frame: seq<byte>, w: nat, h: nat)
  {
    LumaSize(w, h) + ChromaSize(w, h) <= |frame|
  }

  /** Where the frame's planes end: the luma rows end at `w * h`, the
      chroma rows at `w * h + (h / 2) * w`, inside the `w * h / 2` bytes of
      the chroma plane. */
  lemma {:induction false} FrameRowsFit(frame: seq<byte>, w: nat, h: nat)
    requires FrameHolds(frame, w, h)
    ensures Pos(0, w, h) == LumaSize(w, h)
    ensures Pos(LumaSize(w, h), w, h / 2) == Covered(w, h) <= LumaSize(w, h) + ChromaSize(w, h)
    ensures RowsFit(|frame|, 0, w, w, h)
    ensures RowsFit(|frame|, LumaSize(w, h), w, w, h / 2)
  {
    HalfRows(w, h);
    PosIsProduct(0, w, h);
    assert Pos(0, w, h) == w * h;
    PosIsProduct(0, w, h / 2);
    PosShift(LumaSize(w, h), w, h / 2);
    assert Pos(LumaSize(w, h), w, h / 2) == w * h + (h / 2) * w;
    if h > 0 {
      PosMono(0, w, h - 1, h);
    }
    if h / 2 > 0 {
      PosMono(LumaSize(w, h), w, h / 2 - 1, h / 2);
    }
  }

  /** The luma rows and the chroma rows of a packed frame. */
  function LumaRows(frame: seq<byte>, w: nat, h: nat): (rs: seq<seq<byte>>)
    requires FrameHolds(frame, w, h)
    ensures |rs| == h && AllWidth(rs, w)
  {
    FrameRowsFit(frame, w, h);
    Rows(frame, 0, w, w, h)
  }

  function ChromaRows(frame: seq<byte>, w: nat, h: nat): (rs: seq<seq<byte>>)
    requires FrameHolds(frame, w, h)
    ensures |rs| == h / 2 && AllWidth(rs, w)
  {
    FrameRowsFit(frame, w, h);
    Rows(frame, LumaSize(w, h), w, w, h / 2)
  }

  /** Both planes' rows fit in the image. */
  predicate ImageHolds(len: nat, layout: ImageLayout, w: nat, h: nat)
  {
    && RowsFit(len, layout.offset0, layout.pitch0, w, h)
    && RowsFit(len, layout.offset1, layout.pitch1, w, h / 2)
  }

  /** The upload the copies evidently intend: every luma row `r` of the
      frame lands at `offset0 + r * pitch0` of the image and every chroma
      row at `offset1 + r * pitch1`; it fails only when the frame is too
      short or a row would leave the image. */
  function Upload(dest: seq<byte>, frame: seq<byte>, w: nat, h: nat, layout: ImageLayout): (r: Result<seq<byte>, CopyError>)
    ensures r.Ok? <==> FrameHolds(frame, w, h) && ImageHolds(|dest|, layout, w, h)
    ensures r.Ok? ==> |r.value| == |dest|
  {
    if !FrameHolds(frame, w, h) || !ImageHolds(|dest|, layout, w, h) then Err(OutOfRange)
    else
      var luma := WriteRows(dest, layout.offset0, layout.pitch0, w, LumaRows(frame, w, h));
      Ok(WriteRows(luma, layout.offset1, layout.pitch1, w, ChromaRows(frame, w, h)))
  }

  /** `upload_nv12_frame` as written: the destination of each plane is
      first cut to `w * h` (luma) or `w * h / 2` (chroma) bytes from the
      plane offset, and the rows are then placed `pitch` apart inside that
      cut. A row that ends past the cut panics even when the image itself
      has room for it. */
  function UploadAsWritten(dest: seq<byte>, frame: seq<byte>, w: nat, h: nat, layout: ImageLayout): (r: Result<seq<byte>, CopyError>)
    ensures r.Ok? <==>
      && FrameHolds(frame, w, h)
      && layout.offset0 + LumaSize(w, h) <= |dest| && RowsFit(LumaSize(w, h), 0, layout.pitch0, w, h)
      && layout.offset1 + ChromaSize(w, h) <= |dest| && RowsFit(ChromaSize(w, h), 0, layout.pitch1, w, h / 2)
    ensures r.Ok? ==> Upload(dest, frame, w, h, layout) == r
  {
    if !FrameHolds(frame, w, h) then Err(OutOfRange)
    else if layout.offset0 + LumaSize(w, h) > |dest| then Err(OutOfRange)
    else if !RowsFit(LumaSize(w, h), 0, layout.pitch0, w, h) then Err(OutOfRange)
    else if layout.offset1 + ChromaSize(w, h) > |dest| then Err(OutOfRange)
    else if !RowsFit(ChromaSize(w, h), 0, layout.pitch1, w, h / 2) then Err(OutOfRange)
    else
      assert ImageHolds(|dest|, layout, w, h) by {
        if h > 0 { PosShift(layout.offset0, layout.pitch0, h - 1); }
        if h / 2 > 0 { PosShift(layout.offset1, layout.pitch1, h / 2 - 1); }
      }
      Upload(dest, frame, w, h, layout)
  }

  /** The defect: with padded luma rows (`pitch0 > w`) and at least two
      rows, the upload as written always panics, whatever room the image
      has. */
  lemma {:induction false} PaddedRowsPanic(dest: seq<byte>, frame: seq<byte>, w: nat, h: nat, layout: ImageLayout)
    requires h >= 2 && layout.pitch0 > w
    ensures UploadAsWritten(dest, frame, w, h, layout).Err?
  {
    if FrameHolds(frame, w, h) && layout.offset0 + LumaSize(w, h) <= |dest| {
      FrameRowsFit(frame, w, h);
      PosWider(0, w, layout.pitch0, h - 1);
      assert Pos(0, layout.pitch0, h - 1) + w > LumaSize(w, h);
    }
  }

  /** A concrete case: a 2x2 frame into a 12-byte image whose rows are 4
      bytes apart (luma at 0, chroma at 8). The image has room for every
      row, yet the upload as written panics; the intended upload succeeds. */
  lemma PaddedRowsExample()
    ensures var dest := seq(12, i => 0 as byte);
            var frame: seq<byte> := [1, 2, 3, 4, 5, 6];
            var layout := ImageLayout(0, 4, 8, 4);
            && UploadAsWritten(dest, frame, 2, 2, layout) == Err(OutOfRange)
            && Upload(dest, frame, 2, 2, layout).Ok?
  {
    var dest := seq(12, i => 0 as byte);
    var frame: seq<byte> := [1, 2, 3, 4, 5, 6];
    var layout := ImageLayout(0, 4, 8, 4);
    PaddedRowsPanic(dest, frame, 2, 2, layout);
    assert Pos(0, 4, 1) == 4 && Pos(8, 4, 0) == 8;
  }

  /** With packed rows (`pitch == w` for both planes) the upload as written
      and the intended one agree whenever the planes fit in the image. */
  lemma {:induction false} PackedAsWritten(dest: seq<byte>, frame: seq<byte>, w: nat, h: nat, layout: ImageLayout)
    requires layout.pitch0 == w && layout.pitch1 == w
    requires layout.offset0 + LumaSize(w, h) <= |dest| && layout.offset1 + ChromaSize(w, h) <= |dest|
    ensures UploadAsWritten(dest, frame, w, h, layout) == Upload(dest, frame, w, h, layout)
  {
    HalfRows(w, h);
    PosIsProduct(0, w, h);
    PosIsProduct(0, w, h / 2);
    PosShift(layout.offset0, w, h);
    PosShift(layout.offset1, w, h / 2);
  }

  /** After the intended upload, with non-overlapping rows and the luma
      rows ending before the chroma plane starts, the image's rows are the
      frame's rows. */
  lemma {:induction false} UploadReadBack(dest: seq<byte>, frame: seq<byte>, w: nat, h: nat, layout: ImageLayout)
    requires Upload(dest, frame, w, h, layout).Ok?
    requires layout.pitch0 >= w && layout.pitch1 >= w
    requires RowsEnd(layout.offset0, layout.pitch0, w, h) <= layout.offset1
    ensures var img := Upload(dest, frame, w, h, layout).value;
      && Rows(img, layout.offset0, layout.pitch0, w, h) == LumaRows(frame, w, h)
      && Rows(img, layout.offset1, layout.pitch1, w, h / 2) == ChromaRows(frame, w, h)
  {
    var luma := WriteRows(dest, layout.offset0, layout.pitch0, w, LumaRows(frame, w, h));
    var img := WriteRows(luma, layout.offset1, layout.pitch1, w, ChromaRows(frame, w, h));
    ReadBack(dest, layout.offset0, layout.pitch0, w, LumaRows(frame, w, h));
    ReadBack(luma, layout.offset1, layout.pitch1, w, ChromaRows(frame, w, h));
    WriteRowsOutside(luma, layout.offset1, layout.pitch1, w, ChromaRows(frame, w, h));
    RowsAgree(img, luma, layout.offset0, layout.pitch0, w, h);
  }

  // ---------------------------------------------------------------------
  // Downloads.

  /** One plane of `download_nv12_frame`: row `i` of the image (at
      `Pos(srcStart, srcPitch, i)`) is copied to `outStart + i * width` only
      when it lies inside the image and inside the plane's `planeLen`
      bytes; otherwise the row is skipped. */
  function DownloadPlane(out: seq<byte>, outStart: nat, planeLen: nat, src: seq<byte>, srcStart: nat, srcPitch: nat, width: nat, n: nat): (r: seq<byte>)
    requires outStart + planeLen <= |out|
    ensures |r| == |out|
    decreases n
  {
    if n == 0 then out
    else
      var prev := DownloadPlane(out, outStart, planeLen, src, srcStart, srcPitch, width, n - 1);
      var from := Pos(srcStart, srcPitch, n - 1);
      var to := Pos(0, width, n - 1);
      if from + width <= |src| && to + width <= planeLen then
        PutRow(prev, outStart + to, Row(src, srcStart, srcPitch, width, n - 1))
      else prev
  }

  /** When every row lies inside the image and the plane, the download
      of a plane is the packed write of the image's rows. */
  lemma {:induction false} DownloadPlaneAllRows(out: seq<byte>, outStart: nat, planeLen: nat, src: seq<byte>, srcStart: nat, srcPitch: nat, width: nat, n: nat)
    requires outStart + planeLen <= |out|
    requires RowsFit(|src|, srcStart, srcPitch, width, n)
    requires Pos(0, width, n) <= planeLen
    ensures RowsFit(|out|, outStart, width, width, n)
    ensures DownloadPlane(out, outStart, planeLen, src, srcStart, srcPitch, width, n)
            == WriteRows(out, outStart, width, width, Rows(src, srcStart, srcPitch, width, n))
    decreases n
  {
    PackedFit(|out|, outStart, planeLen, width, n);
    if n > 0 {
      RowsFitPrefix(|src|, srcStart, srcPitch, width, n, n - 1);
      PosMono(0, width, n - 1, n);
      WriteRowsLastStep(out, outStart, width, src, srcStart, srcPitch, width, n);
      var at := Pos(outStart, width, n - 1);
      var row := Row(src, srcStart, srcPitch, width, n - 1);
      var x := DownloadPlane(out, outStart, planeLen, src, srcStart, srcPitch, width, n - 1);
      var y := WriteRows(out, outStart, width, width, Rows(src, srcStart, srcPitch, width, n - 1));
      calc {
        DownloadPlane(out, outStart, planeLen, src, srcStart, srcPitch, width, n);
        == { DownloadPlaneLast(out, outStart, planeLen, src, srcStart, srcPitch, width, n); }
        PutRow(x, at, row);
        == { DownloadPlaneAllRows(out, outStart, planeLen, src, srcStart, srcPitch, width, n - 1);
             PutRowSame(PutRow(x, at, row), PutRow(y, at, row), x, y, at, row); }
        PutRow(y, at, row);
        WriteRows(out, outStart, width, width, Rows(src, srcStart, srcPitch, width, n));
      }
    }
  }

  /** Two buffers made by writing the same row at the same place into
      equal buffers are equal. */
  lemma PutRowSame(a: seq<byte>, b: seq<byte>, x: seq<byte>, y: seq<byte>, at: nat, row: seq<byte>)
    requires at + |row| <= |x| && x == y
    requires a == PutRow(x, at, row) && b == PutRow(y, at, row)
    ensures a == b
  {
  }

  /** A packed plane of `n` rows that fits in `planeLen` bytes from
      `outStart` fits in the buffer. */
  lemma {:induction false} PackedFit(len: nat, outStart: nat, planeLen: nat, width: nat, n: nat)
    requires outStart + planeLen <= len && Pos(0, width, n) <= planeLen
    ensures RowsFit(len, outStart, width, width, n)
  {
    if n > 0 {
      PosShift(outStart, width, n - 1);
    }
  }

  lemma DownloadPlaneLast(out: seq<byte>, outStart: nat, planeLen: nat, src: seq<byte>, srcStart: nat, srcPitch: nat, width: nat, n: nat)
    requires outStart + planeLen <= |out| && n > 0
    requires Pos(srcStart, srcPitch, n - 1) + width <= |src| && Pos(0, width, n) <= planeLen
    ensures Pos(outStart, width, n - 1) + width <= |out|
    ensures DownloadPlane(out, outStart, planeLen, src, srcStart, srcPitch, width, n)
            == PutRow(DownloadPlane(out, outStart, planeLen, src, srcStart, srcPitch, width, n - 1),
                      Pos(outStart, width, n - 1), Row(src, srcStart, srcPitch, width, n - 1))
  {
    PosShift(outStart, width, n - 1);
  }

  /** Rows from `n` on are never touched: a download of `n` rows leaves
      every byte from `outStart + n * width` on as it was. */
  lemma {:induction false} DownloadPlaneUnchangedAfter(out: seq<byte>, outStart: nat, planeLen: nat, src: seq<byte>, srcStart: nat, srcPitch: nat, width: nat, n: nat)
    requires outStart + planeLen <= |out|
    ensures var r := DownloadPlane(out, outStart, planeLen, src, srcStart, srcPitch, width, n);
      forall k | outStart + Pos(0, width, n) <= k < |out| :: r[k] == out[k]
    decreases n
  {
    if n > 0 {
      var r := DownloadPlane(out, outStart, planeLen, src, srcStart, srcPitch, width, n);
      var prev := DownloadPlane(out, outStart, planeLen, src, srcStart, srcPitch, width, n - 1);
      DownloadPlaneUnchangedAfter(out, outStart, planeLen, src, srcStart, srcPitch, width, n - 1);
      forall k | outStart + Pos(0, width, n) <= k < |out|
        ensures r[k] == out[k]
      {
        assert r[k] == prev[k];
      }
    }
  }

  /** Row `n - 1` changes nothing before it. */
  lemma {:induction false} DownloadPlaneLastRow(out: seq<byte>, outStart: nat, planeLen: nat, src: seq<byte>, srcStart: nat, srcPitch: nat, width: nat, n: nat)
    requires outStart + planeLen <= |out| && n > 0
    ensures var r := DownloadPlane(out, outStart, planeLen, src, srcStart, srcPitch, width, n);
      var prev := DownloadPlane(out, outStart, planeLen, src, srcStart, srcPitch, width, n - 1);
      forall k | 0 <= k < outStart + Pos(0, width, n - 1) && k < |out| :: r[k] == prev[k]
  {
  }

  /** A skipped row keeps what the output held: a row whose source lies
      past the end of the image is left untouched. */
  lemma {:induction false} DownloadSkipsMissingRow(out: seq<byte>, outStart: nat, planeLen: nat, src: seq<byte>, srcStart: nat, srcPitch: nat, width: nat, n: nat, i: nat)
    requires outStart + planeLen <= |out|
    requires i < n && Pos(0, width, n) <= planeLen
    requires Pos(srcStart, srcPitch, i) + width > |src|
    ensures var r := DownloadPlane(out, outStart, planeLen, src, srcStart, srcPitch, width, n);
            var lo := outStart + Pos(0, width, i);
            && lo + width <= |r|
            && forall k | lo <= k < lo + width :: r[k] == out[k]
    decreases n
  {
    PosMono(0, width, i + 1, n);
    if i < n - 1 {
      var r := DownloadPlane(out, outStart, planeLen, src, srcStart, srcPitch, width, n);
      var prev := DownloadPlane(out, outStart, planeLen, src, srcStart, srcPitch, width, n - 1);
      var lo := outStart + Pos(0, width, i);
      PosMono(0, width, i + 1, n - 1);
      assert lo + width <= outStart + Pos(0, width, n - 1);
      DownloadSkipsMissingRow(out, outStart, planeLen, src, srcStart, srcPitch, width, n - 1, i);
      DownloadPlaneLastRow(out, outStart, planeLen, src, srcStart, srcPitch, width, n);
      forall k | lo <= k < lo + width
        ensures r[k] == out[k]
      {
        assert r[k] == prev[k];
      }
    } else {
      DownloadSkipsLastRow(out, outStart, planeLen, src, srcStart, srcPitch, width, n);
    }
  }

  lemma {:induction false} DownloadSkipsLastRow(out: seq<byte>, outStart: nat, planeLen: nat, src: seq<byte>, srcStart: nat, srcPitch: nat, width: nat, n: nat)
    requires outStart + planeLen <= |out| && n > 0
    requires Pos(srcStart, srcPitch, n - 1) + width > |src|
    ensures var r := DownloadPlane(out, outStart, planeLen, src, srcStart, srcPitch, width, n);
      forall k | outStart + Pos(0, width, n - 1) <= k < |out| :: r[k] == out[k]
  {
    DownloadPlaneUnchangedAfter(out, outStart, planeLen, src, srcStart, srcPitch, width, n - 1);
  }

  /** `download_nv12_frame`: the luma plane is the first `w * h` bytes of
      the output, the chroma plane the next `w * h / 2`; cutting either
      from a shorter output panics. */
  function Download(src: seq<byte>, out: seq<byte>, w: nat, h: nat, layout: ImageLayout): (r: Result<seq<byte>, CopyError>)
    ensures r.Ok? <==> LumaSize(w, h) + ChromaSize(w, h) <= |out|
    ensures r.Ok? ==> |r.value| == |out|
  {
    if LumaSize(w, h) + ChromaSize(w, h) > |out| then Err(OutOfRange)
    else
      var luma := DownloadPlane(out, 0, LumaSize(w, h), src, layout.offset0, layout.pitch0, w, h);
      Ok(DownloadPlane(luma, LumaSize(w, h), ChromaSize(w, h), src, layout.offset1, layout.pitch1, w, h / 2))
  }

  /** `n` zero bytes: the `fill(0)` of the output buffer. */
  function Zeros(n: nat): (z: seq<byte>)
    ensures |z| == n && forall i | 0 <= i < n :: z[i] == 0
  {
    seq(n, i => 0)
  }

  /** Round trip: downloading, into a zeroed buffer, an image the frame was
      uploaded to gives the frame back (for an odd height the last
      `w * h / 2 - (h / 2) * w` chroma bytes, which no row covers, stay
      zero). */
  lemma {:induction false} DownloadAfterUpload(dest: seq<byte>, frame: seq<byte>, w: nat, h: nat, layout: ImageLayout)
    requires Upload(dest, frame, w, h, layout).Ok?
    requires layout.pitch0 >= w && layout.pitch1 >= w
    requires RowsEnd(layout.offset0, layout.pitch0, w, h) <= layout.offset1
    ensures var n := LumaSize(w, h) + ChromaSize(w, h);
            && Covered(w, h) <= n && Covered(w, h) <= |frame|
            && Download(Upload(dest, frame, w, h, layout).value, Zeros(n), w, h, layout)
            == Ok(frame[..Covered(w, h)] + Zeros(n - Covered(w, h)))
  {
    assert FrameHolds(frame, w, h);
    FrameRowsFit(frame, w, h);
    var lumaLen, chromaLen := LumaSize(w, h), ChromaSize(w, h);
    var n := lumaLen + chromaLen;
    var covered := Pos(lumaLen, w, h / 2);
    var img := Upload(dest, frame, w, h, layout).value;
    UploadReadBack(dest, frame, w, h, layout);
    assert Rows(img, layout.offset0, layout.pitch0, w, h) == Rows(frame, 0, w, w, h);
    assert Rows(img, layout.offset1, layout.pitch1, w, h / 2) == Rows(frame, lumaLen, w, w, h / 2);
    var luma := DownloadPlane(Zeros(n), 0, lumaLen, img, layout.offset0, layout.pitch0, w, h);
    DownloadLuma(img, frame, w, h, layout.offset0, layout.pitch0, lumaLen, n);
    DownloadChroma(img, frame, w, h / 2, layout.offset1, layout.pitch1, luma, lumaLen, chromaLen);
    var r := DownloadPlane(luma, lumaLen, chromaLen, img, layout.offset1, layout.pitch1, w, h / 2);
    JoinPlanes(frame, luma, r, lumaLen, covered, n);
    assert Download(img, Zeros(n), w, h, layout) == Ok(r);
  }

  lemma JoinPlanes(frame: seq<byte>, luma: seq<byte>, r: seq<byte>, lumaLen: nat, covered: nat, n: nat)
    requires lumaLen <= covered <= n && covered <= |frame|
    requires luma == frame[..lumaLen] + Zeros(n - lumaLen)
    requires r == luma[..lumaLen] + frame[lumaLen..covered] + luma[covered..]
    ensures r == frame[..covered] + Zeros(n - covered)
  {
    assert luma[..lumaLen] == frame[..lumaLen];
    assert luma[covered..] == Zeros(n - covered);
    assert frame[..covered] == frame[..lumaLen] + frame[lumaLen..covered];
  }

  /** The luma half of the round trip: the `rows` packed rows of the plane
      come back into a zeroed output. */
  lemma {:induction false} DownloadLuma(img: seq<byte>, frame: seq<byte>, w: nat, rows: nat, offset: nat, pitch: nat, lumaLen: nat, n: nat)
    requires lumaLen == Pos(0, w, rows) && lumaLen <= n && lumaLen <= |frame|
    requires RowsFit(|img|, offset, pitch, w, rows) && RowsFit(|frame|, 0, w, w, rows)
    requires Rows(img, offset, pitch, w, rows) == Rows(frame, 0, w, w, rows)
    ensures DownloadPlane(Zeros(n), 0, lumaLen, img, offset, pitch, w, rows)
            == frame[..lumaLen] + Zeros(n - lumaLen)
  {
    var z := Zeros(n);
    DownloadPlaneAllRows(z, 0, lumaLen, img, offset, pitch, w, rows);
    WritePacked(z, 0, w, Rows(frame, 0, w, w, rows));
    PackedRows(frame, 0, w, rows);
    assert z[lumaLen..] == Zeros(n - lumaLen);
  }

  /** The chroma half of the round trip: the rows land right after the
      luma plane, and the rest of the output is left as it was. */
  lemma {:induction false} DownloadChroma(img: seq<byte>, frame: seq<byte>, w: nat, rows: nat, offset: nat, pitch: nat, luma: seq<byte>, lumaLen: nat, chromaLen: nat)
    requires Pos(lumaLen, w, rows) <= lumaLen + chromaLen <= |luma| && Pos(lumaLen, w, rows) <= |frame|
    requires RowsFit(|img|, offset, pitch, w, rows) && RowsFit(|frame|, lumaLen, w, w, rows)
    requires Rows(img, offset, pitch, w, rows) == Rows(frame, lumaLen, w, w, rows)
    ensures var covered := Pos(lumaLen, w, rows);
            DownloadPlane(luma, lumaLen, chromaLen, img, offset, pitch, w, rows)
            == luma[..lumaLen] + frame[lumaLen..covered] + luma[covered..]
  {
    PosShift(lumaLen, w, rows);
    DownloadPlaneAllRows(luma, lumaLen, chromaLen, img, offset, pitch, w, rows);
    WritePacked(luma, lumaLen, w, Rows(frame, lumaLen, w, w, rows));
    PackedRows(frame, lumaLen, w, rows);
  }

  /** With an even height the chroma rows cover the whole chroma plane and
      the round trip is exact. */
  lemma {:induction false} DownloadAfterUploadEven(dest: seq<byte>, frame: seq<byte>, w: nat, h: nat, layout: ImageLayout)
    requires Upload(dest, frame, w, h, layout).Ok?
    requires layout.pitch0 >= w && layout.pitch1 >= w
    requires RowsEnd(layout.offset0, layout.pitch0, w, h) <= layout.offset1
    requires h % 2 == 0 && |frame| == LumaSize(w, h) + ChromaSize(w, h)
    ensures Download(Upload(dest, frame, w, h, layout).value, Zeros(|frame|), w, h, layout) == Ok(frame)
  {
    DownloadAfterUpload(dest, frame, w, h, layout);
    EvenHalf(w, h);
    assert frame[..|frame|] + Zeros(0) == frame;
  }

  lemma EvenHalf(w: nat, h: nat)
    requires h % 2 == 0
    ensures Covered(w, h) == LumaSize(w, h) + ChromaSize(w, h)
  {
    assert h == 2 * (h / 2);
    assert w * h == 2 * ((h / 2) * w);
  }
}
