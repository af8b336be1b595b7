/** The test-frame fills of `examples/oneframe.rs`: `fill_test_frame_nm12`
    puts pixel (`col`, `row`) of a generated picture into a luma plane at
    `row * strides[0] + col` and, for even `col` and `row`, its U and V
    values into the interleaved chroma plane at `(row / 2) * strides[1] +
    col` and the byte after; `fill_test_frame_nv12` cuts one image buffer
    into the two planes at the plane offsets.

    The picture itself comes from floating-point arithmetic and is a
    parameter here (`pix`). A write out of a plane's range panics in the
    source; here it is the error `OutOfRange`, decided before any write
    (after a panic nothing written matters). */
module FrameFill {
  import opened Common
  import opened TestPattern
  import PlaneCopy

  /** A pixel's luma and chroma values. */
  datatype Pixel = Pixel(y: byte, u: byte, v: byte)

  datatype FillError = OutOfRange

  datatype Planes = Planes(luma: seq<byte>, chroma: seq<byte>)

  // ---------------------------------------------------------------------
  // Row and column of a byte in a plane with rows `s` bytes apart, by
  // repeated subtraction (the same as `k / s` and `k % s`, see
  // `RowColIsDivision`).

  function RowOf(k: nat, s: nat): nat
    requires s > 0
    decreases k
  {
    if k < s then 0 else RowOf(k - s, s) + 1
  }

  function ColOf(k: nat, s: nat): nat
    requires s > 0
    decreases k
  {
    if k < s then k else ColOf(k - s, s)
  }

  /** Every byte is its row's start plus its column. */
  lemma {:induction false} Decompose(k: nat, s: nat)
    requires s > 0
    ensures k == RowOf(k, s) * s + ColOf(k, s) && ColOf(k, s) < s
    decreases k
  {
    if k >= s {
      Decompose(k - s, s);
    }
  }

  /** Byte `r * s + c` of a row `c < s` is row `r`, column `c`. */
  lemma {:induction false} Compose(r: nat, c: nat, s: nat)
    requires c < s
    ensures RowOf(r * s + c, s) == r && ColOf(r * s + c, s) == c
  {
    if r > 0 {
      assert r * s + c - s == (r - 1) * s + c;
      Compose(r - 1, c, s);
    }
  }

  /** The row and column are Euclidean division by the row distance. */
  lemma RowColIsDivision(k: nat, s: nat)
    requires s > 0
    ensures RowOf(k, s) == k / s && ColOf(k, s) == k % s
  {
    Decompose(k, s);
    RowColumn(RowOf(k, s), ColOf(k, s), s);
  }

  /** Every write of the fill lands in its plane: the last luma byte,
      `(h - 1) * s0 + w - 1`, and the V byte of the last even row and
      column, `((h - 1) / 2) * s1 + 2 * ((w - 1) / 2) + 1`. */
  predicate FillFits(w: nat, h: nat, s0: nat, s1: nat, lumaLen: nat, chromaLen: nat)
  {
    w == 0 || h == 0 ||
    ((h - 1) * s0 + w <= lumaLen && ((h - 1) / 2) * s1 + 2 * ((w - 1) / 2) + 2 <= chromaLen)
  }

  /** The bytes of a chroma row the fill writes: a U,V pair per even
      column, so `w` rounded up to even. */
  function ChromaWidth(w: nat): nat
  {
    w + w % 2
  }

  /** What byte `k` of the luma plane holds after the fill, when rows do
      not overlap: the luma of the pixel at row `RowOf(k, s0)`, column `ColOf(k, s0)`
      if that is a pixel of the picture, else what it held before. */
  function LumaExpected(plane: seq<byte>, k: nat, w: nat, h: nat, s0: nat, pix: (nat, nat) -> Pixel): byte
    requires k < |plane|
  {
    if s0 > 0 && RowOf(k, s0) < h && ColOf(k, s0) < w then pix(ColOf(k, s0), RowOf(k, s0)).y else plane[k]
  }

  /** What byte `k` of the chroma plane holds after the fill, when rows do
      not overlap: in chroma row `RowOf(k, s1)`, the U value (even byte) or V
      value (odd byte) of the pixel at the even column at or before
      `ColOf(k, s1)` on picture row `2 * RowOf(k, s1)`; else what it held before. */
  function ChromaExpected(plane: seq<byte>, k: nat, w: nat, h: nat, s1: nat, pix: (nat, nat) -> Pixel): byte
    requires k < |plane|
  {
    if s1 > 0 && 2 * RowOf(k, s1) < h && ColOf(k, s1) < ChromaWidth(w) then
      if ColOf(k, s1) % 2 == 0 then pix(ColOf(k, s1), 2 * RowOf(k, s1)).u else pix(ColOf(k, s1) - 1, 2 * RowOf(k, s1)).v
    else plane[k]
  }

  /** `fill_test_frame_nm12`: it succeeds exactly when every write lands
      in its plane. Then, with rows at least a row apart (`s0 >= w` for
      luma; `s1` at least `w` rounded up to even for chroma), every plane
      byte holds what `LumaExpected` and `ChromaExpected` say, so the
      picture's bytes are in place and every other byte is unchanged. */
  method FillNm12(w: nat, h: nat, s0: nat, s1: nat, pix: (nat, nat) -> Pixel, yPlane: seq<byte>, uvPlane: seq<byte>)
    returns (r: Result<Planes, FillError>)
    ensures r.Ok? <==> FillFits(w, h, s0, s1, |yPlane|, |uvPlane|)
    ensures r.Ok? ==> |r.value.luma| == |yPlane| && |r.value.chroma| == |uvPlane|
    ensures r.Ok? && s0 >= w ==>
      forall k | 0 <= k < |yPlane| :: r.value.luma[k] == LumaExpected(yPlane, k, w, h, s0, pix)
    ensures r.Ok? && s1 >= ChromaWidth(w) ==>
      forall k | 0 <= k < |uvPlane| :: r.value.chroma[k] == ChromaExpected(uvPlane, k, w, h, s1, pix)
  {
    if !FillFits(w, h, s0, s1, |yPlane|, |uvPlane|) {
      return Err(OutOfRange);
    }
    var luma := FillLuma(w, h, s0, pix, yPlane, |uvPlane|, s1);
    var chroma := FillChroma(w, h, s1, pix, uvPlane, |yPlane|, s0);
    r := Ok(Planes(luma, chroma));
  }

  /** The luma writes of the fill, row by row. */
  method FillLuma(w: nat, h: nat, s0: nat, pix: (nat, nat) -> Pixel, yPlane: seq<byte>, chromaLen: nat, s1: nat)
    returns (y: seq<byte>)
    requires FillFits(w, h, s0, s1, |yPlane|, chromaLen)
    ensures |y| == |yPlane|
    ensures s0 >= w ==> forall k | 0 <= k < |yPlane| :: y[k] == LumaExpected(yPlane, k, w, h, s0, pix)
  {
    y := yPlane;
    var row := 0;
    while row < h
      invariant row <= h && |y| == |yPlane|
      invariant s0 >= w ==> LumaState(y, yPlane, w, s0, pix, row, 0)
    {
      var col := 0;
      while col < w
        invariant col <= w && |y| == |yPlane|
        invariant s0 >= w ==> LumaState(y, yPlane, w, s0, pix, row, col)
      {
        LumaInside(w, h, s0, row, col, |yPlane|, chromaLen, s1);
        var yPos := row * s0 + col;
        if s0 >= w {
          LumaStep(y, yPlane, w, s0, pix, row, col);
        }
        y := y[yPos := pix(col, row).y];
        col := col + 1;
      }
      if s0 >= w {
        LumaRowDone(y, yPlane, w, s0, pix, row);
      }
      row := row + 1;
    }
    if s0 >= w {
      LumaFinished(y, yPlane, w, h, s0, pix);
    }
  }

  /** Luma byte `k` is written once rows `0..row` and the first `col`
      pixels of row `row` are done (rows `s0 >= w` apart). */
  predicate LumaDone(k: nat, w: nat, s0: nat, row: nat, col: nat)
  {
    s0 > 0 && ((RowOf(k, s0) < row && ColOf(k, s0) < w) || (RowOf(k, s0) == row && ColOf(k, s0) < col))
  }

  /** The luma plane part way through the fill: the bytes written hold
      their pixel's luma, the others what they held before. */
  ghost predicate LumaState(y: seq<byte>, y0: seq<byte>, w: nat, s0: nat, pix: (nat, nat) -> Pixel, row: nat, col: nat)
  {
    |y| == |y0| &&
    forall k | 0 <= k < |y| :: y[k] == if LumaDone(k, w, s0, row, col) then pix(ColOf(k, s0), RowOf(k, s0)).y else y0[k]
  }

  /** One luma write, at `row * s0 + col`, moves the fill one pixel on. */
  lemma LumaStep(y: seq<byte>, y0: seq<byte>, w: nat, s0: nat, pix: (nat, nat) -> Pixel, row: nat, col: nat)
    requires s0 >= w && col < w && row * s0 + col < |y|
    requires LumaState(y, y0, w, s0, pix, row, col)
    ensures LumaState(y[row * s0 + col := pix(col, row).y], y0, w, s0, pix, row, col + 1)
  {
    var p := row * s0 + col;
    Compose(row, col, s0);
    var y' := y[p := pix(col, row).y];
    forall k | 0 <= k < |y'|
      ensures y'[k] == if LumaDone(k, w, s0, row, col + 1) then pix(ColOf(k, s0), RowOf(k, s0)).y else y0[k]
    {
      Decompose(k, s0);
    }
  }

  /** A finished row is the start of the next. */
  lemma LumaRowDone(y: seq<byte>, y0: seq<byte>, w: nat, s0: nat, pix: (nat, nat) -> Pixel, row: nat)
    requires LumaState(y, y0, w, s0, pix, row, w)
    ensures LumaState(y, y0, w, s0, pix, row + 1, 0)
  {
  }

  /** After the last row, the plane is what `LumaExpected` says. */
  lemma LumaFinished(y: seq<byte>, y0: seq<byte>, w: nat, h: nat, s0: nat, pix: (nat, nat) -> Pixel)
    requires LumaState(y, y0, w, s0, pix, h, 0)
    ensures forall k | 0 <= k < |y0| :: y[k] == LumaExpected(y0, k, w, h, s0, pix)
  {
  }

  lemma LumaInside(w: nat, h: nat, s0: nat, row: nat, col: nat, lumaLen: nat, chromaLen: nat, s1: nat)
    requires FillFits(w, h, s0, s1, lumaLen, chromaLen) && row < h && col < w
    ensures row * s0 + col < lumaLen
  {
    PlaneCopy.MulMono(row, h - 1, s0);
  }

  /** The chroma writes of the fill: even rows, even columns. */
  method FillChroma(w: nat, h: nat, s1: nat, pix: (nat, nat) -> Pixel, uvPlane: seq<byte>, lumaLen: nat, s0: nat)
    returns (uv: seq<byte>)
    requires FillFits(w, h, s0, s1, lumaLen, |uvPlane|)
    ensures |uv| == |uvPlane|
    ensures s1 >= ChromaWidth(w) ==> forall k | 0 <= k < |uvPlane| :: uv[k] == ChromaExpected(uvPlane, k, w, h, s1, pix)
  {
    uv := uvPlane;
    if s1 >= ChromaWidth(w) {
      ChromaStart(uvPlane, w, s1, pix);
    }
    var row := 0;
    while row < h
      invariant row <= h && |uv| == |uvPlane|
      invariant s1 >= ChromaWidth(w) ==> ChromaState(uv, uvPlane, w, s1, pix, row, 0)
    {
      var col := 0;
      while col < w
        invariant col <= w && |uv| == |uvPlane|
        invariant s1 >= ChromaWidth(w) ==> ChromaState(uv, uvPlane, w, s1, pix, row, col)
      {
        if col % 2 == 0 && row % 2 == 0 {
          ChromaInside(w, h, s1, row, col, lumaLen, |uvPlane|, s0);
          var uPos := (row / 2) * s1 + col;
          var vPos := uPos + 1;
          if s1 >= ChromaWidth(w) {
            ChromaStep(uv, uvPlane, w, s1, pix, row, col);
          }
          uv := uv[uPos := pix(col, row).u];
          uv := uv[vPos := pix(col, row).v];
        } else if s1 >= ChromaWidth(w) {
          ChromaSkip(uv, uvPlane, w, s1, pix, row, col);
        }
        col := col + 1;
      }
      if s1 >= ChromaWidth(w) {
        ChromaRowDone(uv, uvPlane, w, s1, pix, row);
      }
      row := row + 1;
    }
    if s1 >= ChromaWidth(w) {
      ChromaFinished(uv, uvPlane, w, h, s1, pix);
    }
  }

  /** The value the fill gives chroma byte `k`: U of the pixel at an even
      byte, V of the pixel before at an odd one. */
  function ChromaValue(k: nat, s1: nat, pix: (nat, nat) -> Pixel): byte
    requires s1 > 0
  {
    if ColOf(k, s1) % 2 == 0 then pix(ColOf(k, s1), 2 * RowOf(k, s1)).u else pix(ColOf(k, s1) - 1, 2 * RowOf(k, s1)).v
  }

  /** Chroma byte `k` is written once picture rows `0..row` and the first
      `col` pixels of row `row` are done. */
  predicate ChromaDone(k: nat, w: nat, s1: nat, row: nat, col: nat)
  {
    s1 > 0 && (
      (2 * RowOf(k, s1) < row && ColOf(k, s1) < ChromaWidth(w))
      || (2 * RowOf(k, s1) == row && ColOf(k, s1) < 2 * ((col + 1) / 2)))
  }

  /** The chroma plane part way through the fill. */
  ghost predicate ChromaState(uv: seq<byte>, uv0: seq<byte>, w: nat, s1: nat, pix: (nat, nat) -> Pixel, row: nat, col: nat)
  {
    |uv| == |uv0| &&
    forall k | 0 <= k < |uv| :: uv[k] == if ChromaDone(k, w, s1, row, col) then ChromaValue(k, s1, pix) else uv0[k]
  }

  /** Before the fill nothing is written. */
  lemma ChromaStart(uv0: seq<byte>, w: nat, s1: nat, pix: (nat, nat) -> Pixel)
    ensures ChromaState(uv0, uv0, w, s1, pix, 0, 0)
  {
  }

  /** On an even row and an even column the U,V pair of the pixel is
      written, at `(row / 2) * s1 + col` and the byte after. */
  lemma ChromaStep(uv: seq<byte>, uv0: seq<byte>, w: nat, s1: nat, pix: (nat, nat) -> Pixel, row: nat, col: nat)
    requires s1 >= ChromaWidth(w) && col < w && col % 2 == 0 && row % 2 == 0
    requires (row / 2) * s1 + col + 1 < |uv|
    requires ChromaState(uv, uv0, w, s1, pix, row, col)
    ensures ChromaState(uv[(row / 2) * s1 + col := pix(col, row).u][(row / 2) * s1 + col + 1 := pix(col, row).v],
                        uv0, w, s1, pix, row, col + 1)
  {
    var p := (row / 2) * s1 + col;
    Compose(row / 2, col, s1);
    Compose(row / 2, col + 1, s1);
    var uv' := uv[p := pix(col, row).u][p + 1 := pix(col, row).v];
    forall k | 0 <= k < |uv'|
      ensures uv'[k] == if ChromaDone(k, w, s1, row, col + 1) then ChromaValue(k, s1, pix) else uv0[k]
    {
      Decompose(k, s1);
    }
  }

  /** On an odd row or an odd column nothing is written and nothing more is
      done. */
  lemma ChromaSkip(uv: seq<byte>, uv0: seq<byte>, w: nat, s1: nat, pix: (nat, nat) -> Pixel, row: nat, col: nat)
    requires !(col % 2 == 0 && row % 2 == 0)
    requires ChromaState(uv, uv0, w, s1, pix, row, col)
    ensures ChromaState(uv, uv0, w, s1, pix, row, col + 1)
  {
    forall k | 0 <= k < |uv|
      ensures ChromaDone(k, w, s1, row, col + 1) == ChromaDone(k, w, s1, row, col)
    {
    }
  }

  /** A finished row is the start of the next. */
  lemma ChromaRowDone(uv: seq<byte>, uv0: seq<byte>, w: nat, s1: nat, pix: (nat, nat) -> Pixel, row: nat)
    requires ChromaState(uv, uv0, w, s1, pix, row, w)
    ensures ChromaState(uv, uv0, w, s1, pix, row + 1, 0)
  {
    assert 2 * ((w + 1) / 2) == ChromaWidth(w);
  }

  /** After the last row, the plane is what `ChromaExpected` says. */
  lemma ChromaFinished(uv: seq<byte>, uv0: seq<byte>, w: nat, h: nat, s1: nat, pix: (nat, nat) -> Pixel)
    requires ChromaState(uv, uv0, w, s1, pix, h, 0)
    ensures forall k | 0 <= k < |uv0| :: uv[k] == ChromaExpected(uv0, k, w, h, s1, pix)
  {
  }

  lemma ChromaInside(w: nat, h: nat, s1: nat, row: nat, col: nat, lumaLen: nat, chromaLen: nat, s0: nat)
    requires FillFits(w, h, s0, s1, lumaLen, chromaLen) && row < h && col < w && col % 2 == 0
    ensures (row / 2) * s1 + col + 1 < chromaLen
  {
    PlaneCopy.MulMono(row / 2, (h - 1) / 2, s1);
  }

  /** `fill_test_frame_nv12`: the image buffer is cut at `offsets[1]` (the
      chroma plane is the rest of the buffer) and the luma plane runs from
      `offsets[0]` to that cut; the bytes before `offsets[0]` are never
      written. */
  method FillNv12(w: nat, h: nat, s0: nat, s1: nat, off0: nat, off1: nat, pix: (nat, nat) -> Pixel, raw: seq<byte>)
    returns (r: Result<seq<byte>, FillError>)
    ensures r.Ok? <==> off0 <= off1 <= |raw| && FillFits(w, h, s0, s1, off1 - off0, |raw| - off1)
    ensures r.Ok? ==> |r.value| == |raw|
    ensures r.Ok? ==> forall k | 0 <= k < off0 :: r.value[k] == raw[k]
    ensures r.Ok? && s0 >= w ==> forall k | off0 <= k < off1 ::
      r.value[k] == LumaExpected(raw[off0..off1], k - off0, w, h, s0, pix)
    ensures r.Ok? && s1 >= ChromaWidth(w) ==> forall k | off1 <= k < |raw| ::
      r.value[k] == ChromaExpected(raw[off1..], k - off1, w, h, s1, pix)
  {
    if off1 > |raw| || off0 > off1 {
      return Err(OutOfRange);
    }
    var yPlane := raw[off0..off1];
    var uvPlane := raw[off1..];
    var planes := FillNm12(w, h, s0, s1, pix, yPlane, uvPlane);
    if planes.Err? {
      return Err(OutOfRange);
    }
    var out := raw[..off0] + planes.value.luma + planes.value.chroma;
    assert forall k | off0 <= k < off1 :: out[k] == planes.value.luma[k - off0];
    assert forall k | off1 <= k < |raw| :: out[k] == planes.value.chroma[k - off1];
    r := Ok(out);
  }

  /** Read by row and column: with rows apart, pixel (`col`, `row`)'s luma
      is at `row * s0 + col` of the filled luma plane. */
  lemma LumaPlace(w: nat, h: nat, s0: nat, s1: nat, chromaLen: nat, pix: (nat, nat) -> Pixel,
                  yPlane: seq<byte>, luma: seq<byte>, col: nat, row: nat)
    requires FillFits(w, h, s0, s1, |yPlane|, chromaLen) && s0 >= w
    requires |luma| == |yPlane|
    requires forall k | 0 <= k < |yPlane| :: luma[k] == LumaExpected(yPlane, k, w, h, s0, pix)
    requires col < w && row < h
    ensures row * s0 + col < |luma| && luma[row * s0 + col] == pix(col, row).y
  {
    LumaInside(w, h, s0, row, col, |yPlane|, chromaLen, s1);
    Compose(row, col, s0);
    assert luma[row * s0 + col] == LumaExpected(yPlane, row * s0 + col, w, h, s0, pix);
  }

  /** Read by row and column: with rows apart, the U and V values of pixel
      (`col`, `row`), for even `col` and `row`, are at `(row / 2) * s1 +
      col` and the byte after in the filled chroma plane. */
  lemma ChromaPlace(w: nat, h: nat, s0: nat, s1: nat, lumaLen: nat, pix: (nat, nat) -> Pixel,
                    uvPlane: seq<byte>, chroma: seq<byte>, col: nat, row: nat)
    requires FillFits(w, h, s0, s1, lumaLen, |uvPlane|) && s1 >= ChromaWidth(w)
    requires |chroma| == |uvPlane|
    requires forall k | 0 <= k < |uvPlane| :: chroma[k] == ChromaExpected(uvPlane, k, w, h, s1, pix)
    requires col < w && row < h && col % 2 == 0 && row % 2 == 0
    ensures var p := (row / 2) * s1 + col;
      p + 1 < |chroma| && chroma[p] == pix(col, row).u && chroma[p + 1] == pix(col, row).v
  {
    var p := (row / 2) * s1 + col;
    ChromaInside(w, h, s1, row, col, lumaLen, |uvPlane|, s0);
    Compose(row / 2, col, s1);
    Compose(row / 2, col + 1, s1);
    assert chroma[p] == ChromaExpected(uvPlane, p, w, h, s1, pix);
    assert chroma[p + 1] == ChromaExpected(uvPlane, p + 1, w, h, s1, pix);
  }
}
