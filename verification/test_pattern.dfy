/** The test picture and picture geometry of `examples/oneframe.c`: a
    checkerboard of 32x32 blocks in the luma plane with neutral chroma, the
    picture size in 16x16 macroblocks (`pic_width_in_mbs_minus1 + 1` and
    `pic_height_in_map_units_minus1 + 1` of section 7.4.2.1.1 of ITU-T
    H.264) and the size of the coded-data buffer.

    The planes are sequences; the C function writes through raw pointers,
    so its callers must supply planes long enough for every write, which is
    what the preconditions of `GenerateTestFrame` say. */
module TestPattern {
  import opened Common
  import PlaneCopy

  /** The picture the example encodes. */
  const WIDTH: nat := 1920
  const HEIGHT: nat := 1080

  /** Studio-swing black and white, and neutral chroma. */
  const BLACK: byte := 16
  const WHITE: byte := 235
  const NEUTRAL: byte := 128

  // ---------------------------------------------------------------------
  // The checkerboard.

  /** The luma of pixel (row `i`, column `j`): white on the blocks whose
      block row and block column add up to an odd number, black on the
      others. */
  function LumaAt(i: nat, j: nat): (v: byte)
    ensures v == BLACK || v == WHITE
  {
    if ((i / 32) + (j / 32)) % 2 == 1 then WHITE else BLACK
  }

  /** The luma of byte `k` of a plane `w` bytes wide: that of its row
      `k / w` and column `k % w`. */
  function LumaOfIndex(k: nat, w: nat): (v: byte)
  {
    if w == 0 then BLACK else LumaAt(k / w, k % w)
  }

  /** Every 32x32 block is one colour. */
  lemma BlockIsUniform(a: nat, b: nat, x: nat, y: nat)
    requires x < 32 && y < 32
    ensures LumaAt(32 * a + x, 32 * b + y) == LumaAt(32 * a, 32 * b)
  {
    assert (32 * a + x) / 32 == a && (32 * b + y) / 32 == b;
    assert (32 * a) / 32 == a && (32 * b) / 32 == b;
  }

  /** Stepping one block down or one block right changes the colour. */
  lemma NeighbouringBlocksDiffer(i: nat, j: nat)
    ensures LumaAt(i + 32, j) != LumaAt(i, j)
    ensures LumaAt(i, j + 32) != LumaAt(i, j)
  {
    assert (i + 32) / 32 == i / 32 + 1;
    assert (j + 32) / 32 == j / 32 + 1;
  }

  /** The top-left block is black. */
  lemma TopLeftIsBlack(i: nat, j: nat)
    requires i < 32 && j < 32
    ensures LumaAt(i, j) == BLACK
  {
  }

  // ---------------------------------------------------------------------
  // Index arithmetic of a plane `w` bytes wide.

  /** Byte `i * w + j` of a plane of width `w` is row `i`, column `j`. */
  lemma RowColumn(i: nat, j: nat, w: nat)
    requires j < w
    ensures (i * w + j) / w == i && (i * w + j) % w == j
  {
    var p := i * w + j;
    var q := p / w;
    var r := p % w;
    assert p == q * w + r;
    if q < i {
      PlaneCopy.MulMono(q + 1, i, w);
      assert false;
    } else if q > i {
      PlaneCopy.MulMono(i + 1, q, w);
      assert false;
    }
  }

  /** Row `i` ends where row `i + 1` starts, inside `h` rows. */
  lemma NextRow(i: nat, w: nat, h: nat)
    requires i < h
    ensures i * w + w == (i + 1) * w <= h * w
  {
    PlaneCopy.MulMono(i + 1, h, w);
  }

  /** Within row `i`, the column is the distance from the row's start. */
  lemma ColumnsOfRow(i: nat, w: nat)
    requires w > 0
    ensures forall k | i * w <= k < i * w + w :: k % w == k - i * w
  {
    forall k | i * w <= k < i * w + w
      ensures k % w == k - i * w
    {
      RowColumn(i, k - i * w, w);
    }
  }

  // ---------------------------------------------------------------------
  // generate_test_frame.

  /** The chroma bytes the fill sets: in each of the first `h / 2` rows of
      `w` bytes, the `w / 2` interleaved U,V pairs. An odd width leaves the
      last byte of each row alone. */
  predicate ChromaWritten(k: nat, w: nat, h: nat)
  {
    w > 0 && k < (h / 2) * w && k % w < 2 * (w / 2)
  }

  /** One past the last chroma byte the fill writes. */
  function ChromaEnd(w: nat, h: nat): nat
  {
    if h / 2 == 0 || w / 2 == 0 then 0 else (h / 2 - 1) * w + 2 * (w / 2)
  }

  /** The chroma writes stay inside the first `h / 2` rows. */
  lemma ChromaEndInside(w: nat, h: nat)
    ensures ChromaEnd(w, h) <= (h / 2) * w
    ensures forall k: nat | ChromaWritten(k, w, h) :: k < ChromaEnd(w, h)
  {
    if h / 2 > 0 && w / 2 > 0 {
      forall k: nat | ChromaWritten(k, w, h)
        ensures k < ChromaEnd(w, h)
      {
        var i := k / w;
        assert k == i * w + k % w;
        if i > h / 2 - 1 {
          PlaneCopy.MulMono(h / 2, i, w);
          assert false;
        }
        PlaneCopy.MulMono(i, h / 2 - 1, w);
      }
    }
  }

  /** `generate_test_frame`: every byte of the first `w * h` of the luma
      plane gets the checkerboard colour of its row and column, and no
      other luma byte changes; the U,V pairs of the first `h / 2` chroma
      rows become neutral, and no other chroma byte changes. */
  method GenerateTestFrame(yPlane: seq<byte>, uvPlane: seq<byte>, width: nat, height: nat)
    returns (y: seq<byte>, uv: seq<byte>)
    requires width * height <= |yPlane|
    requires ChromaEnd(width, height) <= |uvPlane|
    ensures |y| == |yPlane| && |uv| == |uvPlane|
    ensures forall k | 0 <= k < width * height :: y[k] == LumaOfIndex(k, width)
    ensures forall k | width * height <= k < |y| :: y[k] == yPlane[k]
    ensures forall k | 0 <= k < |uv| :: uv[k] == if ChromaWritten(k, width, height) then NEUTRAL else uvPlane[k]
  {
    y := FillLuma(yPlane, width, height);
    uv := FillChroma(uvPlane, width, height);
  }

  /** Read by row and column, the luma plane is the checkerboard: pixel
      (`i`, `j`) sits at `i * width + j`. */
  lemma LumaGrid(y: seq<byte>, width: nat, height: nat, i: nat, j: nat)
    requires width * height <= |y|
    requires forall k | 0 <= k < width * height :: y[k] == LumaOfIndex(k, width)
    requires i < height && j < width
    ensures i * width + j < width * height && y[i * width + j] == LumaAt(i, j)
  {
    var k := i * width + j;
    NextRow(i, width, height);
    assert height * width == width * height;
    RowColumn(i, j, width);
    assert y[k] == LumaOfIndex(k, width);
  }

  /** The luma loops of `generate_test_frame`. */
  method FillLuma(yPlane: seq<byte>, width: nat, height: nat) returns (y: seq<byte>)
    requires width * height <= |yPlane|
    ensures |y| == |yPlane|
    ensures forall k | 0 <= k < width * height :: y[k] == LumaOfIndex(k, width)
    ensures forall k | width * height <= k < |y| :: y[k] == yPlane[k]
  {
    y := yPlane;
    var i := 0;
    while i < height
      invariant i <= height && |y| == |yPlane|
      invariant forall k | 0 <= k < i * width :: y[k] == LumaOfIndex(k, width)
      invariant forall k | i * width <= k < |y| :: y[k] == yPlane[k]
    {
      NextRow(i, width, height);
      var j := 0;
      while j < width
        invariant j <= width && |y| == |yPlane|
        invariant forall k | 0 <= k < i * width + j :: y[k] == LumaOfIndex(k, width)
        invariant forall k | i * width + j <= k < |y| :: y[k] == yPlane[k]
      {
        RowColumn(i, j, width);
        y := y[i * width + j := LumaAt(i, j)];
        j := j + 1;
      }
      i := i + 1;
    }
    assert height * width == width * height;
  }

  /** Which chroma bytes the loops have set once rows `0..i` and the first
      `j` pairs of row `i` are done. */
  predicate ChromaDone(k: nat, w: nat, i: nat, j: nat)
  {
    w > 0 && ((k < i * w && k % w < 2 * (w / 2)) || (i * w <= k < i * w + 2 * j))
  }

  /** The chroma loops of `generate_test_frame`. */
  method FillChroma(uvPlane: seq<byte>, width: nat, height: nat) returns (uv: seq<byte>)
    requires ChromaEnd(width, height) <= |uvPlane|
    ensures |uv| == |uvPlane|
    ensures forall k | 0 <= k < |uv| :: uv[k] == if ChromaWritten(k, width, height) then NEUTRAL else uvPlane[k]
  {
    uv := uvPlane;
    var rows := height / 2;
    var pairs := width / 2;
    var i := 0;
    while i < rows
      invariant i <= rows && |uv| == |uvPlane|
      invariant forall k | 0 <= k < |uv| :: uv[k] == if ChromaDone(k, width, i, 0) then NEUTRAL else uvPlane[k]
    {
      if pairs > 0 {
        PlaneCopy.MulMono(i, rows - 1, width);
      }
      var j := 0;
      while j < pairs
        invariant j <= pairs && |uv| == |uvPlane|
        invariant forall k | 0 <= k < |uv| :: uv[k] == if ChromaDone(k, width, i, j) then NEUTRAL else uvPlane[k]
      {
        uv := uv[i * width + j * 2 := NEUTRAL];
        uv := uv[i * width + j * 2 + 1 := NEUTRAL];
        j := j + 1;
      }
      RowDone(width, i);
      i := i + 1;
    }
    assert forall k :: ChromaDone(k, width, rows, 0) == ChromaWritten(k, width, height);
  }

  /** A finished row of pairs: the bytes set are those of the rows before
      the next one. */
  lemma RowDone(w: nat, i: nat)
    ensures forall k :: ChromaDone(k, w, i, w / 2) == ChromaDone(k, w, i + 1, 0)
  {
    if w > 0 {
      ColumnsOfRow(i, w);
      assert (i + 1) * w == i * w + w;
    }
  }

  // ---------------------------------------------------------------------
  // Macroblocks and the coded-data buffer.

  /** The number of 16-pixel macroblocks covering `dim` pixels,
      `(dim + 15) / 16`: the least count whose blocks reach `dim`. */
  function MbCount(dim: nat): (mbs: nat)
    ensures dim <= mbs * 16 < dim + 16
  {
    (dim + 15) / 16
  }

  /** `num_macroblocks`: the macroblocks of the whole picture. */
  function NumMacroblocks(w: nat, h: nat): (n: nat)
  {
    MbCount(w) * MbCount(h)
  }

  /** The macroblocks cover the picture: their 256 pixels each add up to
      at least `w * h`. */
  lemma MacroblocksCoverPicture(w: nat, h: nat)
    ensures NumMacroblocks(w, h) * 256 >= w * h
  {
    var a := MbCount(w);
    var b := MbCount(h);
    PlaneCopy.MulMono(w, 16 * a, 16 * b);
    PlaneCopy.MulMono(h, 16 * b, w);
    assert a * b * 256 == (16 * a) * (16 * b);
  }

  /** The coded-data buffer holds one packed NV12 picture: `w * h * 3 / 2`
      is the luma plane plus the chroma plane. */
  function CodedBufferSize(w: nat, h: nat): (n: nat)
    ensures n == PlaneCopy.LumaSize(w, h) + PlaneCopy.ChromaSize(w, h)
  {
    w * h * 3 / 2
  }

  /** For the 1920x1080 picture: 120 x 68 macroblocks, 8160 in all, and
      3110400 bytes of coded-data buffer. */
  lemma PictureGeometry()
    ensures MbCount(WIDTH) == 120 && MbCount(HEIGHT) == 68
    ensures NumMacroblocks(WIDTH, HEIGHT) == 8160
    ensures CodedBufferSize(WIDTH, HEIGHT) == 3110400
  {
  }
}
