/** The NAL unit splitter of `analyze_video.py` (`parse_nal_units`): an
    H.264 Annex B byte stream (Annex B of ITU-T H.264) is a run of NAL units,
    each announced by the start code 00 00 01, optionally with one more
    leading zero byte (00 00 00 01). The splitter looks for a start code,
    takes every byte up to the next start code (or the end of the stream)
    as one unit, and reads the unit's `nal_unit_type` from the low five
    bits of its first byte (section 7.4.1 of ITU-T H.264). */
module AnnexB {
  import opened Common

  /** One unit as the splitter reports it: its type, its bytes, their
      number and where they start in the stream. */
  datatype NalUnit = NalUnit(nalType: nat, data: seq<byte>, size: nat, offset: nat)

  /** A three-byte start code 00 00 01 begins at `p`. */
  predicate CodeAt(s: seq<byte>, p: nat)
  {
    p + 3 <= |s| && s[p] == 0 && s[p + 1] == 0 && s[p + 2] == 1
  }

  /** A four-byte start code 00 00 00 01 begins at `p`. */
  predicate LongCodeAt(s: seq<byte>, p: nat)
  {
    p + 4 <= |s| && s[p] == 0 && CodeAt(s, p + 1)
  }

  /** No three-byte start code lies wholly inside `s`. */
  predicate NoStartCode(s: seq<byte>)
  {
    forall j | 0 <= j < |s| :: !CodeAt(s, j)
  }

  /** Bytes `lo` to `hi` of `d`: the slice `d[lo..hi]` (`SubIsSlice`),
      written out element by element. */
  function Sub(d: seq<byte>, lo: nat, hi: nat): (s: seq<byte>)
    requires lo <= hi <= |d|
    ensures |s| == hi - lo
  {
    seq(hi - lo, i requires 0 <= i < hi - lo => d[lo + i])
  }

  lemma SubIsSlice(d: seq<byte>, lo: nat, hi: nat)
    requires lo <= hi <= |d|
    ensures Sub(d, lo, hi) == d[lo..hi]
  {
  }

  /** `nal_unit_type`: the low five bits of the unit's first byte, that is
      its remainder modulo 32 (`NalTypeIsMask`), so a value in 0..31. */
  function NalType(b: byte): (t: nat)
    ensures t < 32
  {
    b as int % 32
  }

  /** The remainder is what the source's mask `& 0x1F` keeps: for every
      bit pattern of a byte, the type of the byte it denotes is the pattern
      with all but its low five bits cleared. */
  lemma NalTypeIsMask(x: bv8)
    ensures NalType(x as int as byte) == (x & 0x1F) as int
  {
    MaskIsModulo(x);
    ModuloAsInt(x);
  }

  lemma MaskIsModulo(x: bv8)
    ensures x & 0x1F == x % 32
  {
  }

  lemma ModuloAsInt(x: bv8)
    ensures (x % 32) as int == x as int % 32
  {
  }

  // ---------------------------------------------------------------------
  // The splitter.

  /** The inner scan: from `q`, the first position where a start code (of
      either length) begins, or the end of the stream once fewer than three
      bytes remain. */
  function NextStart(d: seq<byte>, q: nat): (r: nat)
    requires q <= |d|
    ensures q <= r <= |d|
    decreases |d| - q
  {
    if q + 3 > |d| then |d|
    else if LongCodeAt(d, q) || CodeAt(d, q) then q
    else NextStart(d, q + 1)
  }

  /** The length of the start code at `p`: 4, 3, or 0 when there is none. */
  function CodeLength(d: seq<byte>, p: nat): (n: nat)
    ensures n == 0 || n == 3 || n == 4
  {
    if LongCodeAt(d, p) then 4 else if CodeAt(d, p) then 3 else 0
  }

  /** The unit that starts at `start` and runs to the next start code, if
      it is not empty. */
  function Found(d: seq<byte>, start: nat): (us: seq<NalUnit>)
    requires start <= |d|
  {
    var next := NextStart(d, start);
    if next > start then [NalUnit(NalType(d[start]), Sub(d, start, next), next - start, start)] else []
  }

  /** The outer scan from `p`: stop when fewer than four bytes remain; on a
      start code, the unit runs from just after it to the next start code
      and is kept when it is not empty; then go on from where it ended. */
  function ParseFrom(d: seq<byte>, p: nat): seq<NalUnit>
    requires p <= |d|
    decreases |d| - p
  {
    if p + 4 > |d| then []
    else if CodeLength(d, p) == 0 then ParseFrom(d, p + 1)
    else
      var start := p + CodeLength(d, p);
      Found(d, start) + ParseFrom(d, NextStart(d, start))
  }

  /** `parse_nal_units`. */
  function ParseNalUnits(d: seq<byte>): seq<NalUnit>
  {
    ParseFrom(d, 0)
  }

  // ---------------------------------------------------------------------
  // What every unit satisfies.

  /** A unit of stream `d`: it follows a start code, is not empty, is the
      stream's bytes from its offset, has the type of its first byte,
      contains no start code and runs up to the next start code or to the
      end of the stream. */
  ghost predicate UnitOf(d: seq<byte>, u: NalUnit)
  {
    && u.offset >= 3 && CodeAt(d, u.offset - 3)
    && u.size > 0 && u.offset + u.size <= |d|
    && u.data == Sub(d, u.offset, u.offset + u.size)
    && u.nalType == NalType(d[u.offset])
    && NoStartCode(u.data)
    && (u.offset + u.size == |d| || CodeAt(d, u.offset + u.size) || LongCodeAt(d, u.offset + u.size))
  }

  /** Units in stream order, apart: each ends at least a start code before
      the next begins. */
  ghost predicate Ordered(us: seq<NalUnit>)
  {
    forall i, j | 0 <= i < j < |us| :: us[i].offset + us[i].size + 3 <= us[j].offset
  }

  /** What the inner scan passes over holds no start code, and where it
      stops there is one, or the stream ends. */
  lemma {:induction false} NextStartScan(d: seq<byte>, q: nat)
    requires q <= |d|
    ensures forall j | q <= j < NextStart(d, q) :: !CodeAt(d, j)
    ensures var r := NextStart(d, q); r == |d| || CodeAt(d, r) || LongCodeAt(d, r)
    decreases |d| - q
  {
    if q + 3 <= |d| && !(LongCodeAt(d, q) || CodeAt(d, q)) {
      NextStartScan(d, q + 1);
    }
  }

  /** A unit found at `start`: it has every property `UnitOf` names. */
  lemma {:induction false} FoundUnit(d: seq<byte>, start: nat)
    requires start >= 3 && CodeAt(d, start - 3)
    requires start < NextStart(d, start)
    ensures UnitOf(d, NalUnit(NalType(d[start]), Sub(d, start, NextStart(d, start)), NextStart(d, start) - start, start))
  {
    var next := NextStart(d, start);
    var u := Sub(d, start, next);
    NextStartScan(d, start);
    forall j | 0 <= j < |u|
      ensures !CodeAt(u, j)
    {
      CodeInSub(d, start, next, j);
    }
  }

  /** A start code inside a piece of the stream is a start code of the
      stream. */
  lemma CodeInSub(d: seq<byte>, lo: nat, hi: nat, j: nat)
    requires lo <= hi <= |d|
    ensures CodeAt(Sub(d, lo, hi), j) ==> CodeAt(d, lo + j)
  {
  }

  /** From index `k` on, the units `us`, in order, are each a unit of the
      stream, the one at `k` beginning at `lo` or later and each next one at
      least a start code after the previous one ends. */
  ghost predicate ChainFrom(d: seq<byte>, us: seq<NalUnit>, k: nat, lo: nat)
    decreases |us| - k
  {
    k >= |us| || (UnitOf(d, us[k]) && us[k].offset >= lo && ChainFrom(d, us, k + 1, us[k].offset + us[k].size + 3))
  }

  lemma ChainLater(d: seq<byte>, us: seq<NalUnit>, lo: nat, lo': nat)
    requires ChainFrom(d, us, 0, lo) && lo' <= lo
    ensures ChainFrom(d, us, 0, lo')
  {
  }

  /** A chain stays a chain with units put in front, one index on. */
  lemma {:induction false} ChainShift(d: seq<byte>, f: seq<NalUnit>, rest: seq<NalUnit>, k: nat, lo: nat)
    requires ChainFrom(d, rest, k, lo)
    ensures ChainFrom(d, f + rest, |f| + k, lo)
    decreases |rest| - k
  {
    if k < |rest| {
      assert (f + rest)[|f| + k] == rest[k];
      ChainShift(d, f, rest, k + 1, rest[k].offset + rest[k].size + 3);
    }
  }

  /** The units of the scan from `p` form a chain from `p + 3`. */
  lemma {:induction false} ParseFromChain(d: seq<byte>, p: nat)
    requires p <= |d|
    ensures ChainFrom(d, ParseFrom(d, p), 0, p + 3)
    decreases |d| - p
  {
    if p + 4 > |d| {
    } else if CodeLength(d, p) == 0 {
      ParseFromChain(d, p + 1);
      SkipChain(d, p);
    } else {
      ParseFromChain(d, NextStart(d, p + CodeLength(d, p)));
      CodeChain(d, p);
    }
  }

  /** A start code at `p`: the unit after it heads the chain of the scan
      from where that unit ends. */
  lemma CodeChain(d: seq<byte>, p: nat)
    requires p + 4 <= |d| && CodeLength(d, p) != 0
    requires ChainFrom(d, ParseFrom(d, NextStart(d, p + CodeLength(d, p))), 0, NextStart(d, p + CodeLength(d, p)) + 3)
    ensures ChainFrom(d, ParseFrom(d, p), 0, p + 3)
  {
    var start := p + CodeLength(d, p);
    var next := NextStart(d, start);
    CodeBeforeStart(d, p);
    FoundChain(d, start, ParseFrom(d, next), p + 3);
    assert ParseFrom(d, p) == Found(d, start) + ParseFrom(d, next);
  }

  /** A start code at `p` ends with the three bytes 00 00 01. */
  lemma CodeBeforeStart(d: seq<byte>, p: nat)
    requires CodeLength(d, p) != 0
    ensures p + CodeLength(d, p) >= 3 && CodeAt(d, p + CodeLength(d, p) - 3)
  {
  }

  /** No start code at `p`: the scan goes on from `p + 1`. */
  lemma SkipChain(d: seq<byte>, p: nat)
    requires p + 4 <= |d| && CodeLength(d, p) == 0
    requires ChainFrom(d, ParseFrom(d, p + 1), 0, p + 4)
    ensures ChainFrom(d, ParseFrom(d, p), 0, p + 3)
  {
    ChainLater(d, ParseFrom(d, p + 1), p + 4, p + 3);
  }

  /** After a start code ending at `start`, the unit found there (if any)
      heads the chain of the units from where it ends. */
  lemma FoundChain(d: seq<byte>, start: nat, rest: seq<NalUnit>, lo: nat)
    requires 3 <= start <= |d| && CodeAt(d, start - 3) && lo <= start
    requires ChainFrom(d, rest, 0, NextStart(d, start) + 3)
    ensures ChainFrom(d, Found(d, start) + rest, 0, lo)
  {
    var next := NextStart(d, start);
    if next > start {
      FoundUnit(d, start);
      HeadChain(d, Found(d, start), rest, lo);
    } else {
      assert Found(d, start) + rest == rest;
      ChainLater(d, rest, next + 3, lo);
    }
  }

  lemma HeadChain(d: seq<byte>, f: seq<NalUnit>, rest: seq<NalUnit>, lo: nat)
    requires |f| == 1 && UnitOf(d, f[0]) && f[0].offset >= lo
    requires ChainFrom(d, rest, 0, f[0].offset + f[0].size + 3)
    ensures ChainFrom(d, f + rest, 0, lo)
  {
    ChainShift(d, f, rest, 0, f[0].offset + f[0].size + 3);
    assert (f + rest)[0] == f[0];
  }

  /** A chain, read by index: every unit from `k` on is a unit of the
      stream from `lo` on, and those units are ordered. */
  lemma {:induction false} ChainByIndex(d: seq<byte>, us: seq<NalUnit>, k: nat, lo: nat)
    requires ChainFrom(d, us, k, lo)
    ensures forall i | k <= i < |us| :: UnitOf(d, us[i]) && us[i].offset >= lo
    ensures forall i, j | k <= i < j < |us| :: us[i].offset + us[i].size + 3 <= us[j].offset
    decreases |us| - k
  {
    if k < |us| {
      ChainByIndex(d, us, k + 1, us[k].offset + us[k].size + 3);
    }
  }

  /** The units of a stream: each a unit of the stream in the sense of
      `UnitOf`, in strictly increasing, non-overlapping order. */
  lemma {:induction false} ParseNalUnitsFacts(d: seq<byte>)
    ensures var us := ParseNalUnits(d);
      && (forall i | 0 <= i < |us| :: UnitOf(d, us[i]) && us[i].nalType < 32)
      && Ordered(us)
  {
    var us := ParseNalUnits(d);
    ParseFromChain(d, 0);
    ChainByIndex(d, us, 0, 3);
  }

  // ---------------------------------------------------------------------
  // The inverse: writing units as a byte stream.

  /** A payload the splitter can recover: not empty, free of start codes,
      and not ending in a zero byte (which would merge into a following
      four-byte start code). */
  ghost predicate Recoverable(payload: seq<byte>)
  {
    |payload| > 0 && NoStartCode(payload) && payload[|payload| - 1] != 0
  }

  /** The length of the start code that announces a payload. */
  function CodeSize(long: bool): nat
  {
    if long then 4 else 3
  }

  /** The start code that announces a payload: 00 00 00 01 when `long`,
      else 00 00 01. */
  function StartCode(long: bool): (c: seq<byte>)
    ensures |c| == CodeSize(long)
  {
    if long then [0, 0, 0, 1] else [0, 0, 1]
  }

  /** The stream that announces payload `i` with the four-byte start code
      when `long[i]` holds and with the three-byte one otherwise. */
  function Encode(payloads: seq<seq<byte>>, long: seq<bool>): (s: seq<byte>)
    requires |long| == |payloads|
    decreases |payloads|
  {
    if |payloads| == 0 then [] else StartCode(long[0]) + payloads[0] + Encode(payloads[1..], long[1..])
  }

  /** The bytes of each unit. */
  function Payloads(us: seq<NalUnit>): (ps: seq<seq<byte>>)
    ensures |ps| == |us| && forall i | 0 <= i < |us| :: ps[i] == us[i].data
  {
    seq(|us|, i requires 0 <= i < |us| => us[i].data)
  }

  /** `x` lies in `d` from `q`. */
  ghost predicate PayloadAt(d: seq<byte>, q: nat, x: seq<byte>)
  {
    q + |x| <= |d| && forall i | 0 <= i < |x| :: d[q + i] == x[i]
  }

  /** `d` holds, from `p` to its end, the encoding of `payloads` with the
      start-code lengths `long`. */
  ghost predicate EncodedAt(d: seq<byte>, p: nat, payloads: seq<seq<byte>>, long: seq<bool>)
    requires |long| == |payloads|
    decreases |payloads|
  {
    if |payloads| == 0 then p == |d|
    else
      var n := CodeSize(long[0]);
      && (if long[0] then LongCodeAt(d, p) else CodeAt(d, p))
      && PayloadAt(d, p + n, payloads[0])
      && EncodedAt(d, p + n + |payloads[0]|, payloads[1..], long[1..])
  }

  /** An encoding after any prefix is found where the prefix ends. */
  lemma {:induction false} EncodedAfter(pre: seq<byte>, payloads: seq<seq<byte>>, long: seq<bool>)
    requires |long| == |payloads|
    ensures EncodedAt(pre + Encode(payloads, long), |pre|, payloads, long)
    decreases |payloads|
  {
    if |payloads| > 0 {
      var x := payloads[0];
      var c := StartCode(long[0]);
      var d := pre + Encode(payloads, long);
      var pre' := pre + c + x;
      assert d == pre' + Encode(payloads[1..], long[1..]);
      EncodedAfter(pre', payloads[1..], long[1..]);
      CodeAfter(pre, c, x, Encode(payloads[1..], long[1..]), long[0]);
      forall i | 0 <= i < |x|
        ensures d[|pre| + |c| + i] == x[i]
      {
        assert d[|pre| + |c| + i] == pre'[|pre| + |c| + i];
      }
    }
  }

  /** The start code written after a prefix is found where the prefix
      ends. */
  lemma CodeAfter(pre: seq<byte>, c: seq<byte>, x: seq<byte>, rest: seq<byte>, long: bool)
    requires c == StartCode(long)
    ensures var d := pre + c + x + rest;
      if long then LongCodeAt(d, |pre|) else CodeAt(d, |pre|)
  {
    var d := pre + c + x + rest;
    var p := |pre|;
    assert d[p] == c[0] && d[p + 1] == c[1] && d[p + 2] == c[2];
    if long {
      assert d[p + 3] == c[3];
      assert CodeAt(d, p + 1);
    }
  }

  /** The inner scan over a recoverable payload stops right after it. */
  lemma {:induction false} ScanPayload(d: seq<byte>, start: nat, payload: seq<byte>, rest: seq<seq<byte>>, long: seq<bool>)
    requires |long| == |rest|
    requires PayloadAt(d, start, payload)
    requires EncodedAt(d, start + |payload|, rest, long)
    requires Recoverable(payload)
    ensures NextStart(d, start) == start + |payload|
  {
    NextStartReaches(d, start, start + |payload|, payload);
  }

  /** No start code begins inside a recoverable payload laid out at
      `e - |payload|`. */
  lemma {:induction false} NoCodeInside(d: seq<byte>, e: nat, payload: seq<byte>, q: nat)
    requires |payload| <= e && PayloadAt(d, e - |payload|, payload)
    requires Recoverable(payload)
    requires e - |payload| <= q < e
    ensures !CodeAt(d, q)
  {
    var j := q - (e - |payload|);
    assert d[q] == payload[j];
    if j + 3 <= |payload| {
      assert !CodeAt(payload, j);
      assert d[q + 1] == payload[j + 1] && d[q + 2] == payload[j + 2];
    } else if j + 2 == |payload| {
      assert d[q + 1] == payload[j + 1];
    }
  }

  /** The scan from `q` passes every position before `e` of a recoverable
      payload laid out to end at `e`, and stops at `e` when a start code of
      either length, or the end of the stream, is there. */
  lemma {:induction false} NextStartReaches(d: seq<byte>, q: nat, e: nat, payload: seq<byte>)
    requires q <= e <= |d| && e - |payload| <= q
    requires |payload| <= e && PayloadAt(d, e - |payload|, payload)
    requires Recoverable(payload)
    requires e == |d| || CodeAt(d, e) || LongCodeAt(d, e)
    ensures NextStart(d, q) == e
    decreases e - q
  {
    if q + 3 <= |d| && q < e {
      NoCodeInside(d, e, payload, q);
      if q + 1 < e {
        NoCodeInside(d, e, payload, q + 1);
      } else {
        assert d[q] == payload[|payload| - 1];
      }
      NextStartReaches(d, q + 1, e, payload);
    }
  }

  /** The unit found after the start code at `p` is the first payload. */
  lemma {:induction false} FoundPayload(d: seq<byte>, p: nat, payloads: seq<seq<byte>>, long: seq<bool>)
    requires |long| == |payloads|
    requires |payloads| > 0 && EncodedAt(d, p, payloads, long) && Recoverable(payloads[0])
    ensures var x := payloads[0];
      var n := CodeSize(long[0]);
      && p + 4 <= |d| && CodeLength(d, p) == n
      && NextStart(d, p + n) == p + n + |x|
      && Found(d, p + n) == [NalUnit(NalType(x[0]), x, |x|, p + n)]
  {
    var x := payloads[0];
    var n := CodeSize(long[0]);
    ScanPayload(d, p + n, x, payloads[1..], long[1..]);
    assert d[p + n] == x[0];
    assert Sub(d, p + n, p + n + |x|) == x;
  }

  /** Splitting an encoded stream, read from `p` where the encoding
      starts, gives back its payloads. */
  lemma {:induction false} ParseEncoded(d: seq<byte>, p: nat, payloads: seq<seq<byte>>, long: seq<bool>)
    requires |long| == |payloads|
    requires p <= |d| && EncodedAt(d, p, payloads, long)
    requires forall i | 0 <= i < |payloads| :: Recoverable(payloads[i])
    ensures Payloads(ParseFrom(d, p)) == payloads
    decreases |payloads|
  {
    if |payloads| > 0 {
      var x := payloads[0];
      var n := CodeSize(long[0]);
      assert Recoverable(x);
      FoundPayload(d, p, payloads, long);
      var next := p + n + |x|;
      ParseEncoded(d, next, payloads[1..], long[1..]);
      var rest := ParseFrom(d, next);
      ParseFromCode(d, p, n);
      PayloadsCons(NalUnit(NalType(x[0]), x, |x|, p + n), rest, payloads);
    }
  }

  /** At a start code of length `n` the split takes the unit after it and
      goes on from where the unit ends. */
  lemma {:induction false} ParseFromCode(d: seq<byte>, p: nat, n: nat)
    requires p + 4 <= |d| && CodeLength(d, p) == n && n > 0
    ensures ParseFrom(d, p) == Found(d, p + n) + ParseFrom(d, NextStart(d, p + n))
  {
    assert !(p + 4 > |d|) && CodeLength(d, p) != 0;
  }

  lemma {:induction false} PayloadsCons(u: NalUnit, rest: seq<NalUnit>, payloads: seq<seq<byte>>)
    requires |payloads| > 0 && u.data == payloads[0] && Payloads(rest) == payloads[1..]
    ensures Payloads([u] + rest) == payloads
  {
    var us := [u] + rest;
    forall i | 0 < i < |us|
      ensures us[i].data == payloads[i]
    {
      assert us[i] == rest[i - 1];
    }
  }

  /** Every unit holds `size` bytes and is typed by its own first byte. */
  lemma ParseNalUnitsTyped(d: seq<byte>)
    ensures var us := ParseNalUnits(d);
      forall i | 0 <= i < |us| :: |us[i].data| == us[i].size > 0 && us[i].nalType == NalType(us[i].data[0])
  {
    var us := ParseNalUnits(d);
    ParseFromChain(d, 0);
    ChainByIndex(d, us, 0, 3);
  }

  /** Round trip: the units of an encoded stream are its payloads, in
      order, each typed by its first byte, whichever start code (three or
      four bytes) announces each of them. */
  lemma ParseEncode(payloads: seq<seq<byte>>, long: seq<bool>)
    requires |long| == |payloads|
    requires forall i | 0 <= i < |payloads| :: Recoverable(payloads[i])
    ensures var us := ParseNalUnits(Encode(payloads, long));
      && |us| == |payloads|
      && forall i | 0 <= i < |us| :: us[i].data == payloads[i] && |us[i].data| > 0 && us[i].nalType == NalType(us[i].data[0])
  {
    var d := Encode(payloads, long);
    EncodedAfter([], payloads, long);
    assert [] + d == d;
    ParseEncoded(d, 0, payloads, long);
    ParseNalUnitsTyped(d);
  }
}
