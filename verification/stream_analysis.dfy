/** The stream statistics of `analyze_video.py`, on the data the probes
    hand over (the probes themselves are outside the model): grouping
    frames into GOPs, collecting the sizes of the video packets, reading
    a slice's class from its NAL unit type, and summarising the units of
    an Annex B stream. */
module StreamAnalysis {
  import opened Common
  import AnnexB

  // ---------------------------------------------------------------------
  // GOP structure (`analyze_gop_structure`).

  /** A frame as the frame probe reports it; either field may be absent. */
  datatype FrameInfo = FrameInfo(pictType: Option<string>, pts: Option<int>)

  /** One entry of a GOP: the frame's position in the input, its picture
      type ("Unknown" when absent) and its presentation time. */
  datatype GopEntry = GopEntry(index: nat, frameType: string, pts: Option<int>)

  function EntryOf(frames: seq<FrameInfo>, i: nat): (e: GopEntry)
    requires i < |frames|
    ensures e.index == i
  {
    GopEntry(i, frames[i].pictType.GetOr("Unknown"), frames[i].pts)
  }

  /** The entries of the first `n` frames, one per frame, in order. */
  function Entries(frames: seq<FrameInfo>, n: nat): (es: seq<GopEntry>)
    requires n <= |frames|
    ensures |es| == n
  {
    seq(n, i requires 0 <= i < n => EntryOf(frames, i))
  }

  predicate IsIntra(e: GopEntry)
  {
    e.frameType == "I"
  }

  /** A GOP: not empty, headed by an I frame unless it is the first one,
      and holding no other I frame. */
  predicate GopShaped(g: seq<GopEntry>, first: bool)
  {
    && |g| > 0
    && (!first ==> IsIntra(g[0]))
    && forall k | 0 < k < |g| :: !IsIntra(g[k])
  }

  predicate WellGrouped(gops: seq<seq<GopEntry>>)
  {
    forall i | 0 <= i < |gops| :: GopShaped(gops[i], i == 0)
  }

  /** `analyze_gop_structure`: an I frame closes the GOP being built (if
      any) and opens a new one; any other frame joins the current GOP. The
      GOPs, read in order, are the frames' entries, and every I frame heads
      its GOP. */
  method AnalyzeGopStructure(frames: seq<FrameInfo>) returns (gops: seq<seq<GopEntry>>)
    ensures Flatten(gops) == Entries(frames, |frames|)
    ensures WellGrouped(gops)
  {
    gops := [];
    var current: seq<GopEntry> := [];
    var i := 0;
    while i < |frames|
      invariant i <= |frames|
      invariant Flatten(gops) + current == Entries(frames, i)
      invariant WellGrouped(gops)
      invariant i == 0 ==> gops == [] && current == []
      invariant i > 0 ==> GopShaped(current, |gops| == 0)
    {
      var e := EntryOf(frames, i);
      EntriesSnoc(frames, i);
      if e.frameType == "I" {
        if |current| > 0 {
          CloseGop(gops, current);
          gops := gops + [current];
        }
        current := [e];
      } else {
        current := current + [e];
      }
      i := i + 1;
    }
    if |current| > 0 {
      CloseGop(gops, current);
      gops := gops + [current];
    }
  }

  lemma EntriesSnoc(frames: seq<FrameInfo>, n: nat)
    requires n < |frames|
    ensures Entries(frames, n + 1) == Entries(frames, n) + [EntryOf(frames, n)]
  {
    assert Entries(frames, n + 1)[n] == EntryOf(frames, n);
  }

  /** Closing a GOP appends it to the list and to the flattened entries. */
  lemma CloseGop(gops: seq<seq<GopEntry>>, g: seq<GopEntry>)
    requires WellGrouped(gops) && GopShaped(g, |gops| == 0)
    ensures Flatten(gops + [g]) == Flatten(gops) + g
    ensures WellGrouped(gops + [g])
  {
    FlattenSnoc(gops, g);
    forall i | 0 <= i < |gops| + 1
      ensures GopShaped((gops + [g])[i], i == 0)
    {
      if i < |gops| {
        assert (gops + [g])[i] == gops[i];
      }
    }
  }

  lemma FlattenSnoc<T>(xss: seq<seq<T>>, x: seq<T>)
    ensures Flatten(xss + [x]) == Flatten(xss) + x
  {
    assert (xss + [x])[..|xss|] == xss;
  }

  /** The number of I frames among the entries. */
  function IntraCount(es: seq<GopEntry>): (n: nat)
    ensures n <= |es|
  {
    if |es| == 0 then 0 else IntraCount(es[..|es| - 1]) + (if IsIntra(es[|es| - 1]) then 1 else 0)
  }

  lemma {:induction false} IntraCountAppend(a: seq<GopEntry>, b: seq<GopEntry>)
    ensures IntraCount(a + b) == IntraCount(a) + IntraCount(b)
    decreases |b|
  {
    if |b| == 0 {
      assert a + b == a;
    } else {
      assert (a + b)[..|a + b| - 1] == a + b[..|b| - 1];
      IntraCountAppend(a, b[..|b| - 1]);
    }
  }

  /** A GOP holds at most one I frame, at its head. */
  lemma {:induction false} IntraCountOfGop(g: seq<GopEntry>, first: bool)
    requires GopShaped(g, first)
    ensures IntraCount(g) == (if IsIntra(g[0]) then 1 else 0)
  {
    IntraCountAppend([g[0]], g[1..]);
    assert [g[0]] + g[1..] == g;
    NoIntra(g[1..]);
    assert [g[0]][..0] == [];
  }

  lemma {:induction false} NoIntra(es: seq<GopEntry>)
    requires forall k | 0 <= k < |es| :: !IsIntra(es[k])
    ensures IntraCount(es) == 0
    decreases |es|
  {
    if |es| > 0 {
      NoIntra(es[..|es| - 1]);
    }
  }

  /** The GOP count of a well-grouped list: one per I frame, plus one
      for a leading run of frames before the first I frame. */
  lemma {:induction false} GopCount(gops: seq<seq<GopEntry>>)
    requires WellGrouped(gops)
    ensures |gops| == IntraCount(Flatten(gops)) + (if |gops| > 0 && !IsIntra(gops[0][0]) then 1 else 0)
    decreases |gops|
  {
    if |gops| > 0 {
      var init := gops[..|gops| - 1];
      var g := gops[|gops| - 1];
      assert WellGrouped(init) by {
        forall i | 0 <= i < |init|
          ensures GopShaped(init[i], i == 0)
        {
          assert init[i] == gops[i];
        }
      }
      GopCount(init);
      IntraCountAppend(Flatten(init), g);
      IntraCountOfGop(g, |gops| == 1);
      if |gops| > 1 {
        assert init[0] == gops[0];
      }
    }
  }

  /** The GOPs of a stream: one per I frame among its frames, plus one
      when the stream does not open with an I frame. */
  lemma GopsPerIntraFrame(frames: seq<FrameInfo>, gops: seq<seq<GopEntry>>)
    requires Flatten(gops) == Entries(frames, |frames|) && WellGrouped(gops)
    ensures |gops| == IntraCount(Entries(frames, |frames|))
      + (if |frames| > 0 && frames[0].pictType != Some("I") then 1 else 0)
  {
    GopCount(gops);
    if |gops| > 0 {
      FlattenCons(gops);
      assert Flatten(gops)[0] == gops[0][0];
    }
  }

  // ---------------------------------------------------------------------
  // Packet sizes (`analyze_bitrate`).

  /** A packet as the packet probe reports it; either field may be absent. */
  datatype Packet = Packet(codecType: Option<string>, size: Option<nat>)

  /** The size a packet contributes: a video packet's size (0 when
      absent); other packets contribute nothing. */
  function VideoSize(p: Packet): (r: Option<nat>)
    ensures r.Some? <==> p.codecType == Some("video")
  {
    if p.codecType == Some("video") then Some(p.size.GetOr(0)) else None
  }

  /** `analyze_bitrate`: the sizes of the video packets, in order, and
      their total. */
  method AnalyzeBitrate(packets: seq<Packet>) returns (sizes: seq<nat>, total: nat)
    ensures sizes == Pick(packets, VideoSize)
    ensures total == Sum(sizes)
  {
    sizes := [];
    total := 0;
    var i := 0;
    while i < |packets|
      invariant i <= |packets|
      invariant sizes == Pick(packets[..i], VideoSize)
      invariant total == Sum(sizes)
    {
      var p := packets[i];
      BitrateStep(packets, i);
      if p.codecType == Some("video") {
        var size := p.size.GetOr(0);
        sizes := sizes + [size];
        total := total + size;
      }
      i := i + 1;
    }
    assert packets[..i] == packets;
  }

  /** One packet more: a video packet's size joins the sizes and the
      total; any other packet changes neither. */
  lemma BitrateStep(packets: seq<Packet>, i: nat)
    requires i < |packets|
    ensures var sizes := Pick(packets[..i], VideoSize);
      var p := packets[i];
      && Pick(packets[..i + 1], VideoSize) == sizes + (if p.codecType == Some("video") then [p.size.GetOr(0)] else [])
      && Sum(Pick(packets[..i + 1], VideoSize)) == Sum(sizes) + (if p.codecType == Some("video") then p.size.GetOr(0) else 0)
  {
    var sizes := Pick(packets[..i], VideoSize);
    assert packets[..i + 1][..i] == packets[..i];
    var next := Pick(packets[..i + 1], VideoSize);
    if packets[i].codecType == Some("video") {
      assert next[..|next| - 1] == sizes;
    } else {
      assert next == sizes;
    }
  }

  /** The sizes are those of the video packets and no others, in packet
      order. */
  lemma BitrateKeepsVideo(packets: seq<Packet>)
    ensures var sizes := Pick(packets, VideoSize); var at := Selected(packets, VideoSize);
      && |at| == |sizes|
      && (forall k | 0 <= k < |at| ::
            at[k] < |packets| && packets[at[k]].codecType == Some("video")
            && sizes[k] == packets[at[k]].size.GetOr(0))
      && (forall k, l | 0 <= k < l < |at| :: at[k] < at[l])
      && (forall i | 0 <= i < |packets| && packets[i].codecType == Some("video") :: i in at)
  {
    PickSelects(packets, VideoSize);
  }

  // ---------------------------------------------------------------------
  // Slice headers (`parse_slice_header`).

  datatype SliceType = Intra | PredictedOrBipredicted

  /** What the slice header reader reports. The frame number is never
      filled in and is left out. */
  datatype SliceInfo = SliceInfo(nalType: nat, sliceType: Option<SliceType>, idrPicId: Option<nat>, isReference: bool)

  /** `parse_slice_header`: units of fewer than two bytes and units that
      are not slices (types 1 to 5) give nothing. An IDR slice (type 5) is
      an I slice with IDR picture id 0; a non-IDR slice (type 1) is a P or
      B slice; partitions (types 2 to 4) have no slice type. Types 1, 2 and
      5 are reference pictures. */
  function ParseSliceHeader(data: seq<byte>): (r: Option<SliceInfo>)
    ensures r.Some? <==> |data| >= 2 && 1 <= AnnexB.NalType(data[0]) <= 5
    ensures r.Some? ==> var t := AnnexB.NalType(data[0]);
      && r.value.nalType == t
      && (r.value.sliceType == Some(Intra) <==> t == 5)
      && (r.value.sliceType == Some(PredictedOrBipredicted) <==> t == 1)
      && (r.value.idrPicId.Some? <==> t == 5)
      && (r.value.idrPicId.Some? ==> r.value.idrPicId.value == 0)
      && (r.value.isReference <==> t == 1 || t == 2 || t == 5)
  {
    if |data| < 2 then None
    else
      var t := AnnexB.NalType(data[0]);
      if !(t in {1, 2, 3, 4, 5}) then None
      else Some(SliceInfo(
        t,
        if t == 5 then Some(Intra) else if t == 1 then Some(PredictedOrBipredicted) else None,
        if t == 5 then Some(0) else None,
        t in {1, 2, 5}))
  }

  // ---------------------------------------------------------------------
  // Stream summary (`analyze_reference_frames`).

  /** One slice of the summary: its unit's type and size and what the
      slice header reader made of it. */
  datatype SliceRecord = SliceRecord(nalType: nat, sliceType: Option<SliceType>, isReference: bool, size: nat)

  datatype ReferenceAnalysis = ReferenceAnalysis(hasSps: bool, hasPps: bool, frames: seq<SliceRecord>)

  /** The record a unit contributes: slice units (types 1 to 5) whose
      header reads; nothing for the others. */
  function RecordOf(u: AnnexB.NalUnit): (r: Option<SliceRecord>)
    ensures r.Some? ==> 1 <= u.nalType <= 5 && r.value.nalType == u.nalType && r.value.size == u.size
  {
    if u.nalType in {1, 2, 3, 4, 5} then
      match ParseSliceHeader(u.data)
      case Some(info) => Some(SliceRecord(u.nalType, info.sliceType, info.isReference, u.size))
      case None => None
    else None
  }

  /** `analyze_reference_frames`: whether a sequence parameter set (type
      7) and a picture parameter set (type 8) occur, and the records of the
      slices, in order. */
  method AnalyzeReferenceFrames(units: seq<AnnexB.NalUnit>) returns (r: ReferenceAnalysis)
    ensures r.hasSps <==> exists i | 0 <= i < |units| :: units[i].nalType == 7
    ensures r.hasPps <==> exists i | 0 <= i < |units| :: units[i].nalType == 8
    ensures r.frames == Pick(units, RecordOf)
  {
    var sps := false;
    var pps := false;
    var frames: seq<SliceRecord> := [];
    var i := 0;
    while i < |units|
      invariant i <= |units|
      invariant sps <==> exists j | 0 <= j < i :: units[j].nalType == 7
      invariant pps <==> exists j | 0 <= j < i :: units[j].nalType == 8
      invariant frames == Pick(units[..i], RecordOf)
    {
      var u := units[i];
      PickStep(units, i, RecordOf);
      if u.nalType == 7 {
        sps := true;
      } else if u.nalType == 8 {
        pps := true;
      } else {
        var rec := RecordOf(u);
        if rec.Some? {
          frames := frames + [rec.value];
        }
      }
      i := i + 1;
    }
    assert units[..i] == units;
    r := ReferenceAnalysis(sps, pps, frames);
  }

  /** On the units of a stream, the summary keeps exactly the slices of
      two bytes or more, in stream order, and classifies each from its
      unit's type: IDR slices are I slices, every kept slice is a
      reference picture exactly when its type is 1, 2 or 5. */
  lemma SlicesOfStream(d: seq<byte>)
    ensures var us := AnnexB.ParseNalUnits(d); var recs := Pick(us, RecordOf); var at := Selected(us, RecordOf);
      && |at| == |recs|
      && (forall k | 0 <= k < |at| :: at[k] < |us| && recs[k].nalType == us[at[k]].nalType
            && recs[k].size == us[at[k]].size
            && (recs[k].sliceType == Some(Intra) <==> recs[k].nalType == 5)
            && (recs[k].isReference <==> recs[k].nalType in {1, 2, 5}))
      && (forall k, l | 0 <= k < l < |at| :: at[k] < at[l])
      && (forall i | 0 <= i < |us| && 1 <= us[i].nalType <= 5 && us[i].size >= 2 :: i in at)
  {
    var us := AnnexB.ParseNalUnits(d);
    AnnexB.ParseNalUnitsTyped(d);
    PickSelects(us, RecordOf);
  }
}
