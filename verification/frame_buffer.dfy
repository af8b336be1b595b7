/** The latest-value double buffer of `src/frame_buffer.rs`, taken as a
    sequential state machine: two slots that each hold zero or one frame
    handle, and a selector bit naming the slot readers look at.

    A frame handle is a value of the type parameter `T`; two handles are the
    same handle exactly when they are equal, so "read returns the frame that
    was written" means the handle itself, not a copy of its contents.
    Reference counting is modelled by reporting, for every operation, which
    handle the buffer gives up: the buffer owns one reference per non-empty
    slot, and a handle is released exactly when it leaves a slot. */
module FrameBuffer {
  import opened Common

  /** `reading == false` selects slot 0, `reading == true` selects slot 1. */
  datatype Buffer<T> = Buffer(slot0: Option<T>, slot1: Option<T>, reading: bool)

  /** The content of the slot that selector value `i` names. */
  function Slot<T>(b: Buffer<T>, i: bool): Option<T>
  {
    if i then b.slot1 else b.slot0
  }

  /** The handles the buffer currently holds a reference to. */
  function Held<T>(b: Buffer<T>): multiset<T>
  {
    (if b.slot0.Some? then multiset{b.slot0.value} else multiset{})
    + (if b.slot1.Some? then multiset{b.slot1.value} else multiset{})
  }

  /** A fresh buffer: both slots empty, slot 0 selected. */
  function New<T>(): (b: Buffer<T>)
    ensures Read(b) == None
    ensures Held(b) == multiset{}
  {
    Buffer(None, None, false)
  }

  /** The frame in the currently selected slot, if any: always one the
      buffer holds, and none when it holds nothing. */
  function Read<T>(b: Buffer<T>): (r: Option<T>)
    ensures r.Some? ==> r.value in Held(b)
    ensures Held(b) == multiset{} ==> r.None?
  {
    Slot(b, b.reading)
  }

  /** The new state after a write, and the handle the write took out of the
      slot it overwrote (the buffer's reference to it is released). */
  datatype Written<T> = Written(buffer: Buffer<T>, released: Option<T>)

  /** Stores `frame` in the slot opposite the selector, then flips the
      selector to publish it. */
  function Write<T>(b: Buffer<T>, frame: T): (w: Written<T>)
    ensures Read(w.buffer) == Some(frame)
    ensures w.buffer.reading == !b.reading
    ensures Slot(w.buffer, b.reading) == Read(b)
    ensures w.released == Slot(b, !b.reading)
    ensures Held(w.buffer) + (if w.released.Some? then multiset{w.released.value} else multiset{})
            == Held(b) + multiset{frame}
  {
    var writing := !b.reading;
    var stored := if writing then b.(slot1 := Some(frame)) else b.(slot0 := Some(frame));
    Written(stored.(reading := writing), Slot(b, writing))
  }

  /** The handles released when the buffer itself is dropped: one per
      non-empty slot. */
  function Drop<T>(b: Buffer<T>): (released: seq<T>)
    ensures multiset(released) == Held(b)
    ensures |released| <= 2
  {
    (if b.slot0.Some? then [b.slot0.value] else [])
    + (if b.slot1.Some? then [b.slot1.value] else [])
  }

  /** The state after writing `ws` in order into a fresh buffer, and the
      handles those writes released, in release order. */
  datatype History<T> = History(buffer: Buffer<T>, released: seq<T>)

  function WriteAll<T>(ws: seq<T>): History<T>
  {
    if |ws| == 0 then History(New(), [])
    else
      var h := WriteAll(ws[..|ws| - 1]);
      var w := Write(h.buffer, ws[|ws| - 1]);
      History(w.buffer, h.released + (if w.released.Some? then [w.released.value] else []))
  }

  /** After writes w1..wn, the readable slot holds wn and the other slot holds
      w(n-1) (or nothing when n == 1); a fresh buffer reads nothing. */
  lemma {:induction false} LatestWins<T>(ws: seq<T>)
    ensures |ws| == 0 ==> Read(WriteAll(ws).buffer) == None
    ensures |ws| >= 1 ==> Read(WriteAll(ws).buffer) == Some(ws[|ws| - 1])
    ensures |ws| >= 1 ==>
      Slot(WriteAll(ws).buffer, !WriteAll(ws).buffer.reading)
        == (if |ws| >= 2 then Some(ws[|ws| - 2]) else None)
  {
    if |ws| >= 1 {
      var init := ws[..|ws| - 1];
      LatestWins(init);
      if |init| >= 1 {
        assert init[|init| - 1] == ws[|ws| - 2];
      }
    }
  }

  /** Each write releases exactly the handle written two writes earlier, so
      the handles released by n writes are the first n-2 written, in order. */
  lemma {:induction false} WritesReleaseTwoBehind<T>(ws: seq<T>)
    ensures WriteAll(ws).released == (if |ws| >= 2 then ws[..|ws| - 2] else [])
  {
    if |ws| >= 1 {
      var init := ws[..|ws| - 1];
      WritesReleaseTwoBehind(init);
      LatestWins(init);
      if |init| >= 2 {
        assert init[..|init| - 2] + [ws[|ws| - 3]] == ws[..|ws| - 2];
      }
    }
  }

  /** The buffer holds exactly the (at most two) most recently written
      handles. */
  lemma {:induction false} RetainsLastTwo<T>(ws: seq<T>)
    ensures Held(WriteAll(ws).buffer) == multiset(ws[(if |ws| >= 2 then |ws| - 2 else 0)..])
  {
    var b := WriteAll(ws).buffer;
    LatestWins(ws);
    if |ws| == 0 {
      assert b == New<T>();
    } else if |ws| == 1 {
      HeldOf(b, ws[0], None);
      assert ws[0..] == [ws[0]];
    } else {
      HeldOf(b, ws[|ws| - 1], Some(ws[|ws| - 2]));
      assert ws[|ws| - 2..] == [ws[|ws| - 2]] + [ws[|ws| - 1]];
    }
  }

  /** The held handles of a buffer whose readable slot holds `readable` and
      whose other slot holds `other`. */
  lemma {:induction false} HeldOf<T>(b: Buffer<T>, readable: T, other: Option<T>)
    requires Read(b) == Some(readable) && Slot(b, !b.reading) == other
    ensures Held(b) == (if other.Some? then multiset{other.value} else multiset{}) + multiset{readable}
  {
  }

  /** No handle leaks and none is released twice: the handles released by
      the writes together with those released by dropping the buffer are
      exactly the handles written. */
  lemma {:induction false} NothingLeaks<T>(ws: seq<T>)
    ensures multiset(WriteAll(ws).released + Drop(WriteAll(ws).buffer)) == multiset(ws)
  {
    var h := WriteAll(ws);
    var k := if |ws| >= 2 then |ws| - 2 else 0;
    WritesReleaseTwoBehind(ws);
    RetainsLastTwo(ws);
    SplitCounts(ws, k);
    assert multiset(h.released + Drop(h.buffer)) == multiset(h.released) + multiset(Drop(h.buffer));
  }

  /** Cutting a sequence in two keeps every element exactly once. */
  lemma SplitCounts<T>(s: seq<T>, k: nat)
    requires k <= |s|
    ensures multiset(s[..k]) + multiset(s[k..]) == multiset(s)
  {
    assert s[..k] + s[k..] == s;
  }

  /** One step of a sequential client: a write or a read. */
  datatype Op<T> = WriteOp(frame: T) | ReadOp

  /** The frames written by `ops`, in order. */
  function Writes<T>(ops: seq<Op<T>>): (ws: seq<T>)
    ensures |ws| <= |ops|
  {
    if |ops| == 0 then []
    else Writes(ops[..|ops| - 1]) + (if ops[|ops| - 1].WriteOp? then [ops[|ops| - 1].frame] else [])
  }

  /** The most recently written frame of `ops`, if any. */
  function LastWrite<T>(ops: seq<Op<T>>): Option<T>
  {
    if |ops| == 0 then None
    else if ops[|ops| - 1].WriteOp? then Some(ops[|ops| - 1].frame)
    else LastWrite(ops[..|ops| - 1])
  }

  /** The reference behaviour: every read sees the latest write before it. */
  function ExpectedReads<T>(ops: seq<Op<T>>): seq<Option<T>>
  {
    if |ops| == 0 then []
    else
      var init := ops[..|ops| - 1];
      ExpectedReads(init) + (if ops[|ops| - 1].ReadOp? then [LastWrite(init)] else [])
  }

  /** Final state and the results of the reads, in order. */
  datatype Trace<T> = Trace(buffer: Buffer<T>, observed: seq<Option<T>>)

  /** Runs `ops` against a fresh buffer. */
  function Run<T>(ops: seq<Op<T>>): Trace<T>
  {
    if |ops| == 0 then Trace(New(), [])
    else
      var t := Run(ops[..|ops| - 1]);
      match ops[|ops| - 1]
      case WriteOp(f) => Trace(Write(t.buffer, f).buffer, t.observed)
      case ReadOp => Trace(t.buffer, t.observed + [Read(t.buffer)])
  }

  /** Freshest wins: every read returns the frame of the latest write before
      it, or nothing when no write came before it. */
  lemma {:induction false} ReadsSeeLatestWrite<T>(ops: seq<Op<T>>)
    ensures Read(Run(ops).buffer) == LastWrite(ops)
    ensures Run(ops).observed == ExpectedReads(ops)
  {
    if |ops| > 0 {
      ReadsSeeLatestWrite(ops[..|ops| - 1]);
    }
  }

  /** Reads repeat: two reads with no write between them see the same frame. */
  lemma {:induction false} RepeatedReadsAgree<T>(ops: seq<Op<T>>)
    ensures |Run(ops + [ReadOp, ReadOp]).observed| >= 2
    ensures var r := Run(ops + [ReadOp, ReadOp]).observed;
            r[|r| - 1] == r[|r| - 2] == LastWrite(ops)
  {
    var ops1 := ops + [ReadOp];
    var ops2 := ops1 + [ReadOp];
    assert ops + [ReadOp, ReadOp] == ops2;
    assert ops2[..|ops2| - 1] == ops1;
    assert ops1[..|ops1| - 1] == ops;
    ReadsSeeLatestWrite(ops);
  }

  /** Every frame a read observes was written. */
  lemma {:induction false} LatestIsWritten<T>(ops: seq<Op<T>>)
    ensures LastWrite(ops).Some? ==> LastWrite(ops).value in Writes(ops)
    ensures LastWrite(ops).Some? ==> LastWrite(ops).value == Writes(ops)[|Writes(ops)| - 1]
  {
    if |ops| > 0 {
      LatestIsWritten(ops[..|ops| - 1]);
    }
  }

  /** Frames are written in non-decreasing `stamp` order. */
  ghost predicate StampsNonDecreasing<T>(stamp: T -> int, ws: seq<T>)
  {
    forall i, j | 0 <= i < j < |ws| :: stamp(ws[i]) <= stamp(ws[j])
  }

  /** The stamps of the frames successive reads observe, skipping reads
      that found nothing. */
  function ObservedStamps<T>(stamp: T -> int, obs: seq<Option<T>>): seq<int>
  {
    if |obs| == 0 then []
    else
      ObservedStamps(stamp, obs[..|obs| - 1])
      + (if obs[|obs| - 1].Some? then [stamp(obs[|obs| - 1].value)] else [])
  }

  ghost predicate Sorted(xs: seq<int>)
  {
    forall i, j | 0 <= i < j < |xs| :: xs[i] <= xs[j]
  }

  /** When frames are written with non-decreasing timestamps, a sequential
      reader never sees the timestamp go backwards, and never sees a frame
      newer than the latest write. */
  lemma {:induction false} ReadStampsMonotone<T>(stamp: T -> int, ops: seq<Op<T>>)
    requires StampsNonDecreasing(stamp, Writes(ops))
    ensures Sorted(ObservedStamps(stamp, Run(ops).observed))
    ensures LastWrite(ops).Some? ==>
      Below(ObservedStamps(stamp, Run(ops).observed), stamp(LastWrite(ops).value))
  {
    if |ops| > 0 {
      var init := ops[..|ops| - 1];
      WritesPrefixOrdered(stamp, ops);
      ReadStampsMonotone(stamp, init);
      ReadsSeeLatestWrite(init);
      var before := ObservedStamps(stamp, Run(init).observed);
      match ops[|ops| - 1]
      case WriteOp(f) =>
        assert Run(ops).observed == Run(init).observed;
        if LastWrite(init).Some? {
          LastWriteStampBelow(stamp, ops);
          BoundRaised(before, stamp(LastWrite(init).value), stamp(f));
        } else {
          EmptyBeforeFirstWrite(init);
          assert before == [];
        }
      case ReadOp =>
        var o := LastWrite(init);
        assert Run(ops).observed == Run(init).observed + [o];
        ObservedStampsSnoc(stamp, Run(init).observed, o);
        if o.Some? {
          SortedSnoc(before, stamp(o.value));
        }
    }
  }

  /** Every element of `xs` is at most `bound`. */
  ghost predicate Below(xs: seq<int>, bound: int)
  {
    forall k | 0 <= k < |xs| :: xs[k] <= bound
  }

  lemma {:induction false} BoundRaised(xs: seq<int>, lo: int, hi: int)
    requires Below(xs, lo) && lo <= hi
    ensures Below(xs, hi)
  {
  }

  /** Appending an upper bound keeps a sorted sequence sorted, and bounded
      by that element. */
  lemma {:induction false} SortedSnoc(xs: seq<int>, x: int)
    requires Sorted(xs) && Below(xs, x)
    ensures Sorted(xs + [x]) && Below(xs + [x], x)
  {
  }

  /** A write does not go back in time: with non-decreasing stamps, the
      frame written last before the final write is stamped no later. */
  lemma {:induction false} LastWriteStampBelow<T>(stamp: T -> int, ops: seq<Op<T>>)
    requires |ops| > 0 && ops[|ops| - 1].WriteOp?
    requires StampsNonDecreasing(stamp, Writes(ops))
    requires LastWrite(ops[..|ops| - 1]).Some?
    ensures stamp(LastWrite(ops[..|ops| - 1]).value) <= stamp(ops[|ops| - 1].frame)
  {
    var init := ops[..|ops| - 1];
    var ws := Writes(ops);
    var wsInit := Writes(init);
    assert ws == wsInit + [ops[|ops| - 1].frame];
    LatestIsWritten(init);
    assert ws[|wsInit| - 1] == wsInit[|wsInit| - 1];
    assert ws[|ws| - 1] == ops[|ops| - 1].frame;
  }

  /** The writes before the last operation are ordered when all are. */
  lemma {:induction false} WritesPrefixOrdered<T>(stamp: T -> int, ops: seq<Op<T>>)
    requires |ops| > 0
    requires StampsNonDecreasing(stamp, Writes(ops))
    ensures StampsNonDecreasing(stamp, Writes(ops[..|ops| - 1]))
  {
    var ws := Writes(ops);
    var wsInit := Writes(ops[..|ops| - 1]);
    assert wsInit == ws[..|wsInit|];
    forall i, j | 0 <= i < j < |wsInit|
      ensures stamp(wsInit[i]) <= stamp(wsInit[j])
    {
      assert wsInit[i] == ws[i] && wsInit[j] == ws[j];
    }
  }

  lemma {:induction false} ObservedStampsSnoc<T>(stamp: T -> int, obs: seq<Option<T>>, o: Option<T>)
    ensures ObservedStamps(stamp, obs + [o])
            == ObservedStamps(stamp, obs) + (if o.Some? then [stamp(o.value)] else [])
  {
    assert (obs + [o])[..|obs|] == obs;
  }

  /** Before any write every read finds nothing, so no stamp is observed. */
  lemma {:induction false} EmptyBeforeFirstWrite<T>(ops: seq<Op<T>>)
    requires LastWrite(ops).None?
    ensures forall stamp: T -> int :: ObservedStamps(stamp, Run(ops).observed) == []
  {
    if |ops| > 0 {
      var init := ops[..|ops| - 1];
      EmptyBeforeFirstWrite(init);
      ReadsSeeLatestWrite(init);
      assert Run(ops).observed == Run(init).observed + [None];
      forall stamp: T -> int
        ensures ObservedStamps(stamp, Run(ops).observed) == []
      {
        assert Run(ops).observed[..|Run(ops).observed| - 1] == Run(init).observed;
      }
    }
  }
}
