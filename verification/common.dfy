/** Small shared vocabulary: bytes, optional values, results and the
    sequence folds (concatenation, sums) the other modules state their
    contracts with. */
module Common {

  /** An unsigned 8-bit value, as stored in frame buffers and bitstreams. */
  newtype byte = x: int | 0 <= x < 256

  /** The largest value of a Rust `u32`. */
  const U32_MAX: nat := 0xFFFF_FFFF

  /** The largest value of a Rust `u64`. */
  const U64_MAX: nat := 0xFFFF_FFFF_FFFF_FFFF

  datatype Option<+T> = None | Some(value: T) {
    function GetOr(default: T): T {
      match this
      case Some(v) => v
      case None => default
    }
  }

  datatype Result<+T, +E> = Ok(value: T) | Err(error: E)

  /** Concatenation of a sequence of sequences, left to right. */
  function Flatten<T>(xss: seq<seq<T>>): seq<T>
  {
    if |xss| == 0 then [] else Flatten(xss[..|xss| - 1]) + xss[|xss| - 1]
  }

  lemma {:induction false} FlattenAppend<T>(xss: seq<seq<T>>, yss: seq<seq<T>>)
    ensures Flatten(xss + yss) == Flatten(xss) + Flatten(yss)
    decreases |yss|
  {
    if |yss| == 0 {
      assert xss + yss == xss;
    } else {
      var init := yss[..|yss| - 1];
      assert (xss + yss)[..|xss + yss| - 1] == xss + init;
      FlattenAppend(xss, init);
    }
  }

  lemma {:induction false} FlattenCons<T>(xss: seq<seq<T>>)
    requires |xss| > 0
    ensures Flatten(xss) == xss[0] + Flatten(xss[1..])
  {
    FlattenAppend([xss[0]], xss[1..]);
    assert [xss[0]] + xss[1..] == xss;
    assert Flatten([xss[0]]) == Flatten([xss[0]][..0]) + xss[0];
    assert [xss[0]][..0] == [];
  }

  /** Sum of a sequence of integers. */
  function Sum(xs: seq<int>): int
  {
    if |xs| == 0 then 0 else Sum(xs[..|xs| - 1]) + xs[|xs| - 1]
  }

  lemma {:induction false} SumAppend(xs: seq<int>, ys: seq<int>)
    ensures Sum(xs + ys) == Sum(xs) + Sum(ys)
    decreases |ys|
  {
    if |ys| == 0 {
      assert xs + ys == xs;
    } else {
      var init := ys[..|ys| - 1];
      assert (xs + ys)[..|xs + ys| - 1] == xs + init;
      SumAppend(xs, init);
    }
  }

  /** The values `f` extracts from the elements of `xs`, in order; elements
      for which `f` gives `None` are skipped. */
  function Pick<T, U>(xs: seq<T>, f: T -> Option<U>): seq<U>
  {
    if |xs| == 0 then []
    else Pick(xs[..|xs| - 1], f) + (match f(xs[|xs| - 1]) case Some(u) => [u] case None => [])
  }

  lemma {:induction false} PickOne<T, U>(x: T, f: T -> Option<U>)
    ensures Pick([x], f) == (match f(x) case Some(u) => [u] case None => [])
  {
    assert [x][..0] == [];
  }

  /** One more element of a prefix: its pick, if any, goes on the end. */
  lemma PickStep<T, U>(xs: seq<T>, i: nat, f: T -> Option<U>)
    requires i < |xs|
    ensures Pick(xs[..i + 1], f) == Pick(xs[..i], f) + (match f(xs[i]) case Some(u) => [u] case None => [])
  {
    assert xs[..i + 1][..i] == xs[..i];
  }

  lemma {:induction false} PickAppend<T, U>(xs: seq<T>, ys: seq<T>, f: T -> Option<U>)
    ensures Pick(xs + ys, f) == Pick(xs, f) + Pick(ys, f)
    decreases |ys|
  {
    if |ys| == 0 {
      assert xs + ys == xs;
    } else {
      var init := ys[..|ys| - 1];
      assert (xs + ys)[..|xs + ys| - 1] == xs + init;
      PickAppend(xs, init, f);
    }
  }

  /** The positions of the elements `Pick` keeps, in order. */
  ghost function Selected<T, U>(xs: seq<T>, f: T -> Option<U>): seq<nat>
  {
    if |xs| == 0 then []
    else Selected(xs[..|xs| - 1], f) + (if f(xs[|xs| - 1]).Some? then [|xs| - 1] else [])
  }

  /** `Pick` keeps exactly the elements `f` accepts, in their order: its
      k-th value comes from the k-th accepted position, the positions
      increase, and every accepted position is among them. */
  lemma {:induction false} PickSelects<T, U>(xs: seq<T>, f: T -> Option<U>)
    ensures |Selected(xs, f)| == |Pick(xs, f)|
    ensures forall k | 0 <= k < |Selected(xs, f)| ::
      Selected(xs, f)[k] < |xs| && f(xs[Selected(xs, f)[k]]) == Some(Pick(xs, f)[k])
    ensures forall k, l | 0 <= k < l < |Selected(xs, f)| :: Selected(xs, f)[k] < Selected(xs, f)[l]
    ensures forall i | 0 <= i < |xs| && f(xs[i]).Some? :: i in Selected(xs, f)
    decreases |xs|
  {
    if |xs| > 0 {
      var n := |xs| - 1;
      var init := xs[..n];
      PickSelects(init, f);
      forall i | 0 <= i < n
        ensures init[i] == xs[i]
      {
      }
    }
  }

  /** A slice of a slice is a slice of the whole. */
  lemma SliceOfSlice<T>(s: seq<T>, lo: nat, hi: nat, i: nat, j: nat)
    requires lo <= hi <= |s| && i <= j <= hi - lo
    ensures s[lo..hi][i..j] == s[lo + i..lo + j]
  {
    var a := s[lo..hi][i..j];
    var b := s[lo + i..lo + j];
    assert |a| == |b|;
    forall k | 0 <= k < |a|
      ensures a[k] == b[k]
    {
      assert a[k] == s[lo..hi][i + k] == s[lo + i + k];
    }
  }

  /** Adjacent slices join. */
  lemma SliceJoin<T>(s: seq<T>, i: nat, j: nat, k: nat)
    requires i <= j <= k <= |s|
    ensures s[i..j] + s[j..k] == s[i..k]
  {
  }
}
