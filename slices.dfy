/** The slice and iterator adaptors the flat grid is built on: `Vec::resize`,
    `Vec::resize_with`, `slice::fill`, `slice::chunks`, `Iterator::take` and
    `Iterator::step_by`, as functions on sequences. */
module Slices {
  import opened Ints

  function Min(a: int, b: int): int { if a < b then a else b }

  /** `usize::saturating_sub`. */
  function SaturatingSub(a: nat, b: nat): (r: nat)
    ensures r == if a < b then 0 else a - b
  {
    if a < b then 0 else a - b
  }

  /** `Vec::resize(n, value)`: truncates, or pads with copies of `value`. */
  function Resize<T>(s: seq<T>, n: nat, value: T): (r: seq<T>)
    ensures |r| == n
    ensures forall i :: 0 <= i < n ==> r[i] == if i < |s| then s[i] else value
  {
    if n <= |s| then s[..n] else s + seq(n - |s|, _ => value)
  }

  /** `Vec::resize_with(n, f)`: truncates, or pads with values produced by `f`. */
  function ResizeWith<T>(s: seq<T>, n: nat, f: () -> T): (r: seq<T>)
    ensures |r| == n
    ensures forall i :: 0 <= i < n ==> r[i] == if i < |s| then s[i] else f()
  {
    if n <= |s| then s[..n] else s + seq(n - |s|, _ => f())
  }

  /** `slice::fill(value)`: every element becomes `value`. */
  function Fill<T>(s: seq<T>, value: T): (r: seq<T>)
    ensures |r| == |s|
    ensures forall i :: 0 <= i < |r| ==> r[i] == value
  {
    seq(|s|, _ => value)
  }

  /** Filling twice with one value is filling once. */
  lemma FillIdempotent<T>(s: seq<T>, value: T)
    ensures Fill(Fill(s, value), value) == Fill(s, value)
  {
  }

  /** `Iterator::take(n)`: at most the first `n` items. */
  function Take<T>(s: seq<T>, n: nat): (r: seq<T>)
    ensures |r| == Min(n, |s|)
    ensures r == s[..|r|]
  {
    if n < |s| then s[..n] else s
  }

  /** `slice::chunks(w)`: consecutive pieces of `w` elements, the last one possibly
      shorter. A width of zero panics. */
  function Chunks<T>(s: seq<T>, w: nat): seq<seq<T>>
    requires w > 0
    decreases |s|
  {
    if |s| == 0 then []
    else if |s| <= w then [s]
    else [s[..w]] + Chunks(s[w..], w)
  }

  /** A slice of exactly `n` rows of width `w` is chunked into `n` pieces. */
  lemma {:induction false} ChunksCount<T>(s: seq<T>, w: nat, n: nat)
    requires w > 0 && |s| == n * w
    ensures |Chunks(s, w)| == n
    decreases n
  {
    if n > 1 {
      MulPred(n, w);
      MulAtLeast(n - 1, w);
      ChunksCount(s[w..], w, n - 1);
    }
  }

  /** Row `k` of a slice of `n` rows of width `w` is the slice `[k * w, (k + 1) * w)`. */
  lemma {:induction false} ChunkAt<T>(s: seq<T>, w: nat, n: nat, k: nat)
    requires w > 0 && |s| == n * w && k < n
    ensures |Chunks(s, w)| == n
    ensures (k + 1) * w <= |s| && Chunks(s, w)[k] == s[k * w..(k + 1) * w]
    decreases k
  {
    ChunksCount(s, w, n);
    MulSucc(k, w);
    MulMonotone(k + 1, n, w);
    if k > 0 {
      MulPred(n, w);
      MulAtLeast(n - 1, w);
      ChunksCount(s[w..], w, n - 1);
      ChunkAfterFirst(s, w, n, k);
      ChunkAt(s[w..], w, n - 1, k - 1);
      ShiftedSlice(s, w, k);
    }
  }

  lemma ChunkAfterFirst<T>(s: seq<T>, w: nat, n: nat, k: nat)
    requires w > 0 && |s| == n * w && 0 < k < n && |Chunks(s[w..], w)| == n - 1
    ensures Chunks(s, w)[k] == Chunks(s[w..], w)[k - 1]
  {
    MulPred(n, w);
    MulAtLeast(n - 1, w);
    assert Chunks(s, w) == [s[..w]] + Chunks(s[w..], w);
  }

  /** The slice `[(k - 1) * w, k * w)` after the first `w` elements is `[k * w, (k + 1) * w)`. */
  lemma ShiftedSlice<T>(s: seq<T>, w: nat, k: nat)
    requires 0 < k && w <= |s| && k * w <= |s[w..]|
    ensures (k + 1) * w <= |s| && s[w..][(k - 1) * w..k * w] == s[k * w..(k + 1) * w]
  {
    MulPred(k, w);
    MulSucc(k, w);
  }

  /** A slice of exactly `n` rows of width `w` is chunked into those `n` rows. */
  lemma ChunksOfRows<T>(s: seq<T>, w: nat, n: nat)
    requires w > 0 && |s| == n * w
    ensures |Chunks(s, w)| == n
    ensures forall k :: 0 <= k < n ==> (k + 1) * w <= |s| && Chunks(s, w)[k] == s[k * w..(k + 1) * w]
  {
    ChunksCount(s, w, n);
    forall k | 0 <= k < n
      ensures (k + 1) * w <= |s| && Chunks(s, w)[k] == s[k * w..(k + 1) * w]
    {
      ChunkAt(s, w, n, k);
    }
  }

  /** `Iterator::step_by(w)`: the first element and then every `w`-th one. A step of zero
      panics. */
  function StepBy<T>(s: seq<T>, w: nat): seq<T>
    requires w > 0
    decreases |s|
  {
    if |s| == 0 then []
    else if |s| <= w then [s[0]]
    else [s[0]] + StepBy(s[w..], w)
  }

  /** `step_by(w)` yields `ceil(|s| / w)` elements. */
  lemma {:induction false} StepByLength<T>(s: seq<T>, w: nat)
    requires w > 0
    ensures (|StepBy(s, w)| - 1) * w < |s| <= |StepBy(s, w)| * w
    decreases |s|
  {
    if |s| > w {
      StepByLength(s[w..], w);
      var m := |StepBy(s[w..], w)|;
      MulSucc(m - 1, w);
      MulSucc(m, w);
    }
  }

  /** The `k`-th element of `step_by(w)` is `s[k * w]`. */
  lemma {:induction false} StepByAt<T>(s: seq<T>, w: nat, k: nat)
    requires w > 0 && k < |StepBy(s, w)|
    ensures k * w < |s| && StepBy(s, w)[k] == s[k * w]
    decreases k
  {
    if k > 0 {
      StepByUnfold(s, w, k);
      StepByAt(s[w..], w, k - 1);
      ShiftedIndex(s, w, k);
    }
  }

  lemma StepByUnfold<T>(s: seq<T>, w: nat, k: nat)
    requires w > 0 && 0 < k < |StepBy(s, w)|
    ensures |s| > w && k - 1 < |StepBy(s[w..], w)|
    ensures StepBy(s, w)[k] == StepBy(s[w..], w)[k - 1]
  {
  }

  /** Position `(k - 1) * w` after the first `w` elements is position `k * w`. */
  lemma ShiftedIndex<T>(s: seq<T>, w: nat, k: nat)
    requires w > 0 && |s| > w && 0 < k && (k - 1) * w < |s[w..]|
    ensures k * w < |s| && s[w..][(k - 1) * w] == s[k * w]
  {
    MulPred(k, w);
  }

  /** `step_by(w)` yields `ceil(|s| / w)` elements, the `k`-th being `s[k * w]`. */
  lemma StepByElements<T>(s: seq<T>, w: nat)
    requires w > 0
    ensures (|StepBy(s, w)| - 1) * w < |s| <= |StepBy(s, w)| * w
    ensures forall k :: 0 <= k < |StepBy(s, w)| ==> k * w < |s| && StepBy(s, w)[k] == s[k * w]
  {
    StepByLength(s, w);
    forall k | 0 <= k < |StepBy(s, w)|
      ensures k * w < |s| && StepBy(s, w)[k] == s[k * w]
    {
      StepByAt(s, w, k);
    }
  }

  /** A sequence whose length lies in `((n - 1) * w, n * w]` yields exactly `n` steps. */
  lemma StepByCount<T>(s: seq<T>, w: nat, n: nat)
    requires w > 0 && (n - 1) * w < |s| <= n * w
    ensures |StepBy(s, w)| == n
  {
    StepByElements(s, w);
    var m := |StepBy(s, w)|;
    if m > n {
      MulMonotone(n, m - 1, w);
    } else if m < n {
      MulMonotone(m, n - 1, w);
    }
  }
}
