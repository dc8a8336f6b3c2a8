/** `compress_waveform` and its `chunks` generator: the waveform is cut into consecutive
    slices of `n` samples (the last one possibly shorter) and each slice is replaced by
    its mean. */
module Chunking {

  import opened Wrappers
  import opened Sums
  import opened RealArith

  /** Concatenation of a sequence of slices. */
  function Flatten<T>(cs: seq<seq<T>>): seq<T>
  {
    if |cs| == 0 then [] else cs[0] + Flatten(cs[1..])
  }

  /** What `chunks(l, n)` yields for `n >= 1`: concatenating the slices gives `l` back,
      every slice is non-empty and at most `n` long, all but the last are exactly `n` long,
      and there are ceil(|l| / n) of them. */
  function Chunks<T>(l: seq<T>, n: nat): (cs: seq<seq<T>>)
    requires n >= 1
    ensures Flatten(cs) == l
    ensures forall j :: 0 <= j < |cs| ==> 1 <= |cs[j]| <= n
    ensures forall j :: 0 <= j < |cs| - 1 ==> |cs[j]| == n
    ensures (|cs| - 1) * n < |l| <= |cs| * n
    decreases |l|
  {
    if |l| == 0 then []
    else if |l| <= n then [l]
    else
      var rest := Chunks(l[n..], n);
      assert (|rest| - 1) * n + n == |rest| * n;
      [l[..n]] + rest
  }

  /** At most one count `c` satisfies (c - 1) * n < len <= c * n. */
  lemma CeilUnique(len: int, n: nat, c: int, q: int)
    requires n >= 1
    requires (c - 1) * n < len <= c * n
    requires (q - 1) * n < len <= q * n
    ensures c == q
  {
  }

  /** The number of slices is the ceiling of |l| / n. */
  lemma ChunkCount<T>(l: seq<T>, n: nat)
    requires n >= 1
    ensures |Chunks(l, n)| == (|l| + n - 1) / n
  {
    var q := (|l| + n - 1) / n;
    var r := (|l| + n - 1) % n;
    assert q * n + r == |l| + n - 1 && 0 <= r < n;
    assert (q - 1) * n == q * n - n;
    CeilUnique(|l|, n, |Chunks(l, n)|, q);
  }

  /** `i` capped at `len`, as Python clips a slice bound to the length. */
  function Clip(i: int, len: nat): nat
    requires 0 <= i
  {
    if i <= len then i else len
  }

  /** Slice `j` is `l[j * n : j * n + n]`, clipped to the end of `l`, exactly the slice the
      generator yields for its loop index `i = j * n`. */
  lemma {:induction false} ChunkAt<T>(l: seq<T>, n: nat, j: nat)
    requires n >= 1
    requires j < |Chunks(l, n)|
    ensures 0 <= j * n < |l|
    ensures Chunks(l, n)[j] == l[j * n .. Clip(j * n + n, |l|)]
    decreases |l|
  {
    var cs := Chunks(l, n);
    if j == 0 {
      assert |l| > 0;
    } else {
      assert |l| > n;
      var rest := l[n..];
      assert cs == [l[..n]] + Chunks(rest, n);
      ChunkAt(rest, n, j - 1);
      assert cs[j] == Chunks(rest, n)[j - 1];
      ShiftSlice(l, rest, n, j, cs[j]);
    }
  }

  /** Index arithmetic for `ChunkAt`: slice `j - 1` of `l[n:]` is slice `j` of `l`. */
  lemma ShiftSlice<T>(l: seq<T>, rest: seq<T>, n: nat, j: nat, c: seq<T>)
    requires 1 <= j && n <= |l| && rest == l[n..]
    requires 0 <= (j - 1) * n < |rest|
    requires c == rest[(j - 1) * n .. Clip((j - 1) * n + n, |rest|)]
    ensures 0 <= j * n < |l|
    ensures c == l[j * n .. Clip(j * n + n, |l|)]
  {
  }

  /** Mean of a non-empty slice. */
  function Mean(c: seq<int>): (m: real)
    requires |c| > 0
    ensures m * |c| as real == Sum(c) as real
  {
    Sum(c) as real / |c| as real
  }

  /** One mean per slice. */
  function Means(cs: seq<seq<int>>): (m: seq<real>)
    requires forall j :: 0 <= j < |cs| ==> |cs[j]| > 0
    ensures |m| == |cs|
    ensures forall j :: 0 <= j < |cs| ==> m[j] == Mean(cs[j])
  {
    if |cs| == 0 then [] else [Mean(cs[0])] + Means(cs[1..])
  }

  /** Python's `int(x)` on a float: truncation toward zero. */
  function Trunc(x: real): (i: int)
    ensures 0.0 <= x ==> i as real <= x < i as real + 1.0
    ensures x < 0.0 ==> i as real - 1.0 < x <= i as real
  {
    if x >= 0.0 then x.Floor else -((-x).Floor)
  }

  /** `compress_waveform(array, compression_rate)`. A rate that truncates to zero makes
      `range` raise, modelled as None; a negative one makes the range empty. */
  function CompressWaveform(a: seq<int>, rate: real): (r: Option<seq<real>>)
    ensures r.None? <==> Trunc(rate) == 0
    ensures Trunc(rate) < 0 ==> r == Some([])
    ensures Trunc(rate) > 0 ==> r.Some? && (|r.value| - 1) * Trunc(rate) < |a| <= |r.value| * Trunc(rate)
  {
    var n := Trunc(rate);
    if n == 0 then None
    else if n < 0 then Some([])
    else Some(Means(Chunks(a, n)))
  }

  /** Sample `j` of the compressed waveform is the mean of `a[j * n : j * n + n]`, the
      slice the generator yields at its `j`-th step. */
  lemma CompressAt(a: seq<int>, rate: real, j: nat)
    requires Trunc(rate) > 0
    requires j < |CompressWaveform(a, rate).value|
    ensures j * Trunc(rate) < |a|
    ensures CompressWaveform(a, rate).value[j] == Mean(a[j * Trunc(rate) .. Clip(j * Trunc(rate) + Trunc(rate), |a|)])
  {
    ChunkAt(a, Trunc(rate), j);
  }

  /** The mean of values within [lo, hi] is within [lo, hi]. */
  lemma MeanWithin(c: seq<int>, lo: int, hi: int)
    requires |c| > 0
    requires forall i :: 0 <= i < |c| ==> lo <= c[i] <= hi
    ensures lo as real <= Mean(c) <= hi as real
  {
    SumBounds(c, lo, hi);
    var n := |c| as real;
    IntProductAsReal(|c|, lo);
    IntProductAsReal(|c|, hi);
    DivBetween(Sum(c) as real, n, lo as real, hi as real);
  }

  /** Compression never leaves the amplitude range of the waveform. */
  lemma CompressWithinRange(a: seq<int>, rate: real, lo: int, hi: int)
    requires forall i :: 0 <= i < |a| ==> lo <= a[i] <= hi
    requires CompressWaveform(a, rate).Some?
    ensures forall j :: 0 <= j < |CompressWaveform(a, rate).value| ==>
              lo as real <= CompressWaveform(a, rate).value[j] <= hi as real
  {
    var n := Trunc(rate);
    if n > 0 {
      var cs := Chunks(a, n);
      forall j | 0 <= j < |cs|
        ensures lo as real <= Mean(cs[j]) <= hi as real
      {
        ChunkAt(a, n, j);
        MeanWithin(cs[j], lo, hi);
      }
    }
  }
}
