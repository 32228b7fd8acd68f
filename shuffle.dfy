/** The harness's in-place Fisher-Yates shuffle of an array of fixed-size
    records. Step `i` swaps record `i` with record `j`, where `j` is computed
    from the value `rand()` returns and always lies in `[i, numels)`. */
module Shuffle {

  /** `RAND_MAX` of the C library (glibc's value). */
  const RandMax: nat := 0x7fff_ffff

  /** Every value in `draws` is one `rand()` can return. */
  predicate ValidDraws(draws: seq<nat>)
  {
    forall t :: 0 <= t < |draws| ==> draws[t] <= RandMax
  }

  /** The index step `i` of a shuffle of `n` records swaps with, given the
      draw `r`: `i + r / (RAND_MAX / (n - i) + 1)`. For every value `rand()`
      can return it lies in the part not yet placed, `[i, n)`. */
  function Pick(n: nat, i: nat, r: nat): (j: nat)
    requires i < n
    ensures i <= j
    ensures r <= RandMax ==> j < n
  {
    var scaled := r / (RandMax / (n - i) + 1);
    if r <= RandMax then ScaledBelow(n - i, r); i + scaled else i + scaled
  }

  lemma DivBelow(r: nat, d: nat, m: nat)
    requires d >= 1 && r < d * m
    ensures r / d < m
  {
    var k := r / d;
    assert k * d <= r;
  }

  /** Dividing a draw by `RAND_MAX / m + 1` gives a value below `m`. */
  lemma ScaledBelow(m: nat, r: nat)
    requires m >= 1 && r <= RandMax
    ensures r / (RandMax / m + 1) < m
  {
    var q := RandMax / m;
    assert RandMax == q * m + RandMax % m;
    assert RandMax < (q + 1) * m;
    DivBelow(r, q + 1, m);
  }

  function Swap<T>(s: seq<T>, i: nat, j: nat): (r: seq<T>)
    requires i < |s| && j < |s|
    ensures |r| == |s| && r[i] == s[j] && r[j] == s[i]
    ensures forall k :: 0 <= k < |s| && k != i && k != j ==> r[k] == s[k]
  {
    s[i := s[j]][j := s[i]]
  }

  /** Exchanging two records keeps the same records. */
  lemma SwapPermutes<T>(s: seq<T>, i: nat, j: nat)
    requires i < |s| && j < |s|
    ensures multiset(Swap(s, i, j)) == multiset(s)
  {
  }

  /** Step `t` swaps with some `js[t]` among the records not placed yet. */
  predicate ValidPicks(js: seq<nat>, n: nat)
  {
    forall t :: 0 <= t < |js| ==> t <= js[t] < n
  }

  /** The indices the loop swaps with, one per step, given the draws. */
  function Picks(n: nat, draws: seq<nat>): (js: seq<nat>)
    requires n >= 1 && |draws| >= n - 1 && ValidDraws(draws)
    ensures |js| == n - 1 && ValidPicks(js, n)
    ensures forall t :: 0 <= t < n - 1 ==> js[t] == Pick(n, t, draws[t])
  {
    var js := seq(n - 1, t requires 0 <= t < n - 1 => Pick(n, t, draws[t]));
    js
  }

  /** The records after the first `k` steps of the loop, step `t` swapping
      positions `t` and `js[t]`. */
  function Steps<T>(s: seq<T>, js: seq<nat>, k: nat): (r: seq<T>)
    requires k <= |js| && ValidPicks(js, |s|)
    ensures |r| == |s|
    decreases k
  {
    if k == 0 then s
    else Swap(Steps(s, js, k - 1), k - 1, js[k - 1])
  }

  /** Every prefix of the loop leaves a permutation of the original records. */
  lemma {:induction false} StepsPermutes<T>(s: seq<T>, js: seq<nat>, k: nat)
    requires k <= |js| && ValidPicks(js, |s|)
    ensures multiset(Steps(s, js, k)) == multiset(s)
    decreases k
  {
    if k > 0 {
      StepsPermutes(s, js, k - 1);
      SwapPermutes(Steps(s, js, k - 1), k - 1, js[k - 1]);
    }
  }

  /** Once step `t` has placed a record at position `t`, no later step moves
      it: position `t` is final after `t + 1` steps. */
  lemma {:induction false} StepsKeepPlaced<T>(s: seq<T>, js: seq<nat>, t: nat, k: nat)
    requires t < k <= |js| && ValidPicks(js, |s|)
    ensures Steps(s, js, k)[t] == Steps(s, js, t + 1)[t]
    decreases k
  {
    if k > t + 1 {
      StepsKeepPlaced(s, js, t, k - 1);
    }
  }

  /** The record step `t` places is drawn from the records not placed yet. */
  lemma StepDrawsFromRest<T>(s: seq<T>, js: seq<nat>, t: nat)
    requires t < |js| && ValidPicks(js, |s|)
    ensures Steps(s, js, t + 1)[t] in Steps(s, js, t)[t..]
  {
    var prev := Steps(s, js, t);
    assert Steps(s, js, t + 1)[t] == prev[js[t]] == prev[t..][js[t] - t];
  }

  /** The three `memcpy`s through `tmp` that exchange records `i` and `j`. */
  method SwapRecords<T>(a: array<T>, i: nat, j: nat)
    requires i < a.Length && j < a.Length
    modifies a
    ensures a[..] == Swap(old(a[..]), i, j)
  {
    var tmp := a[j];
    a[j] := a[i];
    a[i] := tmp;
  }

  /** `shuffle(array, numels, elsize)`: one record of `elsize` bytes is one
      element of `a`. `numels` must be at least 1, since `numels - 1` is
      computed in `size_t`. */
  method Shuffle<T>(a: array<T>, draws: seq<nat>)
    requires a.Length >= 1
    requires |draws| >= a.Length - 1 && ValidDraws(draws)
    modifies a
    ensures a[..] == Steps(old(a[..]), Picks(a.Length, draws), a.Length - 1)
    ensures multiset(a[..]) == multiset(old(a[..]))
  {
    ghost var s0 := a[..];
    ghost var js := Picks(a.Length, draws);
    var i := 0;
    while i < a.Length - 1
      invariant 0 <= i <= a.Length - 1
      invariant a[..] == Steps(s0, js, i)
    {
      var j := Pick(a.Length, i, draws[i]);
      assert j == js[i];
      SwapRecords(a, i, j);
      i := i + 1;
    }
    StepsPermutes(s0, js, a.Length - 1);
  }
}
