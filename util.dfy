/**
 * The two helpers of the quiz: an in-place Fisher-Yates shuffle and a
 * random pick. `Math.random()` is not modelled; each of its draws is
 * supplied by the caller as a real in [0, 1), the range it promises.
 */
module Util {
  import opened Wrappers

  /** A draw from `Math.random()`. */
  predicate IsDraw(r: real) {
    0.0 <= r < 1.0
  }

  /** `Math.floor(r * n)`: an index below `n` when `n` is positive, 0 when it is 0. */
  function Scale(r: real, n: nat): (j: int)
    requires IsDraw(r)
    ensures n == 0 ==> j == 0
    ensures n > 0 ==> 0 <= j < n
  {
    assert 0.0 <= r * n as real <= n as real by {
      ScaleBound(r, n as real);
    }
    (r * n as real).Floor
  }

  lemma ScaleBound(r: real, x: real)
    requires IsDraw(r) && x >= 0.0
    ensures 0.0 <= r * x <= x
    ensures x > 0.0 ==> r * x < x
  {
    assert x - r * x == (1.0 - r) * x;
  }

  /** `s` with the elements at `i` and `j` exchanged. */
  function Swap<T>(s: seq<T>, i: nat, j: nat): seq<T>
    requires i < |s| && j < |s|
  {
    seq(|s|, p requires 0 <= p < |s| => if p == j then s[i] else if p == i then s[j] else s[p])
  }

  /** A swap rearranges the elements and loses none. */
  lemma SwapPermutes<T>(s: seq<T>, i: nat, j: nat)
    requires i < |s| && j < |s|
    ensures multiset(Swap(s, i, j)) == multiset(s)
  {
    var t := s[i := s[j]];
    assert Swap(s, i, j) == t[j := s[i]];
    assert multiset(t) == multiset(s) - multiset{s[i]} + multiset{s[j]};
    assert multiset(t[j := s[i]]) == multiset(t) - multiset{t[j]} + multiset{s[i]};
  }

  /** Every draw of `draws` is a draw of `Math.random()`. */
  predicate AreDraws(draws: seq<real>) {
    forall k :: 0 <= k < |draws| ==> IsDraw(draws[k])
  }

  /** How many passes the shuffle loop makes over an array of length `n`. */
  function Passes(n: nat): nat {
    if n == 0 then 0 else n - 1
  }

  /**
   * Index choices the loop can make on an array of length `n`: one per pass,
   * and pass `p + 1`, which runs with `i == n - 1 - p`, picks `j` in `[0, i]`.
   */
  predicate ValidChoices(n: nat, js: seq<nat>) {
    |js| == Passes(n) && forall p :: 0 <= p < |js| ==> js[p] < n - p
  }

  /** The `j` of every pass: `Math.floor(draw * (i + 1))`. */
  function Choices(draws: seq<real>, n: nat): (js: seq<nat>)
    requires Passes(n) <= |draws| && AreDraws(draws)
    ensures ValidChoices(n, js)
    ensures forall p :: 0 <= p < |js| ==> js[p] == Scale(draws[p], n - p)
  {
    seq(Passes(n), p requires 0 <= p < Passes(n) => Scale(draws[p], n - p))
  }

  /**
   * The array after the first `k` passes of the shuffle loop: pass `k` runs
   * with `i == |s| - k` and swaps positions `i` and `js[k - 1]`.
   */
  function Shuffled<T>(s: seq<T>, js: seq<nat>, k: nat): (t: seq<T>)
    requires ValidChoices(|s|, js) && k <= |js|
    ensures |t| == |s|
  {
    if k == 0 then s
    else Swap(Shuffled(s, js, k - 1), |s| - k, js[k - 1])
  }

  /** The shuffle is a permutation of its input. */
  lemma {:induction false} ShuffledPermutes<T>(s: seq<T>, js: seq<nat>, k: nat)
    requires ValidChoices(|s|, js) && k <= |js|
    ensures multiset(Shuffled(s, js, k)) == multiset(s)
  {
    if k > 0 {
      var prev := Shuffled(s, js, k - 1);
      calc {
        multiset(Shuffled(s, js, k));
        multiset(Swap(prev, |s| - k, js[k - 1]));
        { SwapPermutes(prev, |s| - k, js[k - 1]); }
        multiset(prev);
        { ShuffledPermutes(s, js, k - 1); }
        multiset(s);
      }
    }
  }

  /**
   * Pass `k` exchanges position `i == |s| - k` with the chosen position `j`
   * in `[0, i]`, and no other position changes.
   */
  lemma PassSwaps<T>(s: seq<T>, js: seq<nat>, k: nat)
    requires ValidChoices(|s|, js) && 0 < k <= |js|
    ensures var i := |s| - k;
            var j := js[k - 1];
            var before := Shuffled(s, js, k - 1);
            var after := Shuffled(s, js, k);
            && 0 <= j <= i
            && after[i] == before[j] && after[j] == before[i]
            && forall p :: 0 <= p < |s| && p != i && p != j ==> after[p] == before[p]
  {
  }

  /** Arrays of length 0 or 1 go through no pass and are left as they are. */
  lemma ShortUnchanged<T>(s: seq<T>, js: seq<nat>)
    requires |s| <= 1 && ValidChoices(|s|, js)
    ensures Shuffled(s, js, |js|) == s
  {
  }

  /**
   * Pass `k` settles position `|s| - k`: later passes only swap below it, so
   * what the last `k` positions hold after `k` passes is what they hold at the end.
   */
  lemma {:induction false} SettledStays<T>(s: seq<T>, js: seq<nat>, k: nat, k2: nat, p: nat)
    requires ValidChoices(|s|, js) && k <= k2 <= |js|
    requires |s| - k <= p < |s|
    ensures Shuffled(s, js, k2)[p] == Shuffled(s, js, k)[p]
  {
    if k2 > k {
      SettledStays(s, js, k, k2 - 1, p);
    }
  }

  /**
   * `shuffle(array)`: reorders `a` in place, by the draws, and returns the
   * same array.
   */
  method Shuffle<T>(a: array<T>, draws: seq<real>) returns (r: array<T>)
    requires Passes(a.Length) <= |draws| && AreDraws(draws)
    modifies a
    ensures r == a
    ensures a[..] == Shuffled(old(a[..]), Choices(draws, a.Length), Passes(a.Length))
  {
    ghost var s := a[..];
    ghost var js := Choices(draws, a.Length);
    var i := a.Length - 1;
    while i > 0
      invariant a.Length == 0 ==> i == -1
      invariant a.Length > 0 ==> 0 <= i < a.Length
      invariant a.Length > 0 ==> a[..] == Shuffled(s, js, a.Length - 1 - i)
      decreases i
    {
      var j := Scale(draws[a.Length - 1 - i], i + 1);
      assert j == js[a.Length - 1 - i];
      var temp := a[i];
      a[i] := a[j];
      a[j] := temp;
      i := i - 1;
    }
    r := a;
  }

  /**
   * `chooseRandom(array)`: the element at `floor(draw * length)`, or `None`
   * for the `undefined` that indexing an empty array gives.
   */
  function ChooseRandom<T>(a: seq<T>, draw: real): (r: Option<T>)
    requires IsDraw(draw)
    ensures r.None? <==> |a| == 0
    ensures r.Some? ==> r.value in a
    ensures r.Some? ==> exists j :: 0 <= j < |a| && r.value == a[j] && j == Scale(draw, |a|)
  {
    var j := Scale(draw, |a|);
    if 0 <= j < |a| then Some(a[j]) else None
  }
}
