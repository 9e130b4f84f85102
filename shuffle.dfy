/** The Fisher-Yates shuffle that orders the quiz deck (`shuffleArray` in src/App.jsx).

    The source draws `Math.floor(Math.random() * currentIndex)` before it
    decrements `currentIndex`, so the pass that swaps position `i` draws an
    index in `[0, i]`.  The model replaces `Math.random` by an oracle: a
    sequence `rand` where `rand[i]` is the index drawn on the pass that swaps
    position `i`.
 */
module FisherYates {

  /** The oracle can only produce what `Math.floor(Math.random() * (i + 1))` produces. */
  predicate ValidDraws(rand: seq<nat>, n: nat)
  {
    |rand| == n && forall i :: 0 <= i < n ==> rand[i] <= i
  }

  /** Exchange of two positions, as the destructuring assignment of the source does it. */
  function Swap<T>(s: seq<T>, i: nat, j: nat): (r: seq<T>)
    requires i < |s| && j < |s|
    ensures |r| == |s|
    ensures r[i] == s[j] && r[j] == s[i]
    ensures forall k :: 0 <= k < |s| && k != i && k != j ==> r[k] == s[k]
  {
    seq(|s|, k requires 0 <= k < |s| => if k == j then s[i] else if k == i then s[j] else s[k])
  }

  /** The contents after the loop has run the passes for positions `|s| - 1` down to `i`. */
  function PassesFrom<T>(s: seq<T>, rand: seq<nat>, i: nat): (r: seq<T>)
    requires ValidDraws(rand, |s|) && i <= |s|
    ensures |r| == |s|
    decreases |s| - i
  {
    if i == |s| then s else Swap(PassesFrom(s, rand, i + 1), i, rand[i])
  }

  /** The order the whole loop leaves the array in. */
  function Shuffled<T>(s: seq<T>, rand: seq<nat>): seq<T>
    requires ValidDraws(rand, |s|)
  {
    PassesFrom(s, rand, 0)
  }

  /** The (i, j) pairs the passes for positions `n - 1` down to `i` swap, in the order they run. */
  function SwapsFrom(n: nat, rand: seq<nat>, i: nat): seq<(nat, nat)>
    requires |rand| == n && i <= n
    decreases n - i
  {
    if i == n then [] else SwapsFrom(n, rand, i + 1) + [(i, rand[i])]
  }

  /** In-place shuffle; returns the array it was given, as the source does. */
  method ShuffleArray<T>(a: array<T>, rand: seq<nat>) returns (b: array<T>, ghost swaps: seq<(nat, nat)>)
    requires ValidDraws(rand, a.Length)
    modifies a
    ensures b == a
    ensures a[..] == Shuffled(old(a[..]), rand)
    ensures swaps == SwapsFrom(a.Length, rand, 0)
  {
    ghost var s := a[..];
    var currentIndex := a.Length;
    swaps := [];
    while currentIndex != 0
      invariant 0 <= currentIndex <= a.Length
      invariant a[..] == PassesFrom(s, rand, currentIndex)
      invariant swaps == SwapsFrom(a.Length, rand, currentIndex)
    {
      // drawn before the decrement: an index in [0, currentIndex - 1]
      var randomIndex := rand[currentIndex - 1];
      currentIndex := currentIndex - 1;
      a[currentIndex], a[randomIndex] := a[randomIndex], a[currentIndex];
      swaps := swaps + [(currentIndex, randomIndex)];
    }
    b := a;
  }

  /** The loop runs exactly `n` passes; pass `k` swaps `i = n - 1 - k` with some `j` in `[0, i]`. */
  lemma {:induction false} SwapsInBounds(n: nat, rand: seq<nat>, i: nat)
    requires ValidDraws(rand, n) && i <= n
    ensures |SwapsFrom(n, rand, i)| == n - i
    ensures forall k :: 0 <= k < n - i ==>
      SwapsFrom(n, rand, i)[k] == (n - 1 - k, rand[n - 1 - k]) &&
      0 <= SwapsFrom(n, rand, i)[k].1 <= SwapsFrom(n, rand, i)[k].0 < n
    decreases n - i
  {
    if i < n {
      SwapsInBounds(n, rand, i + 1);
    }
  }

  lemma SwapPermutes<T>(s: seq<T>, i: nat, j: nat)
    requires i < |s| && j < |s|
    ensures multiset(Swap(s, i, j)) == multiset(s)
  {
    var r := s[i := s[j]];
    assert Swap(s, i, j) == r[j := s[i]];
    assert multiset(r) == multiset(s) - multiset{s[i]} + multiset{s[j]};
    assert multiset(r[j := s[i]]) == multiset(r) - multiset{r[j]} + multiset{s[i]};
  }

  /** Every pass only exchanges two elements: the array stays a permutation of the input. */
  lemma {:induction false} PassesPermute<T>(s: seq<T>, rand: seq<nat>, i: nat)
    requires ValidDraws(rand, |s|) && i <= |s|
    ensures multiset(PassesFrom(s, rand, i)) == multiset(s)
    decreases |s| - i
  {
    if i < |s| {
      var p := PassesFrom(s, rand, i + 1);
      assert multiset(p) == multiset(s) by { PassesPermute(s, rand, i + 1); }
      assert multiset(Swap(p, i, rand[i])) == multiset(p) by { SwapPermutes(p, i, rand[i]); }
    }
  }

  /** The shuffle keeps the length and the multiset of elements. */
  lemma ShuffledPermutes<T>(s: seq<T>, rand: seq<nat>)
    requires ValidDraws(rand, |s|)
    ensures |Shuffled(s, rand)| == |s|
    ensures multiset(Shuffled(s, rand)) == multiset(s)
  {
    PassesPermute(s, rand, 0);
  }

  /** Once the loop has moved below position `i`, positions `>= i` are never written again. */
  lemma {:induction false} SettledAbove<T>(s: seq<T>, rand: seq<nat>, k: nat, i: nat)
    requires ValidDraws(rand, |s|) && k <= i <= |s|
    ensures forall p :: i <= p < |s| ==> PassesFrom(s, rand, k)[p] == PassesFrom(s, rand, i)[p]
    decreases i - k
  {
    if k < i {
      SettledAbove(s, rand, k + 1, i);
    }
  }

  /** Lengths 0 and 1 come out unchanged. */
  lemma ShuffleDegenerate<T>(s: seq<T>, rand: seq<nat>)
    requires ValidDraws(rand, |s|) && |s| <= 1
    ensures Shuffled(s, rand) == s
  {
    if |s| == 1 {
      assert rand[0] == 0;
      assert PassesFrom(s, rand, 1) == s;
    }
  }

  /** The first pass fixes the last position; the remaining passes shuffle the prefix before it. */
  lemma {:induction false} PassesSplit<T>(s: seq<T>, rand: seq<nat>, i: nat)
    requires ValidDraws(rand, |s|) && i < |s|
    ensures ValidDraws(rand[..|s| - 1], |s| - 1)
    ensures PassesFrom(s, rand, i) ==
      PassesFrom(Swap(s, |s| - 1, rand[|s| - 1])[..|s| - 1], rand[..|s| - 1], i)
      + [Swap(s, |s| - 1, rand[|s| - 1])[|s| - 1]]
    decreases |s| - i
  {
    var n := |s|;
    var t := Swap(s, n - 1, rand[n - 1]);
    var rest := rand[..n - 1];
    assert ValidDraws(rest, n - 1);
    if i == n - 1 {
      assert PassesFrom(s, rand, n) == s;
      assert t[..n - 1] + [t[n - 1]] == t;
    } else {
      var p := PassesFrom(t[..n - 1], rest, i + 1);
      assert PassesFrom(s, rand, i + 1) == p + [t[n - 1]] by { PassesSplit(s, rand, i + 1); }
      assert rest[i] == rand[i];
      SwapBeforeLast(p, t[n - 1], i, rand[i]);
    }
  }

  lemma SwapBeforeLast<T>(p: seq<T>, x: T, i: nat, j: nat)
    requires i < |p| && j < |p|
    ensures Swap(p + [x], i, j) == Swap(p, i, j) + [x]
  {
  }

  lemma ShuffledSplit<T>(s: seq<T>, rand: seq<nat>)
    requires ValidDraws(rand, |s|) && |s| > 0
    ensures ValidDraws(rand[..|s| - 1], |s| - 1)
    ensures Shuffled(s, rand) ==
      Shuffled(Swap(s, |s| - 1, rand[|s| - 1])[..|s| - 1], rand[..|s| - 1])
      + [s[rand[|s| - 1]]]
  {
    PassesSplit(s, rand, 0);
  }

  /** Dropping equal last elements from two permutations of each other leaves permutations. */
  lemma DropLastPermutes<T>(a: seq<T>, b: seq<T>)
    requires |a| == |b| > 0 && a[|a| - 1] == b[|b| - 1] && multiset(a) == multiset(b)
    ensures multiset(a[..|a| - 1]) == multiset(b[..|b| - 1])
  {
    var n, x := |a|, a[|a| - 1];
    assert a == a[..n - 1] + [x];
    assert b == b[..n - 1] + [x];
    calc {
      multiset(a[..n - 1]);
      (multiset(a[..n - 1]) + multiset{x}) - multiset{x};
      multiset(a) - multiset{x};
      multiset(b) - multiset{x};
      (multiset(b[..n - 1]) + multiset{x}) - multiset{x};
      multiset(b[..n - 1]);
    }
  }

  /** Draws for a prefix, extended by the draw for the last position. */
  lemma ExtendDraws<T>(s: seq<T>, rest: seq<nat>, j: nat)
    requires |s| > 0 && j < |s| && ValidDraws(rest, |s| - 1)
    ensures ValidDraws(rest + [j], |s|)
    ensures Shuffled(s, rest + [j]) == Shuffled(Swap(s, |s| - 1, j)[..|s| - 1], rest) + [s[j]]
  {
    var rand := rest + [j];
    assert rand[..|s| - 1] == rest;
    ShuffledSplit(s, rand);
  }

  /** Moving the element that should end last into place leaves prefixes with equal multisets. */
  lemma SwapLastPrefix<T>(s: seq<T>, t: seq<T>, j: nat)
    requires |s| == |t| > 0 && j < |s| && multiset(s) == multiset(t) && s[j] == t[|t| - 1]
    ensures multiset(Swap(s, |s| - 1, j)[..|s| - 1]) == multiset(t[..|t| - 1])
  {
    SwapPermutes(s, |s| - 1, j);
    DropLastPermutes(Swap(s, |s| - 1, j), t);
  }

  /** Every ordering of the input is produced by some sequence of draws. */
  lemma {:induction false} EveryOrderReachable<T>(s: seq<T>, t: seq<T>)
    requires multiset(s) == multiset(t)
    ensures exists rand :: ValidDraws(rand, |s|) && Shuffled(s, rand) == t
    decreases |s|
  {
    assert |s| == |multiset(s)| == |t|;
    var n := |s|;
    if n == 0 {
      assert ValidDraws([], 0) && Shuffled(s, []) == s == t;
    } else {
      assert t == t[..n - 1] + [t[n - 1]];
      assert t[n - 1] in multiset(s);
      var j: nat :| j < n && s[j] == t[n - 1];
      var u := Swap(s, n - 1, j);
      SwapLastPrefix(s, t, j);
      EveryOrderReachable(u[..n - 1], t[..n - 1]);
      var rest: seq<nat> :| ValidDraws(rest, n - 1) && Shuffled(u[..n - 1], rest) == t[..n - 1];
      ExtendDraws(s, rest, j);
      assert ValidDraws(rest + [j], n) && Shuffled(s, rest + [j]) == t;
    }
  }

  /** No two positions hold the same element. */
  ghost predicate Distinct<T>(s: seq<T>)
  {
    forall p, q :: 0 <= p < q < |s| ==> s[p] != s[q]
  }

  lemma SwapKeepsDistinct<T>(s: seq<T>, i: nat, j: nat)
    requires i < |s| && j < |s| && Distinct(s)
    ensures Distinct(Swap(s, i, j))
  {
  }

  /** On distinct elements, different draws give different orders, so orders and draws are in bijection. */
  lemma {:induction false} DrawsDetermineOrder<T>(s: seq<T>, r1: seq<nat>, r2: seq<nat>)
    requires Distinct(s) && ValidDraws(r1, |s|) && ValidDraws(r2, |s|)
    requires Shuffled(s, r1) == Shuffled(s, r2)
    ensures r1 == r2
    decreases |s|
  {
    var n := |s|;
    if n > 0 {
      ShuffledSplit(s, r1);
      ShuffledSplit(s, r2);
      var x1 := Shuffled(s, r1)[n - 1];
      assert x1 == s[r1[n - 1]] && x1 == s[r2[n - 1]];
      assert r1[n - 1] == r2[n - 1];
      var u := Swap(s, n - 1, r1[n - 1]);
      SwapKeepsDistinct(s, n - 1, r1[n - 1]);
      assert Distinct(u[..n - 1]);
      var a1 := Shuffled(u[..n - 1], r1[..n - 1]);
      var a2 := Shuffled(u[..n - 1], r2[..n - 1]);
      assert a1 == (a1 + [x1])[..n - 1] == (a2 + [x1])[..n - 1] == a2;
      DrawsDetermineOrder(u[..n - 1], r1[..n - 1], r2[..n - 1]);
      assert r1 == r1[..n - 1] + [r1[n - 1]];
      assert r2 == r2[..n - 1] + [r2[n - 1]];
    }
  }
}
