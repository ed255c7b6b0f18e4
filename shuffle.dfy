/** `shuffleArray` of src/components/Earth/index.js: a Fisher–Yates shuffle of a copy of its
    argument. `Math.random()` is replaced by an oracle: `picks[i]` is the index
    `Math.floor(Math.random() * (i + 1))` drawn at the step for `i`. */
module Shuffle {

  /** What `Math.random()` guarantees of the drawn indices: the step for `i` swaps with some
      `j` in `[0, i]`. */
  predicate ValidPicks(picks: seq<nat>)
  {
    forall i :: 0 < i < |picks| ==> picks[i] <= i
  }

  predicate AllDistinct<T(==)>(s: seq<T>)
  {
    forall i, j :: 0 <= i < j < |s| ==> s[i] != s[j]
  }

  /** `[s[i], s[j]] = [s[j], s[i]]` */
  function Swap<T>(s: seq<T>, i: nat, j: nat): (r: seq<T>)
    requires i < |s| && j < |s|
    ensures |r| == |s|
    ensures multiset(r) == multiset(s)
  {
    s[i := s[j]][j := s[i]]
  }

  /** The steps for `i`, `i - 1`, ..., `1` of the loop, applied to `s`. */
  function SwapsDown<T>(s: seq<T>, picks: seq<nat>, i: int): (r: seq<T>)
    requires i < |s| == |picks| && ValidPicks(picks)
    ensures |r| == |s|
    ensures multiset(r) == multiset(s)
    decreases i
  {
    if i <= 0 then s else SwapsDown(Swap(s, i, picks[i]), picks, i - 1)
  }

  /** The result of the whole shuffle. */
  function Shuffled<T>(s: seq<T>, picks: seq<nat>): seq<T>
    requires |s| == |picks| && ValidPicks(picks)
  {
    SwapsDown(s, picks, |s| - 1)
  }

  /** The loop over a fresh copy: the argument is left as it was, and the result is the
      argument with the oracle's swaps applied, hence a permutation of it. */
  method ShuffleArray<T>(a: array<T>, picks: seq<nat>) returns (shuffled: array<T>)
    requires |picks| == a.Length && ValidPicks(picks)
    ensures fresh(shuffled)
    ensures shuffled[..] == Shuffled(a[..], picks)
    ensures multiset(shuffled[..]) == multiset(a[..])
  {
    var copy := a[..];
    shuffled := new T[a.Length](k requires 0 <= k < |copy| => copy[k]);
    assert shuffled[..] == copy;
    var i := shuffled.Length - 1;
    while i > 0
      invariant -1 <= i < shuffled.Length
      invariant |shuffled[..]| == |picks|
      invariant SwapsDown(shuffled[..], picks, i) == Shuffled(copy, picks)
    {
      var j := picks[i];
      ghost var before := shuffled[..];
      shuffled[i], shuffled[j] := shuffled[j], shuffled[i];
      assert shuffled[..] == Swap(before, i, j);
      i := i - 1;
    }
  }

  lemma SwapKeepsDistinct<T>(s: seq<T>, i: nat, j: nat)
    requires i < |s| && j < |s| && AllDistinct(s)
    ensures AllDistinct(Swap(s, i, j))
  {
    var r := Swap(s, i, j);
    forall a, b | 0 <= a < b < |r| ensures r[a] != r[b] {
      var a' := if a == i then j else if a == j then i else a;
      var b' := if b == i then j else if b == j then i else b;
      assert r[a] == s[a'] && r[b] == s[b'] && a' != b';
    }
  }

  lemma {:induction false} SwapsDownKeepsDistinct<T>(s: seq<T>, picks: seq<nat>, i: int)
    requires i < |s| == |picks| && ValidPicks(picks) && AllDistinct(s)
    ensures AllDistinct(SwapsDown(s, picks, i))
    decreases i
  {
    if i > 0 {
      SwapKeepsDistinct(s, i, picks[i]);
      SwapsDownKeepsDistinct(Swap(s, i, picks[i]), picks, i - 1);
    }
  }

  /** `Array.from({length: n}, (_, i) => i)` */
  function Positions(n: nat): (r: seq<int>)
    ensures |r| == n && forall i :: 0 <= i < n ==> r[i] == i
  {
    seq(n, i => i)
  }

  /** Shuffling the positions `0 .. n-1` yields each of them exactly once. */
  lemma {:induction false} ShuffledPositions(n: nat, picks: seq<nat>)
    requires |picks| == n && ValidPicks(picks)
    ensures var r := Shuffled(Positions(n), picks);
      && |r| == n
      && AllDistinct(r)
      && (forall k :: 0 <= k < n ==> 0 <= r[k] < n)
  {
    var r := Shuffled(Positions(n), picks);
    SwapsDownKeepsDistinct(Positions(n), picks, n - 1);
    forall k | 0 <= k < n ensures 0 <= r[k] < n {
      assert r[k] in multiset(r);
      assert r[k] in multiset(Positions(n));
      assert r[k] in Positions(n);
    }
  }
}
