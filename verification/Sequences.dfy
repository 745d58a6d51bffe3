/** Removing one element of a sequence, and rounding a share of a count down. */
module Sequences {
  function Without<T>(s: seq<T>, i: nat): seq<T>
    requires i < |s|
  {
    s[..i] + s[i + 1..]
  }

  lemma MultisetWithout<T>(s: seq<T>, i: nat)
    requires i < |s|
    ensures multiset(s) == multiset(Without(s, i)) + multiset{s[i]}
  {
    assert s == s[..i] + [s[i]] + s[i + 1..];
  }

  lemma CountWithout<T>(s: seq<T>, i: nat, x: T)
    requires i < |s|
    ensures multiset(s)[x] == multiset(Without(s, i))[x] + (if s[i] == x then 1 else 0)
  {
    hide Without;
    MultisetWithout(s, i);
  }

  /** The last element of a sequence, found and removed in a rearrangement of it. */
  lemma RemoveLast<T>(xs: seq<T>, ys: seq<T>) returns (j: nat)
    requires xs != [] && multiset(xs) == multiset(ys)
    ensures j < |ys| && ys[j] == xs[|xs| - 1]
    ensures multiset(xs[..|xs| - 1]) == multiset(Without(ys, j))
  {
    var n := |xs| - 1;
    assert xs[n] in multiset(ys);
    j :| 0 <= j < |ys| && ys[j] == xs[n];
    MultisetWithout(xs, n);
    MultisetWithout(ys, j);
    assert Without(xs, n) == xs[..n];
    assert multiset(xs[..n]) == multiset(xs) - multiset{xs[n]} == multiset(Without(ys, j));
  }

  /** `min(max(ratio, 0.0), 1.0)`. */
  function Clamp(ratio: real): (r: real)
    ensures 0.0 <= r <= 1.0
    ensures 0.0 <= ratio <= 1.0 ==> r == ratio
  {
    if ratio < 0.0 then 0.0 else if ratio > 1.0 then 1.0 else ratio
  }

  /** `int(count * ratio)`. */
  function Portion(count: nat, ratio: real): (n: nat)
    requires 0.0 <= ratio <= 1.0
    ensures n <= count
    ensures n as real <= count as real * ratio < n as real + 1.0
  {
    assert 0.0 <= count as real * ratio <= count as real;
    (count as real * ratio).Floor
  }
}
