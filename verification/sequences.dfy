/** Facts about sequences of coordinates and of flags that the sampler relies on. */
module Sequences {

  /** The midpoint of two coordinates, computed as the sampler does: (a + b) / 2.
      Coordinates are exact reals, so the midpoint of two distinct points lies strictly
      between them. */
  function Mid(a: real, b: real): (m: real)
    ensures a < b ==> a < m < b
    ensures m - a == b - m
  {
    (a + b) / 2.0
  }

  /** The last entry of a non-empty sequence. */
  function Last(s: seq<real>): real
    requires |s| > 0
  {
    s[|s| - 1]
  }

  /** Every earlier coordinate is smaller than every later one (hence no duplicates). */
  predicate StrictlyIncreasing(s: seq<real>)
  {
    forall i, j :: 0 <= i < j < |s| ==> s[i] < s[j]
  }

  /** Joining two increasing runs, the first ending below the start of the second, keeps the
      order strict. */
  lemma ConcatIncreasing(a: seq<real>, b: seq<real>)
    requires StrictlyIncreasing(a) && StrictlyIncreasing(b)
    requires a != [] && b != [] ==> Last(a) < b[0]
    ensures StrictlyIncreasing(a + b)
  {
    forall i, j | 0 <= i < j < |a + b|
      ensures (a + b)[i] < (a + b)[j]
    {
      if j < |a| {
        assert (a + b)[i] == a[i] && (a + b)[j] == a[j];
      } else if i >= |a| {
        assert (a + b)[i] == b[i - |a|] && (a + b)[j] == b[j - |a|];
      } else {
        assert a[i] <= Last(a);
        assert b[0] <= b[j - |a|];
      }
    }
  }

  /** An increasing sequence lies between its first and its last element. */
  lemma IncreasingBounds(s: seq<real>)
    requires s != [] && StrictlyIncreasing(s)
    ensures forall i :: 0 <= i < |s| ==> s[0] <= s[i] <= Last(s)
  {
  }

  /** How many entries of a flag sequence are set. */
  function CountTrue(s: seq<bool>): (n: nat)
    ensures n <= |s|
  {
    if s == [] then 0
    else
      assert s == s[..|s| - 1] + [s[|s| - 1]];
      CountTrue(s[..|s| - 1]) + (if s[|s| - 1] then 1 else 0)
  }

  /** The count is zero exactly when no entry is set. */
  lemma {:induction false} CountTrueZero(s: seq<bool>)
    ensures CountTrue(s) == 0 <==> !(true in s)
  {
    if s != [] {
      var t := s[..|s| - 1];
      assert s == t + [s[|s| - 1]];
      CountTrueZero(t);
    }
  }

  /** Counting a longer prefix adds the flag of each extra entry, so the count never drops. */
  lemma {:induction false} CountTruePrefix(s: seq<bool>, i: nat, k: nat)
    requires i <= k <= |s|
    ensures CountTrue(s[..i]) <= CountTrue(s[..k])
    ensures i < k ==> CountTrue(s[..i + 1]) == CountTrue(s[..i]) + (if s[i] then 1 else 0)
    ensures i < k ==> CountTrue(s[..i + 1]) <= CountTrue(s[..k])
    decreases k - i
  {
    if i < k {
      assert s[..i + 1][..i] == s[..i];
      CountTruePrefix(s, i + 1, k);
    }
  }
}
