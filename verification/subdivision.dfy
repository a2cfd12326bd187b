/** A reference description of one refinement pass, by segment rather than by point: segment
    j runs from p[j] to p[j + 1], and a segment marked in s gets its midpoint inserted. The
    pass the sampler runs point by point is proved equal to this in module FuncAnalysis. */
module Subdivision {
  import opened Sequences

  /** The index that old point i takes in the subdivided set: i, plus one for every marked
      segment to its left. */
  function Position(s: seq<bool>, i: nat): nat
    requires i <= |s|
  {
    i + CountTrue(s[..i])
  }

  /** What segment j contributes: its left end, then its midpoint when the segment is marked. */
  function Piece(p: seq<real>, s: seq<bool>, j: nat): seq<real>
    requires |s| == |p| - 1 && j < |s|
  {
    if s[j] then [p[j], Mid(p[j], p[j + 1])] else [p[j]]
  }

  /** The contributions of the first k segments, left to right. */
  function Prefix(p: seq<real>, s: seq<bool>, k: nat): (r: seq<real>)
    requires |s| == |p| - 1 && k <= |s|
    ensures |r| == k + CountTrue(s[..k])
    ensures k > 0 ==> r[0] == p[0]
  {
    if k == 0 then []
    else
      assert s[..k][..k - 1] == s[..k - 1];
      Prefix(p, s, k - 1) + Piece(p, s, k - 1)
  }

  /** All points of p, with the midpoint of every marked segment inserted in place. */
  function Subdivide(p: seq<real>, s: seq<bool>): (r: seq<real>)
    requires |p| >= 1 && |s| == |p| - 1
    ensures |r| == |p| + CountTrue(s)
    ensures r[0] == p[0] && Last(r) == Last(p)
  {
    assert s[..|s|] == s;
    Prefix(p, s, |s|) + [p[|p| - 1]]
  }

  lemma {:induction false} PrefixIncreasing(p: seq<real>, s: seq<bool>, k: nat)
    requires |s| == |p| - 1 && k <= |s|
    requires StrictlyIncreasing(p)
    ensures StrictlyIncreasing(Prefix(p, s, k))
    ensures k > 0 ==> Last(Prefix(p, s, k)) < p[k]
  {
    if k > 0 {
      PrefixIncreasing(p, s, k - 1);
      var piece := Piece(p, s, k - 1);
      assert p[k - 1] < p[k];
      assert StrictlyIncreasing(piece);
      ConcatIncreasing(Prefix(p, s, k - 1), piece);
    }
  }

  /** Inserting midpoints keeps an increasing point set increasing: no inserted midpoint
      coincides with a point or with another midpoint. */
  lemma SubdivideIncreasing(p: seq<real>, s: seq<bool>)
    requires |p| >= 1 && |s| == |p| - 1
    requires StrictlyIncreasing(p)
    ensures StrictlyIncreasing(Subdivide(p, s))
  {
    PrefixIncreasing(p, s, |s|);
    ConcatIncreasing(Prefix(p, s, |s|), [p[|p| - 1]]);
  }

  /** Where the last segment's piece lands: right after the pieces of the earlier segments. */
  lemma PrefixAtLast(p: seq<real>, s: seq<bool>, k: nat)
    requires |s| == |p| - 1 && 0 < k <= |s|
    ensures Position(s, k - 1) < |Prefix(p, s, k)|
    ensures Prefix(p, s, k)[Position(s, k - 1)] == p[k - 1]
    ensures s[k - 1] ==> Position(s, k - 1) + 1 < |Prefix(p, s, k)|
    ensures s[k - 1] ==> Prefix(p, s, k)[Position(s, k - 1) + 1] == Mid(p[k - 1], p[k])
  {
    var a := Prefix(p, s, k - 1);
    var piece := Piece(p, s, k - 1);
    assert Prefix(p, s, k) == a + piece;
    assert Position(s, k - 1) == |a|;
    assert (a + piece)[|a|] == piece[0];
    assert s[k - 1] ==> (a + piece)[|a| + 1] == piece[1];
  }

  /** Appending a piece leaves the entries already placed where they were. */
  lemma PrefixAtEarlier(p: seq<real>, s: seq<bool>, k: nat, i: nat)
    requires |s| == |p| - 1 && i < k - 1 && k <= |s|
    requires Position(s, i) < |Prefix(p, s, k - 1)|
    requires Prefix(p, s, k - 1)[Position(s, i)] == p[i]
    requires s[i] ==> Position(s, i) + 1 < |Prefix(p, s, k - 1)|
    requires s[i] ==> Prefix(p, s, k - 1)[Position(s, i) + 1] == Mid(p[i], p[i + 1])
    ensures Position(s, i) < |Prefix(p, s, k)|
    ensures Prefix(p, s, k)[Position(s, i)] == p[i]
    ensures s[i] ==> Position(s, i) + 1 < |Prefix(p, s, k)|
    ensures s[i] ==> Prefix(p, s, k)[Position(s, i) + 1] == Mid(p[i], p[i + 1])
  {
    var a := Prefix(p, s, k - 1);
    assert Prefix(p, s, k) == a + Piece(p, s, k - 1);
  }

  lemma {:induction false} PrefixAt(p: seq<real>, s: seq<bool>, k: nat, i: nat)
    requires |s| == |p| - 1 && i < k <= |s|
    ensures Position(s, i) < |Prefix(p, s, k)|
    ensures Prefix(p, s, k)[Position(s, i)] == p[i]
    ensures s[i] ==> Position(s, i) + 1 < |Prefix(p, s, k)|
    ensures s[i] ==> Prefix(p, s, k)[Position(s, i) + 1] == Mid(p[i], p[i + 1])
  {
    if i < k - 1 {
      PrefixAt(p, s, k - 1, i);
      PrefixAtEarlier(p, s, k, i);
    } else {
      PrefixAtLast(p, s, k);
    }
  }

  lemma SubdivideAt(p: seq<real>, s: seq<bool>, i: nat)
    requires |s| == |p| - 1 && i < |p|
    ensures Position(s, i) < |Subdivide(p, s)|
    ensures Subdivide(p, s)[Position(s, i)] == p[i]
    ensures i < |s| && s[i] ==> Position(s, i) + 1 < |Subdivide(p, s)|
    ensures i < |s| && s[i] ==> Subdivide(p, s)[Position(s, i) + 1] == Mid(p[i], p[i + 1])
  {
    var a := Prefix(p, s, |s|);
    assert Subdivide(p, s) == a + [p[|p| - 1]];
    if i < |s| {
      PrefixAt(p, s, |s|, i);
    } else {
      assert s[..i] == s;
    }
  }

  /** Where everything lands: old point p[i] sits at Position(s, i), and the midpoint of a
      marked segment j right after p[j]. So the old points keep their order and each marked
      segment gets exactly one midpoint. */
  lemma SubdivideLayout(p: seq<real>, s: seq<bool>)
    requires |p| >= 1 && |s| == |p| - 1
    ensures forall i :: 0 <= i < |p| ==>
      Position(s, i) < |Subdivide(p, s)| && Subdivide(p, s)[Position(s, i)] == p[i]
    ensures forall j :: 0 <= j < |s| && s[j] ==>
      Position(s, j) + 1 < |Subdivide(p, s)| && Subdivide(p, s)[Position(s, j) + 1] == Mid(p[j], p[j + 1])
  {
    forall i | 0 <= i < |p| {
      SubdivideAt(p, s, i);
    }
  }

  lemma {:induction false} PrefixMembers(p: seq<real>, s: seq<bool>, k: nat, x: real)
    requires |s| == |p| - 1 && k <= |s|
    ensures x in Prefix(p, s, k) <==>
      (exists i :: 0 <= i < k && x == p[i]) ||
      (exists j :: 0 <= j < k && s[j] && x == Mid(p[j], p[j + 1]))
  {
    if k > 0 {
      PrefixMembers(p, s, k - 1, x);
      var a, piece := Prefix(p, s, k - 1), Piece(p, s, k - 1);
      assert Prefix(p, s, k) == a + piece;
      assert x in a + piece <==> x in a || x in piece;
    }
  }

  /** Nothing but old points and midpoints of marked segments appears, and all of them do. */
  lemma SubdivideMembers(p: seq<real>, s: seq<bool>, x: real)
    requires |p| >= 1 && |s| == |p| - 1
    ensures x in Subdivide(p, s) <==>
      x in p || exists j :: 0 <= j < |s| && s[j] && x == Mid(p[j], p[j + 1])
  {
    PrefixMembers(p, s, |s|, x);
    if x in p {
      var i :| 0 <= i < |p| && p[i] == x;
      assert i < |s| || x == Subdivide(p, s)[|Subdivide(p, s)| - 1];
    }
  }

  /** With no segment marked, the point set comes back unchanged. */
  lemma {:induction false} SubdivideNoMarks(p: seq<real>, s: seq<bool>)
    requires |p| >= 1 && |s| == |p| - 1
    requires !(true in s)
    ensures Subdivide(p, s) == p
  {
    var r := Subdivide(p, s);
    CountTrueZero(s);
    forall i | 0 <= i < |p|
      ensures r[i] == p[i]
    {
      SubdivideAt(p, s, i);
      CountTruePrefix(s, i, |s|);
    }
  }
}
