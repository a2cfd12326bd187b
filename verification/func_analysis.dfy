/** The adaptive sampler FuncAnalysis: it starts from three points on [xStart, xStop] and
    refines them pass by pass, inserting midpoints around the interior points whose
    curvature score is near the largest one, until there are at least numPoints points.

    Coordinates are exact reals. The user's function f and the inverse tangent are parameters
    (total functions on reals); the model computes secant slopes and curvature scores from
    them as the source does. */
module FuncAnalysis {
  import opened Sequences
  import opened Subdivision

  /** The two argument errors of get_points (both ValueError in the source). */
  datatype Error = InvalidInterval | InvalidCount

  datatype Result<T> = Ok(value: T) | Err(error: Error)

  // ---------------------------------------------------------------------------
  // Scoring: the thresholding step of _need_split
  // ---------------------------------------------------------------------------

  /** The largest score, as Python's max over a non-empty array. */
  function MaxOf(s: seq<real>): (m: real)
    requires |s| > 0
    ensures m in s
    ensures forall i :: 0 <= i < |s| ==> s[i] <= m
  {
    if |s| == 1 then s[0]
    else
      var rest := MaxOf(s[1..]);
      if rest > s[0] then rest else s[0]
  }

  /** The cut-off of a pass: epsilon times the largest score. */
  function Threshold(scores: seq<real>, epsilon: real): real
    requires |scores| > 0
  {
    MaxOf(scores) * epsilon
  }

  /** The flags of the first k scores: set where the score reaches the threshold t. */
  function Reaching(scores: seq<real>, t: real, k: nat): (flags: seq<bool>)
    requires k <= |scores|
    ensures |flags| == k
    ensures forall i :: 0 <= i < k ==> (flags[i] <==> scores[i] >= t)
  {
    if k == 0 then [] else Reaching(scores, t, k - 1) + [scores[k - 1] >= t]
  }

  /** One flag per interior point: set when its score reaches the threshold. */
  function NeedSplit(scores: seq<real>, epsilon: real): (flags: seq<bool>)
    requires |scores| > 0
    ensures |flags| == |scores|
    ensures forall i :: 0 <= i < |scores| ==> (flags[i] <==> scores[i] >= Threshold(scores, epsilon))
  {
    Reaching(scores, Threshold(scores, epsilon), |scores|)
  }

  /** Scores are absolute values, so non-negative. */
  predicate NonNegative(scores: seq<real>)
  {
    forall i :: 0 <= i < |scores| ==> 0.0 <= scores[i]
  }

  function Abs(x: real): (y: real)
    ensures 0.0 <= y && (y == x || y == -x)
  {
    if x < 0.0 then -x else x
  }

  /** The secant slope of f over segment i, from p[i] to p[i + 1]. */
  function SlopeAt(f: real -> real, p: seq<real>, i: nat): real
    requires i + 1 < |p| && p[i] < p[i + 1]
  {
    (f(p[i + 1]) - f(p[i])) / (p[i + 1] - p[i])
  }

  /** The secant slopes of f over the first k segments. */
  function SlopesUpTo(f: real -> real, p: seq<real>, k: nat): (g: seq<real>)
    requires k < |p| && StrictlyIncreasing(p)
    ensures |g| == k
  {
    if k == 0 then [] else SlopesUpTo(f, p, k - 1) + [SlopeAt(f, p, k - 1)]
  }

  /** The secant slope of f over every segment. The points are strictly increasing, so no
      segment has length zero. */
  function Slopes(f: real -> real, p: seq<real>): (g: seq<real>)
    requires |p| >= 1 && StrictlyIncreasing(p)
    ensures |g| == |p| - 1
  {
    SlopesUpTo(f, p, |p| - 1)
  }

  /** How far the direction of the curve turns between segment i and segment i + 1: the
      absolute difference of the inverse tangents of their slopes. */
  function Turn(atan: real -> real, grads: seq<real>, i: nat): real
    requires i + 1 < |grads|
  {
    Abs(atan(grads[i + 1]) - atan(grads[i]))
  }

  /** The turns at the first k joints between consecutive segments. */
  function TurnsUpTo(atan: real -> real, grads: seq<real>, k: nat): (s: seq<real>)
    requires k < |grads|
    ensures |s| == k
    ensures NonNegative(s)
  {
    if k == 0 then [] else TurnsUpTo(atan, grads, k - 1) + [Turn(atan, grads, k - 1)]
  }

  /** The curvature score of every interior point: the turn between the segments on either
      side of it. */
  function Scores(f: real -> real, atan: real -> real, p: seq<real>): (s: seq<real>)
    requires |p| >= 2 && StrictlyIncreasing(p)
    ensures |s| == |p| - 2
    ensures NonNegative(s)
  {
    TurnsUpTo(atan, Slopes(f, p), |p| - 2)
  }

  lemma {:induction false} SlopesUpToAt(f: real -> real, p: seq<real>, k: nat, i: nat)
    requires i < k < |p| && StrictlyIncreasing(p)
    ensures SlopesUpTo(f, p, k)[i] == SlopeAt(f, p, i)
  {
    if i < k - 1 {
      SlopesUpToAt(f, p, k - 1, i);
    }
  }

  lemma {:induction false} TurnsUpToAt(atan: real -> real, grads: seq<real>, k: nat, i: nat)
    requires i < k < |grads|
    ensures TurnsUpTo(atan, grads, k)[i] == Turn(atan, grads, i)
  {
    if i < k - 1 {
      TurnsUpToAt(atan, grads, k - 1, i);
    }
  }

  /** Score i is the turn between the slopes of segments i and i + 1. */
  lemma ScoreAt(f: real -> real, atan: real -> real, p: seq<real>, i: nat)
    requires i + 2 < |p| && StrictlyIncreasing(p)
    ensures Scores(f, atan, p)[i] == Abs(atan(SlopeAt(f, p, i + 1)) - atan(SlopeAt(f, p, i)))
  {
    var g := Slopes(f, p);
    TurnsUpToAt(atan, g, |p| - 2, i);
    SlopesUpToAt(f, p, |p| - 1, i);
    SlopesUpToAt(f, p, |p| - 1, i + 1);
    assert Scores(f, atan, p)[i] == Turn(atan, g, i);
  }

  /** The secant of a straight line has the line's slope. */
  lemma LineSlope(f: real -> real, p: seq<real>, i: nat, a: real, b: real)
    requires i + 1 < |p| && p[i] < p[i + 1]
    requires f(p[i]) == a * p[i] + b && f(p[i + 1]) == a * p[i + 1] + b
    ensures SlopeAt(f, p, i) == a
  {
    assert f(p[i + 1]) - f(p[i]) == a * (p[i + 1] - p[i]);
  }

  /** On a straight line f(x) = a * x + b every secant slope is a, so every curvature score is
      zero, and then every interior point is flagged whatever epsilon is. */
  lemma LinearAllFlagged(f: real -> real, atan: real -> real, p: seq<real>, a: real, b: real, epsilon: real)
    requires |p| >= 3 && StrictlyIncreasing(p)
    requires forall i :: 0 <= i < |p| ==> f(p[i]) == a * p[i] + b
    ensures forall i :: 0 <= i < |p| - 2 ==> Scores(f, atan, p)[i] == 0.0
    ensures forall i :: 0 <= i < |p| - 2 ==> NeedSplit(Scores(f, atan, p), epsilon)[i]
  {
    var scores := Scores(f, atan, p);
    forall i | 0 <= i < |p| - 2
      ensures scores[i] == 0.0
    {
      LineSlope(f, p, i, a, b);
      LineSlope(f, p, i + 1, a, b);
      ScoreAt(f, atan, p, i);
    }
    FlatScoresAllFlagged(scores, epsilon);
  }

  lemma ScaleBelow(m: real, e: real, t: real)
    requires 0.0 <= m && e <= 1.0 && t == m * e
    ensures t <= m
  {
    assert m * e == m - m * (1.0 - e);
    assert m * (1.0 - e) >= 0.0;
  }

  lemma ScaleAbove(m: real, e: real, t: real)
    requires 0.0 < m && 1.0 < e && t == m * e
    ensures t > m
  {
    assert m * e == m + m * (e - 1.0);
    assert m * (e - 1.0) > 0.0;
  }

  lemma MaxNonNegative(scores: seq<real>)
    requires |scores| > 0 && NonNegative(scores)
    ensures 0.0 <= MaxOf(scores)
  {
    var k :| 0 <= k < |scores| && scores[k] == MaxOf(scores);
    assert 0.0 <= scores[k];
  }

  /** With non-negative scores and epsilon at most 1 the threshold does not exceed the top
      score. */
  lemma ThresholdAtMostMax(scores: seq<real>, epsilon: real)
    requires |scores| > 0 && NonNegative(scores)
    requires epsilon <= 1.0
    ensures Threshold(scores, epsilon) <= MaxOf(scores)
  {
    MaxNonNegative(scores);
    ScaleBelow(MaxOf(scores), epsilon, Threshold(scores, epsilon));
  }

  /** With non-negative scores and epsilon at most 1, every point holding the top score is
      flagged, so a pass always flags something. */
  lemma TopScoreFlagged(scores: seq<real>, epsilon: real)
    requires |scores| > 0 && NonNegative(scores)
    requires epsilon <= 1.0
    ensures forall i :: 0 <= i < |scores| && scores[i] == MaxOf(scores) ==> NeedSplit(scores, epsilon)[i]
    ensures true in NeedSplit(scores, epsilon)
  {
    ThresholdAtMostMax(scores, epsilon);
    var k :| 0 <= k < |scores| && scores[k] == MaxOf(scores);
    assert NeedSplit(scores, epsilon)[k];
  }

  /** All-zero scores (what a linear function gives in exact arithmetic) flag every interior
      point, whatever epsilon is. */
  lemma FlatScoresAllFlagged(scores: seq<real>, epsilon: real)
    requires |scores| > 0
    requires forall i :: 0 <= i < |scores| ==> scores[i] == 0.0
    ensures forall i :: 0 <= i < |scores| ==> NeedSplit(scores, epsilon)[i]
  {
    var m := MaxOf(scores);
    assert m == 0.0;
  }

  lemma ThresholdAboveMax(scores: seq<real>, epsilon: real)
    requires |scores| > 0
    requires MaxOf(scores) > 0.0 && epsilon > 1.0
    ensures Threshold(scores, epsilon) > MaxOf(scores)
  {
    var m := MaxOf(scores);
    var t := Threshold(scores, epsilon);
    assert t == m * epsilon;
    ScaleAbove(m, epsilon, t);
  }

  /** With a positive top score and epsilon above 1 the threshold exceeds every score, so
      nothing is flagged. */
  lemma NothingFlaggedAboveOne(scores: seq<real>, epsilon: real)
    requires |scores| > 0
    requires MaxOf(scores) > 0.0 && epsilon > 1.0
    ensures !(true in NeedSplit(scores, epsilon))
  {
    ThresholdAboveMax(scores, epsilon);
    var flags := NeedSplit(scores, epsilon);
    forall i | 0 <= i < |flags|
      ensures !flags[i]
    {
      assert scores[i] <= MaxOf(scores);
    }
  }

  // ---------------------------------------------------------------------------
  // Reconstruction: one refinement pass
  // ---------------------------------------------------------------------------

  /** What interior point i (1 <= i <= |p| - 2) adds to the new set. When its flag f[i - 1] is
      set it brings the midpoint of its left segment (unless the previous interior point was
      flagged, which already added that midpoint), itself and the midpoint of its right
      segment; otherwise only itself. */
  function Emit(p: seq<real>, f: seq<bool>, i: nat): seq<real>
    requires |p| >= 2 && |f| == |p| - 2 && 1 <= i <= |f|
  {
    if f[i - 1] then
      if i == 1 || !f[i - 2] then [Mid(p[i - 1], p[i]), p[i], Mid(p[i], p[i + 1])]
      else [p[i], Mid(p[i], p[i + 1])]
    else [p[i]]
  }

  /** What the first k interior points add, left to right. */
  function Emitted(p: seq<real>, f: seq<bool>, k: nat): (e: seq<real>)
    requires |p| >= 2 && |f| == |p| - 2 && k <= |f|
    ensures |e| >= k
  {
    if k == 0 then [] else Emitted(p, f, k - 1) + Emit(p, f, k)
  }

  /** The step of the pass's loop: interior point k's output goes after the earlier ones. */
  lemma EmittedNext(p: seq<real>, f: seq<bool>, k: nat)
    requires |p| >= 2 && |f| == |p| - 2 && 1 <= k <= |f|
    ensures [p[0]] + Emitted(p, f, k) == [p[0]] + Emitted(p, f, k - 1) + Emit(p, f, k)
  {
  }

  /** One reconstruction pass over points p with one flag per interior point: the first point,
      what every interior point adds, the last point. */
  function Reconstruct(p: seq<real>, f: seq<bool>): (r: seq<real>)
    requires |p| >= 2 && |f| == |p| - 2
    ensures |r| >= |p|
    ensures r[0] == p[0] && Last(r) == Last(p)
  {
    [p[0]] + Emitted(p, f, |f|) + [p[|p| - 1]]
  }

  /** Segment j (from p[j] to p[j + 1], 0 <= j <= |f|) is split when an interior end of it
      is flagged: its left end j (flag f[j - 1]) or its right end j + 1 (flag f[j]). */
  predicate SegmentSplit(f: seq<bool>, j: nat)
    requires j <= |f|
  {
    (1 <= j && f[j - 1]) || (j < |f| && f[j])
  }

  /** The split marks of the first k segments. */
  function SegmentsUpTo(f: seq<bool>, k: nat): (s: seq<bool>)
    requires k <= |f| + 1
    ensures |s| == k
    ensures forall j :: 0 <= j < k ==> s[j] == SegmentSplit(f, j)
  {
    if k == 0 then [] else SegmentsUpTo(f, k - 1) + [SegmentSplit(f, k - 1)]
  }

  /** The split mark of every segment. */
  function SegmentFlags(f: seq<bool>): (s: seq<bool>)
    ensures |s| == |f| + 1
    ensures forall j :: 0 <= j <= |f| ==> s[j] == SegmentSplit(f, j)
  {
    SegmentsUpTo(f, |f| + 1)
  }

  /** Interior point k + 1 will add the midpoint of segment k as its left midpoint. */
  predicate Pending(f: seq<bool>, k: nat)
    requires k <= |f|
  {
    k < |f| && f[k] && (k == 0 || !f[k - 1])
  }

  /** The midpoint that interior point k + 1 will add as its left midpoint, if any. */
  function Owed(p: seq<real>, f: seq<bool>, k: nat): seq<real>
    requires |p| >= 2 && |f| == |p| - 2 && k <= |f|
  {
    if Pending(f, k) then [Mid(p[k], p[k + 1])] else []
  }

  /** Interior point k's output, split into the left midpoint it owes (if Pending), itself,
      and its right midpoint (if flagged). */
  lemma EmitParts(p: seq<real>, f: seq<bool>, k: nat)
    requires |p| >= 2 && |f| == |p| - 2 && 1 <= k <= |f|
    ensures Emit(p, f, k) ==
      Owed(p, f, k - 1) + [p[k]] + (if f[k - 1] then [Mid(p[k], p[k + 1])] else [])
  {
  }

  /** Segment k's piece: point k, then its midpoint if point k flagged it or point k + 1 will. */
  lemma PieceParts(p: seq<real>, f: seq<bool>, k: nat)
    requires |p| >= 2 && |f| == |p| - 2 && 1 <= k <= |f|
    ensures Piece(p, SegmentFlags(f), k) ==
      [p[k]] + (if f[k - 1] then [Mid(p[k], p[k + 1])] else []) + Owed(p, f, k)
  {
    assert SegmentFlags(f)[k] == SegmentSplit(f, k);
  }

  lemma Regroup(h: seq<real>, e: seq<real>, left: seq<real>, x: real, right: seq<real>, pend: seq<real>)
    ensures h + (e + (left + [x] + right)) + pend == (h + e + left) + ([x] + right + pend)
  {
  }

  /** One more interior point: its output, with the midpoint it now owes, is what the
      previous owed midpoint and segment k's piece make. */
  lemma EmittedStep(p: seq<real>, f: seq<bool>, k: nat)
    requires |p| >= 2 && |f| == |p| - 2 && 1 <= k <= |f|
    ensures [p[0]] + Emitted(p, f, k) + Owed(p, f, k)
            == ([p[0]] + Emitted(p, f, k - 1) + Owed(p, f, k - 1)) + Piece(p, SegmentFlags(f), k)
  {
    var right := if f[k - 1] then [Mid(p[k], p[k + 1])] else [];
    EmitParts(p, f, k);
    PieceParts(p, f, k);
    Regroup([p[0]], Emitted(p, f, k - 1), Owed(p, f, k - 1), p[k], right, Owed(p, f, k));
  }

  /** Before any interior point: the first point and the midpoint point 1 owes make the
      piece of segment 0. */
  lemma EmittedStart(p: seq<real>, f: seq<bool>)
    requires |p| >= 2 && |f| == |p| - 2
    ensures [p[0]] + Emitted(p, f, 0) + Owed(p, f, 0) == Prefix(p, SegmentFlags(f), 1)
  {
    var s := SegmentFlags(f);
    assert s[0] == SegmentSplit(f, 0);
    assert Prefix(p, s, 1) == Prefix(p, s, 0) + Piece(p, s, 0);
  }

  /** If the first k - 1 interior points have produced the pieces of the first k segments,
      interior point k completes the piece of segment k. */
  lemma EmittedExtend(p: seq<real>, f: seq<bool>, k: nat)
    requires |p| >= 2 && |f| == |p| - 2 && 1 <= k <= |f|
    requires [p[0]] + Emitted(p, f, k - 1) + Owed(p, f, k - 1) == Prefix(p, SegmentFlags(f), k)
    ensures [p[0]] + Emitted(p, f, k) + Owed(p, f, k) == Prefix(p, SegmentFlags(f), k + 1)
  {
    var s := SegmentFlags(f);
    EmittedStep(p, f, k);
    assert Prefix(p, s, k + 1) == Prefix(p, s, k) + Piece(p, s, k);
  }

  /** After k interior points, the output so far with the midpoint still owed is the pieces
      of the first k + 1 segments. */
  lemma {:induction false} EmittedBySegments(p: seq<real>, f: seq<bool>, k: nat)
    requires |p| >= 2 && |f| == |p| - 2 && k <= |f|
    ensures [p[0]] + Emitted(p, f, k) + Owed(p, f, k) == Prefix(p, SegmentFlags(f), k + 1)
  {
    if k == 0 {
      EmittedStart(p, f);
    } else {
      EmittedBySegments(p, f, k - 1);
      EmittedExtend(p, f, k);
    }
  }

  /** The point-by-point pass inserts exactly the midpoints of the split segments, each once:
      it equals the segment-wise subdivision. */
  lemma ReconstructBySegments(p: seq<real>, f: seq<bool>)
    requires |p| >= 2 && |f| == |p| - 2
    ensures Reconstruct(p, f) == Subdivide(p, SegmentFlags(f))
  {
    EmittedBySegments(p, f, |f|);
  }

  /** The number of maximal runs of consecutive flagged interior points. */
  function Runs(f: seq<bool>): (n: nat)
    ensures n <= CountTrue(f)
  {
    if f == [] then 0
    else
      assert f == f[..|f| - 1] + [f[|f| - 1]];
      Runs(f[..|f| - 1]) + (if f[|f| - 1] && (|f| == 1 || !f[|f| - 2]) then 1 else 0)
  }

  /** A flagged interior point starts at least one run. */
  lemma {:induction false} RunsPositive(f: seq<bool>)
    requires true in f
    ensures Runs(f) >= 1
  {
    var g := f[..|f| - 1];
    assert f == g + [f[|f| - 1]];
    if !(f[|f| - 1] && (|f| == 1 || !f[|f| - 2])) {
      assert true in g;
      RunsPositive(g);
    }
  }

  /** What interior point k adds: itself, its right midpoint when flagged, and its left
      midpoint when it starts a run of flagged points. */
  lemma EmitLength(p: seq<real>, f: seq<bool>, k: nat)
    requires |p| >= 2 && |f| == |p| - 2 && 1 <= k <= |f|
    ensures |Emit(p, f, k)| ==
      1 + (if f[k - 1] then 1 else 0) + (if f[k - 1] && (k == 1 || !f[k - 2]) then 1 else 0)
  {
  }

  lemma EmittedLengthStep(p: seq<real>, f: seq<bool>, k: nat)
    requires |p| >= 2 && |f| == |p| - 2 && 1 <= k <= |f|
    requires |Emitted(p, f, k - 1)| == k - 1 + CountTrue(f[..k - 1]) + Runs(f[..k - 1])
    ensures |Emitted(p, f, k)| == k + CountTrue(f[..k]) + Runs(f[..k])
  {
    EmitLength(p, f, k);
    var g := f[..k];
    assert g[..k - 1] == f[..k - 1];
    assert CountTrue(g) == CountTrue(f[..k - 1]) + (if f[k - 1] then 1 else 0);
    assert Runs(g) == Runs(f[..k - 1]) + (if f[k - 1] && (k == 1 || !f[k - 2]) then 1 else 0);
    assert |Emitted(p, f, k)| == |Emitted(p, f, k - 1)| + |Emit(p, f, k)|;
  }

  lemma {:induction false} EmittedLength(p: seq<real>, f: seq<bool>, k: nat)
    requires |p| >= 2 && |f| == |p| - 2 && k <= |f|
    ensures |Emitted(p, f, k)| == k + CountTrue(f[..k]) + Runs(f[..k])
  {
    if k > 0 {
      EmittedLength(p, f, k - 1);
      EmittedLengthStep(p, f, k);
    }
  }

  /** The new length is the old one plus the flagged interior points plus the runs. */
  lemma ReconstructLength(p: seq<real>, f: seq<bool>)
    requires |p| >= 2 && |f| == |p| - 2
    ensures |Reconstruct(p, f)| == |p| + CountTrue(f) + Runs(f)
  {
    EmittedLength(p, f, |f|);
    assert f[..|f|] == f;
  }

  /** Split segments = flagged points + runs: a run of m flagged points splits m + 1 segments. */
  lemma SplitSegmentsCount(f: seq<bool>)
    ensures CountTrue(SegmentFlags(f)) == CountTrue(f) + Runs(f)
  {
    var p := seq(|f| + 2, i => i as real);
    ReconstructLength(p, f);
    ReconstructBySegments(p, f);
  }

  /** A pass that flags nothing returns its input unchanged. */
  lemma ReconstructUnflagged(p: seq<real>, f: seq<bool>)
    requires |p| >= 2 && |f| == |p| - 2
    requires !(true in f)
    ensures Reconstruct(p, f) == p
  {
    var s := SegmentFlags(f);
    forall j | 0 <= j < |s|
      ensures !s[j]
    {
      assert !SegmentSplit(f, j);
    }
    ReconstructBySegments(p, f);
    SubdivideNoMarks(p, s);
  }

  /** A pass that flags something adds at least two points. */
  lemma ReconstructGrows(p: seq<real>, f: seq<bool>)
    requires |p| >= 2 && |f| == |p| - 2
    requires true in f
    ensures |Reconstruct(p, f)| >= |p| + 2
  {
    ReconstructLength(p, f);
    CountTrueZero(f);
    RunsPositive(f);
  }

  /** A pass keeps an increasing point set increasing; in particular two consecutive flagged
      points never insert the midpoint between them twice. */
  lemma ReconstructIncreasing(p: seq<real>, f: seq<bool>)
    requires |p| >= 2 && |f| == |p| - 2
    ensures StrictlyIncreasing(p) ==> StrictlyIncreasing(Reconstruct(p, f))
  {
    ReconstructBySegments(p, f);
    if StrictlyIncreasing(p) {
      SubdivideIncreasing(p, SegmentFlags(f));
    }
  }

  /** Every old point survives, in order: p[i] lands at index i + (split segments left of it). */
  lemma ReconstructKeepsPoints(p: seq<real>, f: seq<bool>)
    requires |p| >= 2 && |f| == |p| - 2
    ensures forall i :: 0 <= i < |p| ==>
      Position(SegmentFlags(f), i) < |Reconstruct(p, f)| &&
      Reconstruct(p, f)[Position(SegmentFlags(f), i)] == p[i]
  {
    ReconstructBySegments(p, f);
    SubdivideLayout(p, SegmentFlags(f));
  }

  /** The new set holds exactly the old points and the midpoints of the split segments. */
  lemma ReconstructMembers(p: seq<real>, f: seq<bool>, x: real)
    requires |p| >= 2 && |f| == |p| - 2
    ensures x in Reconstruct(p, f) <==>
      x in p || exists j :: 0 <= j < |p| - 1 && SegmentSplit(f, j) && x == Mid(p[j], p[j + 1])
  {
    ReconstructBySegments(p, f);
    SubdivideMembers(p, SegmentFlags(f), x);
  }

  /** get_points' inner loop: walk the interior points once, carrying prev_splitted. */
  method ReconstructPass(points: seq<real>, needSplit: seq<bool>) returns (newX: seq<real>)
    requires |points| >= 2 && |needSplit| == |points| - 2
    ensures newX == Reconstruct(points, needSplit)
    ensures newX == Subdivide(points, SegmentFlags(needSplit))
  {
    newX := [points[0]];
    var prevSplitted := false;
    for i := 1 to |points| - 1
      invariant newX == [points[0]] + Emitted(points, needSplit, i - 1)
      invariant prevSplitted == (i >= 2 && needSplit[i - 2])
    {
      ghost var before := newX;
      EmittedNext(points, needSplit, i);
      if needSplit[i - 1] {
        if !prevSplitted {
          newX := newX + [Mid(points[i - 1], points[i]), points[i], Mid(points[i], points[i + 1])];
        } else {
          newX := newX + [points[i], Mid(points[i], points[i + 1])];
        }
        prevSplitted := true;
      } else {
        newX := newX + [points[i]];
        prevSplitted := false;
      }
      assert newX == before + Emit(points, needSplit, i);
    }
    newX := newX + [points[|points| - 1]];
    ReconstructBySegments(points, needSplit);
  }

  // ---------------------------------------------------------------------------
  // get_points: validation, seed, refinement loop
  // ---------------------------------------------------------------------------

  /** The three starting points: start, midpoint, stop. */
  function Seed(xStart: real, xStop: real): (s: seq<real>)
    ensures |s| == 3 && s[0] == xStart && s[2] == xStop
    ensures xStart < xStop ==> StrictlyIncreasing(s) && xStart < s[1] < xStop
  {
    [xStart, Mid(xStart, xStop), xStop]
  }

  /** One pass of the loop: score the points, flag, reconstruct. With epsilon at most 1 it adds
      at least two points and keeps the endpoints and the strict order. */
  function Refine(f: real -> real, atan: real -> real, epsilon: real, p: seq<real>): (q: seq<real>)
    requires |p| >= 3 && StrictlyIncreasing(p) && epsilon <= 1.0
    ensures |q| >= |p| + 2
    ensures q[0] == p[0] && Last(q) == Last(p)
    ensures StrictlyIncreasing(q)
  {
    var scores := Scores(f, atan, p);
    var flags := NeedSplit(scores, epsilon);
    TopScoreFlagged(scores, epsilon);
    ReconstructGrows(p, flags);
    ReconstructIncreasing(p, flags);
    Reconstruct(p, flags)
  }

  /** The outcome of the refinement loop started from p: passes until there are at least
      numPoints points. Whenever a pass is due, epsilon must be at most 1. */
  function Refined(f: real -> real, atan: real -> real, epsilon: real, numPoints: int, p: seq<real>): (r: seq<real>)
    requires |p| >= 3 && StrictlyIncreasing(p)
    requires |p| < numPoints ==> epsilon <= 1.0
    ensures |r| >= numPoints && |r| >= |p|
    ensures r[0] == p[0] && Last(r) == Last(p)
    ensures StrictlyIncreasing(r)
    decreases numPoints - |p|
  {
    if |p| >= numPoints then p
    else Refined(f, atan, epsilon, numPoints, Refine(f, atan, epsilon, p))
  }

  lemma RefinedStep(f: real -> real, atan: real -> real, epsilon: real, numPoints: int, p: seq<real>)
    requires 3 <= |p| < numPoints && StrictlyIncreasing(p) && epsilon <= 1.0
    ensures Refined(f, atan, epsilon, numPoints, p) == Refined(f, atan, epsilon, numPoints, Refine(f, atan, epsilon, p))
  {
  }

  lemma RefinedDone(f: real -> real, atan: real -> real, epsilon: real, numPoints: int, p: seq<real>)
    requires 3 <= |p| && numPoints <= |p| && StrictlyIncreasing(p)
    ensures Refined(f, atan, epsilon, numPoints, p) == p
  {
  }

  /** Refinement never leaves the interval spanned by the starting points. */
  lemma RefinedWithin(f: real -> real, atan: real -> real, epsilon: real, numPoints: int, p: seq<real>)
    requires |p| >= 3 && StrictlyIncreasing(p)
    requires |p| < numPoints ==> epsilon <= 1.0
    ensures var r := Refined(f, atan, epsilon, numPoints, p);
      forall i :: 0 <= i < |r| ==> p[0] <= r[i] <= Last(p)
  {
    IncreasingBounds(Refined(f, atan, epsilon, numPoints, p));
  }

  /** With positive top score and epsilon above 1 a pass changes nothing: this is how the
      loop of get_points can spin forever. */
  lemma StalledPass(p: seq<real>, scores: seq<real>, epsilon: real)
    requires |p| >= 3 && |scores| == |p| - 2
    requires MaxOf(scores) > 0.0 && epsilon > 1.0
    ensures Reconstruct(p, NeedSplit(scores, epsilon)) == p
  {
    NothingFlaggedAboveOne(scores, epsilon);
    ReconstructUnflagged(p, NeedSplit(scores, epsilon));
  }

  /** The refinement loop of get_points: pass after pass until there are numPoints points. */
  method RefineLoop(f: real -> real, atan: real -> real, epsilon: real, numPoints: int, seed: seq<real>)
    returns (points: seq<real>)
    requires |seed| >= 3 && StrictlyIncreasing(seed)
    requires |seed| < numPoints ==> epsilon <= 1.0
    ensures points == Refined(f, atan, epsilon, numPoints, seed)
  {
    points := seed;
    while |points| < numPoints
      invariant |points| >= 3 && StrictlyIncreasing(points)
      invariant |points| < numPoints ==> epsilon <= 1.0
      invariant Refined(f, atan, epsilon, numPoints, points) == Refined(f, atan, epsilon, numPoints, seed)
      decreases numPoints - |points|
    {
      var needSplit := NeedSplit(Scores(f, atan, points), epsilon);
      ghost var next := Refine(f, atan, epsilon, points);
      RefinedStep(f, atan, epsilon, numPoints, points);
      points := ReconstructPass(points, needSplit);
      assert points == next;
    }
    RefinedDone(f, atan, epsilon, numPoints, points);
  }

  /** A successful get_points returns at least numPoints strictly increasing points running
      from xStart to xStop. */
  lemma SampleShape(f: real -> real, atan: real -> real, xStart: real, xStop: real, numPoints: int, epsilon: real)
    requires xStart < xStop && 2 < numPoints
    requires 3 < numPoints ==> epsilon <= 1.0
    ensures var r := Refined(f, atan, epsilon, numPoints, Seed(xStart, xStop));
      |r| >= numPoints && StrictlyIncreasing(r) && r[0] == xStart && Last(r) == xStop
  {
  }

  /** Every returned point lies in [xStart, xStop]. */
  lemma SampleWithinInterval(f: real -> real, atan: real -> real, xStart: real, xStop: real, numPoints: int, epsilon: real)
    requires xStart < xStop && 2 < numPoints
    requires 3 < numPoints ==> epsilon <= 1.0
    ensures var r := Refined(f, atan, epsilon, numPoints, Seed(xStart, xStop));
      forall i :: 0 <= i < |r| ==> xStart <= r[i] <= xStop
  {
    RefinedWithin(f, atan, epsilon, numPoints, Seed(xStart, xStop));
  }

  /** Asked for three points, get_points returns the seed without any pass. */
  lemma SampleOfThree(f: real -> real, atan: real -> real, xStart: real, xStop: real, epsilon: real)
    requires xStart < xStop
    ensures Refined(f, atan, epsilon, 3, Seed(xStart, xStop)) == Seed(xStart, xStop)
  {
    RefinedDone(f, atan, epsilon, 3, Seed(xStart, xStop));
  }

  /** get_points: check the arguments, seed three points, refine until numPoints are reached.
      A successful call returns at least numPoints strictly increasing points from xStart to
      xStop; asked for three, it returns the seed. */
  method GetPoints(f: real -> real, atan: real -> real, xStart: real, xStop: real, numPoints: int, epsilon: real)
    returns (r: Result<seq<real>>)
    requires xStart < xStop && 3 < numPoints ==> epsilon <= 1.0
    ensures xStop <= xStart ==> r == Err(InvalidInterval)
    ensures xStart < xStop && numPoints <= 2 ==> r == Err(InvalidCount)
    ensures xStart < xStop && 2 < numPoints ==> r == Ok(Refined(f, atan, epsilon, numPoints, Seed(xStart, xStop)))
    ensures r.Ok? ==> |r.value| >= numPoints && StrictlyIncreasing(r.value)
    ensures r.Ok? ==> r.value[0] == xStart && Last(r.value) == xStop
    ensures r.Ok? ==> forall i :: 0 <= i < |r.value| ==> xStart <= r.value[i] <= xStop
    ensures r.Ok? && numPoints == 3 ==> r.value == Seed(xStart, xStop)
  {
    if xStop <= xStart {
      return Err(InvalidInterval);
    }
    if numPoints <= 2 {
      return Err(InvalidCount);
    }
    var points := RefineLoop(f, atan, epsilon, numPoints, Seed(xStart, xStop));
    SampleShape(f, atan, xStart, xStop, numPoints, epsilon);
    SampleWithinInterval(f, atan, xStart, xStop, numPoints, epsilon);
    if numPoints == 3 {
      SampleOfThree(f, atan, xStart, xStop, epsilon);
    }
    r := Ok(points);
  }
}
