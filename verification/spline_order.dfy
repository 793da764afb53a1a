/** The landscape-spline converter: the interpolated points of every
    segment of a landscape spline are collected, ordered greedily so that
    each next point is the nearest one not yet taken, and moved from the
    landscape's frame into world space. Points are represented by their
    centres; the distance between two centres is given. */
module SplineOrder {
  import opened Py
  import opened Text

  datatype Vec = Vec(x: real, y: real, z: real)

  function Plus(a: Vec, b: Vec): Vec
  {
    Vec(a.x + b.x, a.y + b.y, a.z + b.z)
  }

  function Minus(a: Vec): Vec
  {
    Vec(-a.x, -a.y, -a.z)
  }

  /** `FVector::Distance`, which is not modelled: it is given. */
  type Dist = (Vec, Vec) -> real

  /** `k` is the first position of `points` whose distance from `p` is
      smallest: no point is nearer, and every point before it is farther. */
  predicate IsNearest(points: seq<Vec>, p: Vec, dist: Dist, k: int)
  {
    && 0 <= k < |points|
    && (forall j :: 0 <= j < |points| ==> dist(p, points[k]) <= dist(p, points[j]))
    && (forall j :: 0 <= j < k ==> dist(p, points[k]) < dist(p, points[j]))
  }

  /** There is only one first nearest position. */
  lemma NearestUnique(points: seq<Vec>, p: Vec, dist: Dist, k: int, other: int)
    requires IsNearest(points, p, dist, k)
    requires 0 <= other < |points| && other != k
    ensures !IsNearest(points, p, dist, other)
  {
    if other < k {
      assert dist(p, points[k]) < dist(p, points[other]);
    } else {
      assert dist(p, points[k]) <= dist(p, points[other]);
    }
  }

  /** The scan of `FindNearestIndex` as a recursive definition: the last
      point replaces the best of the others only when strictly nearer. */
  function NearestIndex(points: seq<Vec>, p: Vec, dist: Dist): (k: nat)
    ensures |points| == 0 ==> k == 0
    ensures |points| > 0 ==> IsNearest(points, p, dist, k)
    decreases |points|
  {
    if |points| <= 1 then 0
    else
      var n := |points| - 1;
      var k := NearestIndex(points[..n], p, dist);
      assert forall j :: 0 <= j < n ==> points[..n][j] == points[j];
      if dist(p, points[n]) < dist(p, points[k]) then n else k
  }

  /** `FindNearestIndex(points, point)`: starts from index 0 at an infinite
      distance and keeps the first strictly nearer point. */
  method FindNearestIndex(points: seq<Vec>, p: Vec, dist: Dist) returns (nearest: int)
    ensures |points| == 0 ==> nearest == 0
    ensures |points| > 0 ==> IsNearest(points, p, dist, nearest)
    ensures nearest == NearestIndex(points, p, dist)
  {
    nearest := 0;
    var best: Option<real> := None;
    for i := 0 to |points|
      invariant i == 0 <==> best.None?
      invariant i == 0 ==> nearest == 0
      invariant i > 0 ==> nearest == NearestIndex(points[..i], p, dist)
      invariant i > 0 ==> 0 <= nearest < i && best == Some(dist(p, points[nearest]))
    {
      var d := dist(p, points[i]);
      assert points[..i + 1][..i] == points[..i];
      if best.None? || d < best.value {
        best := Some(d);
        nearest := i;
      }
    }
    assert points[..|points|] == points;
  }

  /** `RemoveAt(k)`: the point at `k` leaves, the others keep their order. */
  function RemoveAt(s: seq<Vec>, k: nat): (r: seq<Vec>)
    requires k < |s|
    ensures |r| == |s| - 1
    ensures multiset(r) + multiset{s[k]} == multiset(s)
  {
    assert s == s[..k] + [s[k]] + s[k + 1..];
    s[..k] + s[k + 1..]
  }

  /** The points the loop appends after `last`, from the `remaining` ones:
      each time the nearest remaining point to the one appended before. */
  function Greedy(last: Vec, remaining: seq<Vec>, dist: Dist): (g: seq<Vec>)
    ensures |g| == |remaining|
    decreases |remaining|
  {
    if |remaining| == 0 then []
    else
      var k := NearestIndex(remaining, last, dist);
      [remaining[k]] + Greedy(remaining[k], RemoveAt(remaining, k), dist)
  }

  /** Nearest-neighbour order stated without indices: after `last`, each
      point of `g` is drawn from the points not yet taken, and none of those
      is nearer to the point before it. */
  predicate NearestSteps(last: Vec, g: seq<Vec>, pool: multiset<Vec>, dist: Dist)
    decreases |g|
  {
    if |g| == 0 then pool == multiset{}
    else
      && g[0] in pool
      && (forall q :: q in pool ==> dist(last, g[0]) <= dist(last, q))
      && NearestSteps(g[0], g[1..], pool - multiset{g[0]}, dist)
  }

  /** Every greedy step takes a nearest remaining point, and the steps use
      up exactly the remaining points. */
  lemma {:induction false} GreedyIsNearestSteps(last: Vec, remaining: seq<Vec>, dist: Dist)
    ensures NearestSteps(last, Greedy(last, remaining, dist), multiset(remaining), dist)
    decreases |remaining|
  {
    if |remaining| > 0 {
      var k := NearestIndex(remaining, last, dist);
      var rest := RemoveAt(remaining, k);
      var g := Greedy(last, remaining, dist);
      assert g[0] == remaining[k] && g[1..] == Greedy(remaining[k], rest, dist);
      forall q | q in multiset(remaining)
        ensures dist(last, g[0]) <= dist(last, q)
      {
        var j :| 0 <= j < |remaining| && remaining[j] == q;
      }
      GreedyIsNearestSteps(remaining[k], rest, dist);
      assert multiset(rest) == multiset(remaining) - multiset{g[0]};
    }
  }

  /** The greedy order is a permutation of the remaining points. */
  lemma {:induction false} GreedyPermutes(last: Vec, remaining: seq<Vec>, dist: Dist)
    ensures multiset(Greedy(last, remaining, dist)) == multiset(remaining)
    decreases |remaining|
  {
    if |remaining| > 0 {
      var k := NearestIndex(remaining, last, dist);
      GreedyPermutes(remaining[k], RemoveAt(remaining, k), dist);
    }
  }

  /** The whole order: the first collected point, then the greedy rest. */
  function Order(points: seq<Vec>, dist: Dist): (ordered: seq<Vec>)
    requires |points| > 0
    ensures |ordered| == |points| && ordered[0] == points[0]
  {
    [points[0]] + Greedy(points[0], points[1..], dist)
  }

  /** The ordered points are a permutation of the collected ones, and after
      the first each is a nearest one to its predecessor among those left. */
  lemma OrderPermutes(points: seq<Vec>, dist: Dist)
    requires |points| > 0
    ensures multiset(Order(points, dist)) == multiset(points)
    ensures NearestSteps(points[0], Order(points, dist)[1..], multiset(points[1..]), dist)
  {
    var g := Greedy(points[0], points[1..], dist);
    assert Order(points, dist)[1..] == g;
    assert multiset(Order(points, dist)) == multiset(points) by {
      GreedyPermutes(points[0], points[1..], dist);
      assert points == [points[0]] + points[1..];
    }
    GreedyIsNearestSteps(points[0], points[1..], dist);
  }

  /** The ordering loop of `GenerateSpline`: take the first point, then
      repeatedly move the remaining point nearest to the last one taken. */
  method OrderPoints(points: seq<Vec>, dist: Dist) returns (ordered: seq<Vec>)
    requires |points| > 0
    ensures ordered == Order(points, dist)
    ensures multiset(ordered) == multiset(points)
  {
    ordered := [points[0]];
    var remaining := points[1..];
    while |remaining| > 0
      invariant |ordered| > 0
      invariant ordered + Greedy(Last(ordered), remaining, dist) == Order(points, dist)
      decreases |remaining|
    {
      var k := FindNearestIndex(remaining, Last(ordered), dist);
      var taken := remaining[k];
      var rest := RemoveAt(remaining, k);
      assert Greedy(Last(ordered), remaining, dist) == [taken] + Greedy(taken, rest, dist);
      assert ordered + ([taken] + Greedy(taken, rest, dist)) == (ordered + [taken]) + Greedy(taken, rest, dist);
      ordered := ordered + [taken];
      remaining := rest;
    }
    OrderPermutes(points, dist);
  }

  /** The collection loop: each segment's points are appended and then the
      last collected point is removed, since it begins the next segment.
      Removing from an empty collection is out of range: `None`, unless
      `guarded`, when the removal is skipped. */
  function Collect(points: seq<Vec>, segments: seq<seq<Vec>>, guarded: bool): (r: Option<seq<Vec>>)
    ensures guarded ==> r.Some?
    decreases |segments|
  {
    if |segments| == 0 then Some(points)
    else
      var all := points + segments[0];
      if |all| == 0 then
        if guarded then Collect([], segments[1..], guarded) else None
      else Collect(Init(all), segments[1..], guarded)
  }

  /** Each segment without its last point, in order. */
  function WithoutLasts(segments: seq<seq<Vec>>): seq<Vec>
    requires forall i :: 0 <= i < |segments| ==> |segments[i]| > 0
  {
    if |segments| == 0 then [] else Init(segments[0]) + WithoutLasts(segments[1..])
  }

  /** When no segment is empty, the collected points are the segments'
      points without each segment's last one. */
  lemma {:induction false} CollectDropsLasts(points: seq<Vec>, segments: seq<seq<Vec>>, guarded: bool)
    requires forall i :: 0 <= i < |segments| ==> |segments[i]| > 0
    ensures Collect(points, segments, guarded) == Some(points + WithoutLasts(segments))
    decreases |segments|
  {
    if |segments| > 0 {
      var all := points + segments[0];
      assert |all| > 0;
      assert Init(all) == points + Init(segments[0]);
      assert forall i :: 0 <= i < |segments[1..]| ==> |segments[1..][i]| > 0 by {
        forall i | 0 <= i < |segments[1..]| ensures |segments[1..][i]| > 0 {
          assert segments[1..][i] == segments[i + 1];
        }
      }
      assert WithoutLasts(segments) == Init(segments[0]) + WithoutLasts(segments[1..]);
      assert Collect(points, segments, guarded) == Collect(Init(all), segments[1..], guarded);
      CollectDropsLasts(Init(all), segments[1..], guarded);
      assert Init(all) + WithoutLasts(segments[1..]) == points + WithoutLasts(segments);
    } else {
      assert points + WithoutLasts(segments) == points;
    }
  }

  /** The landscape actor: its location and the segments of its splines
      component, `None` when it has no such component. */
  datatype Landscape = Landscape(location: Vec, splines: Option<seq<seq<Vec>>>)

  /** The segments to collect from, none without a splines component. */
  function Segments(l: Landscape): seq<seq<Vec>>
  {
    if l.splines.Some? then l.splines.value else []
  }

  /** The returned world-space points, or an out-of-range access. */
  datatype Generated = Points(points: seq<Vec>) | Faulted

  /** Every point moved by `offset`. */
  function Offset(points: seq<Vec>, offset: Vec): (r: seq<Vec>)
    ensures |r| == |points|
    ensures forall i :: 0 <= i < |points| ==> r[i] == Plus(points[i], offset)
  {
    if |points| == 0 then [] else [Plus(points[0], offset)] + Offset(points[1..], offset)
  }

  /** Moving back by the opposite offset restores every point. */
  lemma OffsetInverse(points: seq<Vec>, offset: Vec)
    ensures Offset(Offset(points, offset), Minus(offset)) == points
  {
    var back := Offset(Offset(points, offset), Minus(offset));
    forall i | 0 <= i < |points|
      ensures back[i] == points[i]
    {
    }
  }

  /** `GenerateSpline()`, with the guards against a missing splines
      component and an empty collection switched by `guarded`. */
  function Generate(landscape: Option<Landscape>, dist: Dist, guarded: bool): (r: Generated)
  {
    match landscape
    case None => Points([])
    case Some(l) =>
      if l.splines.None? then (if guarded then Points([]) else Faulted)
      else
        match Collect([], l.splines.value, guarded)
        case None => Faulted
        case Some(points) =>
          if |points| == 0 then (if guarded then Points([]) else Faulted)
          else Points(Offset(Order(points, dist), l.location))
  }

  /** `GenerateSpline()` as written: a landscape without a splines
      component is dereferenced as a null pointer; with no collected point,
      `points[0]` is out of range, as is the removal after a first empty
      segment. */
  function GenerateSplineAsWritten(landscape: Option<Landscape>, dist: Dist): (r: Generated)
    ensures landscape.None? ==> r == Points([])
    ensures r.Faulted? <==> landscape.Some? && (landscape.value.splines.None?
                                                || Collect([], Segments(landscape.value), false).None?
                                                || Collect([], Segments(landscape.value), false).value == [])
  {
    Generate(landscape, dist, false)
  }

  /** `GenerateSpline()` returning no points when there is nothing to
      order. */
  function GenerateSpline(landscape: Option<Landscape>, dist: Dist): (r: Generated)
    ensures r.Points?
    ensures landscape.None? ==> r.points == []
  {
    Generate(landscape, dist, true)
  }

  /** The spline's points are the collected points, reordered and moved by
      the landscape's location: taken back to the landscape's frame they
      are a permutation of the collected points, start with the first one,
      and follow the nearest-neighbour order. */
  lemma SplinePermutesPoints(l: Landscape, dist: Dist)
    ensures var points := Collect([], Segments(l), true).value;
            var back := Offset(GenerateSpline(Some(l), dist).points, Minus(l.location));
            && |back| == |points|
            && multiset(back) == multiset(points)
            && (|points| > 0 ==> back[0] == points[0]
                                 && NearestSteps(points[0], back[1..], multiset(points[1..]), dist))
  {
    var points := Collect([], Segments(l), true).value;
    if |points| > 0 {
      OffsetInverse(Order(points, dist), l.location);
      OrderPermutes(points, dist);
    }
  }

  /** Where the as-written converter does return points, the guarded one
      returns the same. */
  lemma GuardAgrees(landscape: Option<Landscape>, dist: Dist)
    requires GenerateSplineAsWritten(landscape, dist).Points?
    ensures GenerateSpline(landscape, dist) == GenerateSplineAsWritten(landscape, dist)
  {
    if landscape.Some? && landscape.value.splines.Some? {
      CollectGuardAgrees([], landscape.value.splines.value);
    }
  }

  lemma {:induction false} CollectGuardAgrees(points: seq<Vec>, segments: seq<seq<Vec>>)
    requires Collect(points, segments, false).Some?
    ensures Collect(points, segments, true) == Collect(points, segments, false)
    decreases |segments|
  {
    if |segments| > 0 {
      var all := points + segments[0];
      if |all| > 0 {
        CollectGuardAgrees(Init(all), segments[1..]);
      }
    }
  }

  /** A landscape whose spline has no segments faults as written, and gives
      an empty spline with the guard. */
  lemma NoSegmentsFaults(location: Vec, dist: Dist)
    ensures GenerateSplineAsWritten(Some(Landscape(location, Some([]))), dist) == Faulted
    ensures GenerateSpline(Some(Landscape(location, Some([]))), dist) == Points([])
  {
  }

  /** A landscape without a splines component faults as written, and gives
      an empty spline with the guard. */
  lemma NoSplinesComponentFaults(location: Vec, dist: Dist)
    ensures GenerateSplineAsWritten(Some(Landscape(location, None)), dist) == Faulted
    ensures GenerateSpline(Some(Landscape(location, None)), dist) == Points([])
  {
  }
}
