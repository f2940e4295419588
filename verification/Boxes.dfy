/** Boxes of an N-dimensional grid and the tests of bbox.c. */
module Boxes {
  import opened Arithmetic
  import opened HilbertIndex
  import opened Intervals

  /** Lower and upper bounds, both included; a box with an upper bound below a lower one is empty. */
  datatype Box = Box(lb: seq<nat>, ub: seq<nat>)

  ghost predicate IsBox(b: Box, n: nat) {
    |b.lb| == |b.ub| == n
  }

  ghost predicate NonEmpty(b: Box, n: nat) {
    IsBox(b, n) && forall d :: 0 <= d < n ==> b.lb[d] <= b.ub[d]
  }

  /** No bound is more than one below its partner, so that no size wraps around. */
  ghost predicate Sized(b: Box, n: nat) {
    IsBox(b, n) && forall d :: 0 <= d < n ==> b.lb[d] <= b.ub[d] + 1
  }

  ghost predicate In(b: Box, p: Point) {
    |p| == |b.lb| == |b.ub| && forall d :: 0 <= d < |p| ==> b.lb[d] <= p[d] <= b.ub[d]
  }

  // ----- the tests

  ghost predicate Includes(b0: Box, b1: Box, n: nat)
    requires IsBox(b0, n) && IsBox(b1, n)
  {
    forall d :: 0 <= d < n ==> b0.lb[d] <= b1.lb[d] && b0.ub[d] >= b1.ub[d]
  }

  predicate MeetsOnDim(b0: Box, b1: Box, d: nat)
    requires d < |b0.lb| == |b0.ub| == |b1.lb| == |b1.ub|
  {
    (b0.lb[d] <= b1.lb[d] && b1.lb[d] <= b0.ub[d]) || (b1.lb[d] <= b0.lb[d] && b0.lb[d] <= b1.ub[d])
  }

  ghost predicate Meets(b0: Box, b1: Box, n: nat)
    requires IsBox(b0, n) && IsBox(b1, n)
  {
    forall d :: 0 <= d < n ==> MeetsOnDim(b0, b1, d)
  }

  method BBoxInclude(b0: Box, b1: Box, ghost n: nat) returns (r: bool)
    requires IsBox(b0, n) && IsBox(b1, n)
    ensures r <==> Includes(b0, b1, n)
  {
    for i := 0 to |b0.lb|
      invariant forall d :: 0 <= d < i ==> b0.lb[d] <= b1.lb[d] && b0.ub[d] >= b1.ub[d]
    {
      if !(b0.lb[i] <= b1.lb[i] && b0.ub[i] >= b1.ub[i]) {
        return false;
      }
    }
    return true;
  }

  method BBoxDoesIntersect(b0: Box, b1: Box, ghost n: nat) returns (r: bool)
    requires IsBox(b0, n) && IsBox(b1, n)
    ensures r <==> Meets(b0, b1, n)
  {
    for i := 0 to |b0.lb|
      invariant forall d :: 0 <= d < i ==> MeetsOnDim(b0, b1, d)
    {
      if !MeetsOnDim(b0, b1, i) {
        return false;
      }
    }
    return true;
  }

  method BBoxEquals(b0: Box, b1: Box) returns (r: bool)
    requires IsBox(b0, |b0.lb|) && IsBox(b1, |b1.lb|)
    ensures r <==> b0 == b1
  {
    if |b0.lb| == |b1.lb| {
      for i := 0 to |b0.lb|
        invariant b0.lb[..i] == b1.lb[..i] && b0.ub[..i] == b1.ub[..i]
      {
        if b0.lb[i] != b1.lb[i] || b0.ub[i] != b1.ub[i] {
          return false;
        }
      }
      assert b0.lb == b0.lb[..|b0.lb|] && b0.ub == b0.ub[..|b0.lb|];
      return true;
    }
    return false;
  }

  function Max(a: nat, b: nat): nat {
    if a > b then a else b
  }

  function Min(a: nat, b: nat): nat {
    if a < b then a else b
  }

  function Intersection(b0: Box, b1: Box): (r: Box)
    requires |b0.lb| == |b0.ub| == |b1.lb| == |b1.ub|
    ensures IsBox(r, |b0.lb|)
  {
    Box(seq(|b0.lb|, d requires 0 <= d < |b0.lb| => Max(b0.lb[d], b1.lb[d])),
        seq(|b0.lb|, d requires 0 <= d < |b0.lb| => Min(b0.ub[d], b1.ub[d])))
  }

  method BBoxIntersect(b0: Box, b1: Box, ghost n: nat) returns (b2: Box)
    requires IsBox(b0, n) && IsBox(b1, n)
    ensures b2 == Intersection(b0, b1)
  {
    var lb, ub := [], [];
    for i := 0 to |b0.lb|
      invariant lb == Intersection(b0, b1).lb[..i] && ub == Intersection(b0, b1).ub[..i]
    {
      lb := lb + [Max(b0.lb[i], b1.lb[i])];
      ub := ub + [Min(b0.ub[i], b1.ub[i])];
    }
    b2 := Box(lb, ub);
  }

  /** The intersection holds exactly the common points. */
  lemma InIntersection(b0: Box, b1: Box, n: nat, p: Point)
    requires IsBox(b0, n) && IsBox(b1, n)
    ensures In(Intersection(b0, b1), p) <==> In(b0, p) && In(b1, p)
  {
    var r := Intersection(b0, b1);
    forall d | 0 <= d < n
      ensures r.lb[d] == Max(b0.lb[d], b1.lb[d]) && r.ub[d] == Min(b0.ub[d], b1.ub[d])
    {
    }
  }

  /** For a box with points, bbox_include tests whether all of them lie in the other box. */
  lemma IncludesMeansPoints(b0: Box, b1: Box, n: nat)
    requires IsBox(b0, n) && NonEmpty(b1, n)
    ensures Includes(b0, b1, n) <==> forall p :: In(b1, p) ==> In(b0, p)
  {
    if forall p :: In(b1, p) ==> In(b0, p) {
      assert In(b1, b1.lb) && In(b1, b1.ub);
    }
  }

  /** For boxes with points, bbox_does_intersect tests whether they have one in common. */
  lemma MeetsMeansPoint(b0: Box, b1: Box, n: nat)
    requires NonEmpty(b0, n) && NonEmpty(b1, n)
    ensures Meets(b0, b1, n) <==> exists p :: In(b0, p) && In(b1, p)
  {
    if Meets(b0, b1, n) {
      var p := Intersection(b0, b1).lb;
      forall d | 0 <= d < n
        ensures p[d] == Max(b0.lb[d], b1.lb[d]) && p[d] <= b0.ub[d] && p[d] <= b1.ub[d]
      {
        assert MeetsOnDim(b0, b1, d);
      }
      assert In(b0, p) && In(b1, p);
    }
  }

  /** A common point makes bbox_does_intersect true even if boxes may be empty. */
  lemma PointMeansMeets(b0: Box, b1: Box, n: nat, p: Point)
    requires IsBox(b0, n) && IsBox(b1, n) && In(b0, p) && In(b1, p)
    ensures Meets(b0, b1, n)
  {
  }

  /** The intersection of boxes that meet, one of them with points, has sizes that do not wrap. */
  lemma IntersectionSized(b0: Box, b1: Box, n: nat)
    requires NonEmpty(b0, n) && Sized(b1, n) && Meets(b0, b1, n)
    ensures Sized(Intersection(b0, b1), n)
  {
    forall d | 0 <= d < n
      ensures Intersection(b0, b1).lb[d] <= Intersection(b0, b1).ub[d] + 1
    {
      assert MeetsOnDim(b0, b1, d);
    }
  }

  // ----- volume and the number of points

  function VolumeOf(lb: seq<nat>, ub: seq<nat>): nat
    requires |lb| == |ub|
  {
    if lb == [] then 1 else Times(SpanSize(lb[0], ub[0]), VolumeOf(lb[1..], ub[1..]))
  }

  function Volume(b: Box): nat
    requires |b.lb| == |b.ub|
  {
    VolumeOf(b.lb, b.ub)
  }

  lemma {:induction false} VolumeSnoc(lb: seq<nat>, ub: seq<nat>, l: nat, u: nat)
    requires |lb| == |ub|
    ensures VolumeOf(lb + [l], ub + [u]) == Times(VolumeOf(lb, ub), SpanSize(l, u))
  {
    if lb == [] {
      TimesZeroOne(SpanSize(l, u));
      assert VolumeOf([l], [u]) == Times(SpanSize(l, u), VolumeOf([], []));
    } else {
      VolumeSnoc(lb[1..], ub[1..], l, u);
      assert (lb + [l])[1..] == lb[1..] + [l] && (ub + [u])[1..] == ub[1..] + [u];
      TimesAssociates(SpanSize(lb[0], ub[0]), VolumeOf(lb[1..], ub[1..]), SpanSize(l, u));
    }
  }

  method BBoxVolume(bb: Box, ghost n: nat) returns (v: nat)
    requires Sized(bb, n)
    ensures v == Volume(bb)
  {
    v := 1;
    for i := 0 to |bb.lb|
      invariant v == VolumeOf(bb.lb[..i], bb.ub[..i])
    {
      VolumeSnoc(bb.lb[..i], bb.ub[..i], bb.lb[i], bb.ub[i]);
      assert bb.lb[..i + 1] == bb.lb[..i] + [bb.lb[i]] && bb.ub[..i + 1] == bb.ub[..i] + [bb.ub[i]];
      v := Times(v, bb.ub[i] + 1 - bb.lb[i]);
    }
    assert bb.lb[..|bb.lb|] == bb.lb && bb.ub[..|bb.lb|] == bb.ub;
  }

  /** The points with one more coordinate in front. */
  function Prefixed(x: nat, ps: set<Point>): (r: set<Point>)
    ensures forall p :: p in r <==> p != [] && p[0] == x && p[1..] in ps
  {
    var r := set q | q in ps :: [x] + q;
    assert forall p :: p != [] && p[0] == x && p[1..] in ps ==> p == [x] + p[1..] && p in r;
    r
  }

  lemma {:induction false} PrefixedSize(x: nat, ps: set<Point>)
    ensures |Prefixed(x, ps)| == |ps|
  {
    if ps != {} {
      var q :| q in ps;
      PrefixedSize(x, ps - {q});
      assert ([x] + q)[1..] == q;
      assert Prefixed(x, ps) == Prefixed(x, ps - {q}) + {[x] + q};
    }
  }

  function Prefixes(xs: set<nat>, ps: set<Point>): (r: set<Point>)
    ensures forall p :: p in r <==> p != [] && p[0] in xs && p[1..] in ps
  {
    var r := set x, q | x in xs && q in ps :: [x] + q;
    assert forall p :: p in r <==> p != [] && p[0] in xs && p[1..] in ps by {
      forall p | p != [] && p[0] in xs && p[1..] in ps
        ensures p in r
      {
        var x, q := p[0], p[1..];
        assert p == [x] + q;
      }
    }
    r
  }

  lemma PrefixesSplit(x: nat, rest: set<nat>, ps: set<Point>)
    requires x !in rest
    ensures Prefixes(rest + {x}, ps) == Prefixes(rest, ps) + Prefixed(x, ps)
    ensures |Prefixes(rest + {x}, ps)| == |Prefixes(rest, ps)| + |Prefixed(x, ps)|
  {
    var a, b := Prefixes(rest, ps), Prefixed(x, ps);
    assert Prefixes(rest + {x}, ps) == a + b;
    assert a !! b;
  }

  lemma {:induction false} PrefixesSize(xs: set<nat>, ps: set<Point>)
    ensures |Prefixes(xs, ps)| == Times(|xs|, |ps|)
  {
    hide Prefixes, Prefixed;
    if xs == {} {
      assert Prefixes(xs, ps) == {};
    } else {
      var x :| x in xs;
      var rest := xs - {x};
      PrefixesSize(rest, ps);
      PrefixedSize(x, ps);
      PrefixesSplit(x, rest, ps);
      assert xs == rest + {x};
    }
  }

  function PointsOf(lb: seq<nat>, ub: seq<nat>): (ps: set<Point>)
    requires |lb| == |ub|
  {
    if lb == [] then {[]} else Prefixes(Span(lb[0], ub[0]), PointsOf(lb[1..], ub[1..]))
  }

  /** The points of a box. */
  function Points(b: Box): set<Point>
    requires |b.lb| == |b.ub|
  {
    PointsOf(b.lb, b.ub)
  }

  lemma {:induction false} PointsOfAt(lb: seq<nat>, ub: seq<nat>, p: Point)
    requires |lb| == |ub|
    ensures p in PointsOf(lb, ub) <==> In(Box(lb, ub), p)
  {
    if lb != [] && p != [] {
      PointsOfAt(lb[1..], ub[1..], p[1..]);
      assert In(Box(lb, ub), p) <==> lb[0] <= p[0] <= ub[0] && In(Box(lb[1..], ub[1..]), p[1..]) by {
        if lb[0] <= p[0] <= ub[0] && In(Box(lb[1..], ub[1..]), p[1..]) {
          forall d | 0 <= d < |p|
            ensures lb[d] <= p[d] <= ub[d]
          {
            if d > 0 {
              assert lb[d] == lb[1..][d - 1] && p[d] == p[1..][d - 1] && ub[d] == ub[1..][d - 1];
            }
          }
        }
      }
    }
  }

  /** Volume counts the points. */
  lemma {:induction false} VolumeCounts(lb: seq<nat>, ub: seq<nat>)
    requires |lb| == |ub|
    ensures |PointsOf(lb, ub)| == VolumeOf(lb, ub)
  {
    if lb != [] {
      VolumeCounts(lb[1..], ub[1..]);
      PrefixesSize(Span(lb[0], ub[0]), PointsOf(lb[1..], ub[1..]));
    }
  }

  lemma PointsAt(b: Box, p: Point)
    requires |b.lb| == |b.ub|
    ensures p in Points(b) <==> In(b, p)
  {
    PointsOfAt(b.lb, b.ub, p);
  }

  /** bbox_volume counts the points of a box. */
  lemma PointsNumber(b: Box)
    requires |b.lb| == |b.ub|
    ensures |Points(b)| == Volume(b)
  {
    VolumeCounts(b.lb, b.ub);
  }
}
