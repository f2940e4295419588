/** Object descriptors, and which elements of a query a list of them covers. */
module Descriptors {
  import opened HilbertIndex
  import opened Boxes

  /** What the index stores about one put: its name, version and box, and who keeps the data. */
  datatype Desc = Desc(name: string, version: nat, bb: Box, owner: string)

  ghost predicate SameObject(d: Desc, q: Desc) {
    d.name == q.name && d.version == q.version
  }

  /** obj_desc_equals_intersect. */
  ghost predicate Answers(d: Desc, q: Desc, n: nat) {
    IsBox(d.bb, n) && IsBox(q.bb, n) && SameObject(d, q) && Meets(q.bb, d.bb, n)
  }

  method EqualsIntersect(d: Desc, q: Desc, ghost n: nat) returns (r: bool)
    requires IsBox(d.bb, n) && IsBox(q.bb, n)
    ensures r <==> Answers(d, q, n)
  {
    if d.name == q.name && d.version == q.version {
      r := BBoxDoesIntersect(q.bb, d.bb, n);
    } else {
      r := false;
    }
  }

  /** obj_desc_by_name_intersect. */
  ghost predicate Overlaps(d: Desc, q: Desc, n: nat) {
    IsBox(d.bb, n) && IsBox(q.bb, n) && d.name == q.name && Meets(q.bb, d.bb, n)
  }

  method ByNameIntersect(d: Desc, q: Desc, ghost n: nat) returns (r: bool)
    requires IsBox(d.bb, n) && IsBox(q.bb, n)
    ensures r <==> Overlaps(d, q, n)
  {
    if d.name == q.name {
      r := BBoxDoesIntersect(q.bb, d.bb, n);
    } else {
      r := false;
    }
  }

  /** A descriptor of a put inside the domain. */
  ghost predicate Inside(d: Desc, domain: Box, n: nat) {
    IsBox(domain, n) && NonEmpty(d.bb, n) && Includes(domain, d.bb, n)
  }

  ghost predicate AllInside(ds: seq<Desc>, domain: Box, n: nat) {
    forall i :: 0 <= i < |ds| ==> Inside(ds[i], domain, n)
  }

  ghost predicate Apart(d: Desc, e: Desc, n: nat) {
    IsBox(d.bb, n) && IsBox(e.bb, n) && !Meets(d.bb, e.bb, n)
  }

  /** Descriptors of the same object have no point in common: no element is put twice. */
  ghost predicate PutOnce(ds: seq<Desc>, n: nat) {
    forall i, j :: 0 <= i < j < |ds| && SameObject(ds[i], ds[j]) ==> Apart(ds[i], ds[j], n)
  }

  lemma ApartPoints(b: Box, c: Box, n: nat, p: Point)
    requires NonEmpty(b, n) && NonEmpty(c, n) && !Meets(b, c, n)
    ensures !(In(b, p) && In(c, p))
  {
    if In(b, p) && In(c, p) {
      PointMeansMeets(b, c, n, p);
    }
  }

  lemma MeetsSymmetric(b: Box, c: Box, n: nat)
    requires IsBox(b, n) && IsBox(c, n)
    ensures Meets(b, c, n) <==> Meets(c, b, n)
  {
    forall d | 0 <= d < n
      ensures MeetsOnDim(b, c, d) <==> MeetsOnDim(c, b, d)
    {
    }
  }

  // ----- the elements a list of descriptors covers

  /** The points put by the descriptors of q's object. */
  ghost function Covered(ds: seq<Desc>, q: Desc): set<Point> {
    if ds == [] then {}
    else
      var last := |ds| - 1;
      Covered(ds[..last], q) + if SameObject(ds[last], q) && |ds[last].bb.lb| == |ds[last].bb.ub| then Points(ds[last].bb) else {}
  }

  ghost predicate CoveredBy(d: Desc, q: Desc, p: Point) {
    SameObject(d, q) && In(d.bb, p)
  }

  ghost predicate SomeCovers(ds: seq<Desc>, q: Desc, p: Point) {
    exists i :: 0 <= i < |ds| && CoveredBy(ds[i], q, p)
  }

  /** Every element of the query was put. */
  ghost predicate Covers(puts: seq<Desc>, q: Desc) {
    forall p :: In(q.bb, p) ==> SomeCovers(puts, q, p)
  }

  lemma SomeCoversSnoc(ds: seq<Desc>, q: Desc, p: Point)
    requires ds != []
    ensures SomeCovers(ds, q, p) <==> SomeCovers(ds[..|ds| - 1], q, p) || CoveredBy(ds[|ds| - 1], q, p)
  {
    var last := |ds| - 1;
    if SomeCovers(ds[..last], q, p) {
      var i :| 0 <= i < last && CoveredBy(ds[..last][i], q, p);
      assert CoveredBy(ds[i], q, p);
    }
    if SomeCovers(ds, q, p) && !CoveredBy(ds[last], q, p) {
      var i :| 0 <= i < |ds| && CoveredBy(ds[i], q, p);
      assert ds[..last][i] == ds[i];
    }
  }

  lemma {:induction false} CoveredAt(ds: seq<Desc>, q: Desc, p: Point)
    ensures p in Covered(ds, q) <==> SomeCovers(ds, q, p)
  {
    hide SomeCovers, Points, In;
    if ds == [] {
      NoneCovers(q, p);
    } else {
      var last := |ds| - 1;
      CoveredAt(ds[..last], q, p);
      SomeCoversSnoc(ds, q, p);
      if |ds[last].bb.lb| == |ds[last].bb.ub| {
        PointsAt(ds[last].bb, p);
      } else {
        NoPoint(ds[last].bb, p);
      }
    }
  }

  lemma NoneCovers(q: Desc, p: Point)
    ensures !SomeCovers([], q, p)
  {
  }

  lemma NoPoint(b: Box, p: Point)
    requires |b.lb| != |b.ub|
    ensures !In(b, p)
  {
  }

  /** The elements of q in own that no descriptor covers. */
  ghost function Uncovered(own: set<Point>, ds: seq<Desc>, q: Desc): set<Point>
    requires |q.bb.lb| == |q.bb.ub|
  {
    own * Points(q.bb) - Covered(ds, q)
  }

  /** The points two boxes share are those of their intersection. */
  lemma IntersectionPoints(b: Box, c: Box, n: nat)
    requires IsBox(b, n) && IsBox(c, n)
    ensures Points(Intersection(b, c)) == Points(b) * Points(c)
  {
    forall p: Point
      ensures p in Points(Intersection(b, c)) <==> p in Points(b) * Points(c)
    {
      PointsAt(b, p);
      PointsAt(c, p);
      PointsAt(Intersection(b, c), p);
      InIntersection(b, c, n, p);
    }
  }

  lemma IntersectionInside(b: Box, c: Box, domain: Box, n: nat)
    requires NonEmpty(b, n) && NonEmpty(c, n) && IsBox(domain, n) && Includes(domain, b, n) && Meets(b, c, n)
    ensures NonEmpty(Intersection(b, c), n) && Includes(domain, Intersection(b, c), n)
    ensures Includes(b, Intersection(b, c), n)
  {
    var r := Intersection(b, c);
    forall d | 0 <= d < n
      ensures r.lb[d] == Max(b.lb[d], c.lb[d]) <= r.ub[d] == Min(b.ub[d], c.ub[d])
    {
      assert MeetsOnDim(b, c, d);
    }
  }

  /** The points descriptor d puts of q's object. */
  ghost function PutBy(d: Desc, q: Desc): set<Point>
    requires |d.bb.lb| == |d.bb.ub|
  {
    if SameObject(d, q) then Points(d.bb) else {}
  }

  /** A descriptor that answers the query takes away the elements of the intersection. */
  lemma AnswerDrops(own: set<Point>, ds: seq<Desc>, d: Desc, q: Desc, n: nat)
    requires IsBox(q.bb, n) && IsBox(d.bb, n) && SameObject(d, q) && Covered(ds, q) !! Points(d.bb)
    ensures |Uncovered(own, ds, q) - PutBy(d, q)| == |Uncovered(own, ds, q)| - |own * Points(Intersection(q.bb, d.bb))|
  {
    hide Points;
    IntersectionPoints(q.bb, d.bb, n);
    var s, c, e := own * Points(q.bb), Covered(ds, q), Points(d.bb);
    assert s - c == ((s - c) - e) + s * e;
    assert ((s - c) - e) !! (s * e);
    assert own * Points(Intersection(q.bb, d.bb)) == s * e;
  }

  /** A descriptor of another object or elsewhere changes nothing. */
  lemma OtherStays(own: set<Point>, ds: seq<Desc>, d: Desc, q: Desc, n: nat)
    requires NonEmpty(q.bb, n) && NonEmpty(d.bb, n) && !Answers(d, q, n)
    ensures Uncovered(own, ds, q) - PutBy(d, q) == Uncovered(own, ds, q)
  {
    hide Points;
    if SameObject(d, q) {
      forall p | p in Points(q.bb)
        ensures p !in Points(d.bb)
      {
        PointsAt(q.bb, p);
        PointsAt(d.bb, p);
        ApartPoints(q.bb, d.bb, n, p);
      }
    }
  }

  /** The points a list covers and the points of a descriptor apart from those of its object are disjoint. */
  lemma ApartCovered(ds: seq<Desc>, d: Desc, q: Desc, n: nat)
    requires NonEmpty(d.bb, n) && forall i :: 0 <= i < |ds| ==> NonEmpty(ds[i].bb, n)
    requires SameObject(d, q) && forall i :: 0 <= i < |ds| && SameObject(ds[i], d) ==> Apart(ds[i], d, n)
    ensures Covered(ds, q) !! Points(d.bb)
  {
    hide Points, In;
    forall p | p in Covered(ds, q)
      ensures p !in Points(d.bb)
    {
      CoveredAt(ds, q, p);
      var i :| 0 <= i < |ds| && CoveredBy(ds[i], q, p);
      ApartPoints(ds[i].bb, d.bb, n, p);
      PointsAt(d.bb, p);
    }
  }

  // ----- collecting the descriptors that answer a query

  /** The descriptors that answer q, in list order. */
  ghost function Found(ds: seq<Desc>, q: Desc, n: nat): (r: seq<Desc>)
    ensures forall d :: d in r <==> d in ds && Answers(d, q, n)
  {
    if ds == [] then []
    else
      var last := |ds| - 1;
      assert ds == ds[..last] + [ds[last]];
      Found(ds[..last], q, n) + if Answers(ds[last], q, n) then [ds[last]] else []
  }

  // ----- lists that keep the order of another

  /** r lists what stands in xs at the places at, which increase. */
  ghost predicate Selects<X>(r: seq<X>, xs: seq<X>, at: seq<nat>) {
    && |at| == |r| && (forall t :: 0 <= t < |at| ==> at[t] < |xs| && r[t] == xs[at[t]])
    && forall t, u :: 0 <= t < u < |at| ==> at[t] < at[u]
  }

  lemma SelectsMore<X>(r: seq<X>, xs: seq<X>, at: seq<nat>, x: X)
    requires Selects(r, xs, at)
    ensures Selects(r, xs + [x], at) && Selects(r + [x], xs + [x], at + [|xs|])
  {
  }

  lemma NoneSelected<X>()
    ensures Selects<X>([], [], [])
  {
  }

  lemma SelectsBelow<X>(r: seq<X>, xs: seq<X>, at: seq<nat>)
    requires Selects(r, xs, at)
    ensures forall k :: k in at ==> k < |xs|
  {
  }

  lemma {:induction false} SelectsFewer<X>(r: seq<X>, xs: seq<X>, at: seq<nat>)
    requires Selects(r, xs, at)
    ensures |r| <= |xs|
  {
    if r != [] && at[|at| - 1] < |xs| - 1 {
      assert forall t :: 0 <= t < |at| ==> at[t] < |xs| - 1 && xs[at[t]] == xs[..|xs| - 1][at[t]];
      SelectsFewer(r, xs[..|xs| - 1], at);
    } else if r != [] {
      assert forall t :: 0 <= t < |at| - 1 ==> at[t] < |xs| - 1 && xs[at[t]] == xs[..|xs| - 1][at[t]];
      SelectsFewer(r[..|r| - 1], xs[..|xs| - 1], at[..|at| - 1]);
    }
  }

  /** r lists the descriptors of ds that answer q, each as often and in the order in which ds has them. */
  ghost predicate ListsAnswers(r: seq<Desc>, ds: seq<Desc>, q: Desc, n: nat) {
    exists at :: Selects(r, ds, at) && PlacesOfAnswers(at, ds, q, n)
  }

  ghost predicate PlacesOfAnswers(at: seq<nat>, ds: seq<Desc>, q: Desc, n: nat) {
    forall k :: 0 <= k < |ds| ==> (k in at <==> Answers(ds[k], q, n))
  }

  lemma FoundNext(ds: seq<Desc>, q: Desc, n: nat)
    requires ds != []
    ensures var before := Found(ds[..|ds| - 1], q, n);
      Found(ds, q, n) == if Answers(ds[|ds| - 1], q, n) then before + [ds[|ds| - 1]] else before
  {
    hide Answers;
  }

  lemma {:induction false} FoundPlaces(ds: seq<Desc>, q: Desc, n: nat) returns (at: seq<nat>)
    ensures Selects(Found(ds, q, n), ds, at) && PlacesOfAnswers(at, ds, q, n)
  {
    hide Answers, Selects, Found, PlacesOfAnswers;
    if ds == [] {
      at := [];
      NoneSelected<Desc>();
      NoneFound(q, n);
    } else {
      var last := |ds| - 1;
      var before := FoundPlaces(ds[..last], q, n);
      assert ds == ds[..last] + [ds[last]];
      SelectsMore(Found(ds[..last], q, n), ds[..last], before, ds[last]);
      SelectsBelow(Found(ds[..last], q, n), ds[..last], before);
      FoundNext(ds, q, n);
      at := if Answers(ds[last], q, n) then before + [last] else before;
      PlacesNext(before, at, ds, q, n);
    }
  }

  lemma NoneFound(q: Desc, n: nat)
    ensures Found([], q, n) == [] && PlacesOfAnswers([], [], q, n)
  {
  }

  lemma PlacesNext(before: seq<nat>, at: seq<nat>, ds: seq<Desc>, q: Desc, n: nat)
    requires ds != [] && PlacesOfAnswers(before, ds[..|ds| - 1], q, n) && forall k :: k in before ==> k < |ds| - 1
    requires at == if Answers(ds[|ds| - 1], q, n) then before + [|ds| - 1] else before
    ensures PlacesOfAnswers(at, ds, q, n)
  {
    hide Answers;
    var last := |ds| - 1;
    forall k | 0 <= k < |ds|
      ensures k in at <==> Answers(ds[k], q, n)
    {
      if k < last {
        assert ds[k] == ds[..last][k];
      }
    }
  }

  lemma FoundLists(ds: seq<Desc>, q: Desc, n: nat)
    ensures ListsAnswers(Found(ds, q, n), ds, q, n) && |Found(ds, q, n)| <= |ds|
  {
    hide Answers, Found;
    var at := FoundPlaces(ds, q, n);
    SelectsFewer(Found(ds, q, n), ds, at);
  }
}
