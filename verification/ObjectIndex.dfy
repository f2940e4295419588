/** One server's part of the object index: descriptors, lookups and the threads that wait for descriptors. */
module ObjectIndex {
  import opened HilbertIndex
  import opened Boxes
  import opened ElementCount
  import opened Descriptors

  // ----- the number of entries in all bins

  function TotalLen<T>(bins: seq<seq<T>>): nat {
    if bins == [] then 0 else |bins[0]| + TotalLen(bins[1..])
  }

  lemma {:induction false} TotalLenUpdate<T>(bins: seq<seq<T>>, b: nat, bin: seq<T>)
    requires b < |bins|
    ensures TotalLen(bins[b := bin]) == TotalLen(bins) - |bins[b]| + |bin|
  {
    if b > 0 {
      assert bins[b := bin][1..] == bins[1..][b - 1 := bin];
      TotalLenUpdate(bins[1..], b - 1, bin);
    } else {
      assert bins[b := bin][1..] == bins[1..];
    }
  }

  lemma {:induction false} EmptyBins<T>(size: nat)
    ensures TotalLen<T>(seq(size, _ => [])) == 0
  {
    if size > 0 {
      assert seq<seq<T>>(size, _ => [])[1..] == seq(size - 1, _ => []);
      EmptyBins<T>(size - 1);
    }
  }

  lemma {:induction false} BinAtMost<T>(bins: seq<seq<T>>, b: nat)
    requires b < |bins|
    ensures |bins[b]| <= TotalLen(bins)
  {
    if b > 0 {
      BinAtMost(bins[1..], b - 1);
    }
  }

  // ----- looking descriptors up

  lemma NoDescriptors(own: set<Point>, ds: seq<Desc>, q: Desc, n: nat)
    requires IsBox(q.bb, n)
    ensures ds[..0] == [] && Uncovered(own, [], q) == own * Points(q.bb) && Found([], q, n) == []
  {
  }

  lemma NextDescriptor(own: set<Point>, ds: seq<Desc>, q: Desc, n: nat, i: nat)
    requires IsBox(q.bb, n) && i < |ds| && IsBox(ds[i].bb, n)
    requires forall j :: 0 <= j < |ds| ==> IsBox(ds[j].bb, n)
    ensures Uncovered(own, ds[..i + 1], q) == Uncovered(own, ds[..i], q) - PutBy(ds[i], q)
    ensures Found(ds[..i + 1], q, n) == Found(ds[..i], q, n) + if Answers(ds[i], q, n) then [ds[i]] else []
  {
    hide Points, Answers;
    assert ds[..i + 1][..i] == ds[..i];
  }

  /**
   * The search loop of dht_find_entry_all: the descriptors that answer q and the number of q's elements of
   * this server that they leave uncovered.
   */
  method Collect(share: SelfShare, bin: seq<Desc>, q: Desc, ghost own: set<Point>, ghost domain: Box, ghost n: nat)
    returns (tab: seq<Desc>, num_elem: int)
    requires Owns(share, own, domain, n) && Inside(q, domain, n) && AllInside(bin, domain, n) && PutOnce(bin, n)
    ensures tab == Found(bin, q, n) && num_elem == |Uncovered(own, bin, q)|
    ensures ListsAnswers(tab, bin, q, n)
  {
    hide Owns, Points, Found, Uncovered, Meets, Includes;
    num_elem := ElemCount(share, q.bb, own, domain, n);
    tab := [];
    NoDescriptors(own, bin, q, n);
    for i := 0 to |bin|
      invariant tab == Found(bin[..i], q, n) && num_elem == |Uncovered(own, bin[..i], q)|
    {
      NextDescriptor(own, bin, q, n, i);
      var answers := EqualsIntersect(bin[i], q, n);
      if answers {
        tab := tab + [bin[i]];
        var isect := BBoxIntersect(q.bb, bin[i].bb, n);
        IntersectionInside(q.bb, bin[i].bb, domain, n);
        var common := ElemCount(share, isect, own, domain, n);
        ApartCovered(bin[..i], bin[i], q, n);
        AnswerDrops(own, bin[..i], bin[i], q, n);
        num_elem := num_elem - common;
      } else {
        OtherStays(own, bin[..i], bin[i], q, n);
      }
    }
    assert bin[..|bin|] == bin;
    FoundLists(bin, q, n);
  }

  // ----- adding a descriptor

  /** The first descriptor with the same name and an overlapping box, of any version; the length if there is none. */
  ghost function FirstOverlap(bin: seq<Desc>, d: Desc, n: nat): (i: nat)
    ensures i <= |bin| && (i < |bin| ==> Overlaps(bin[i], d, n))
    ensures forall j :: 0 <= j < i ==> !Overlaps(bin[j], d, n)
  {
    if bin == [] || Overlaps(bin[0], d, n) then 0
    else
      var i := FirstOverlap(bin[1..], d, n);
      assert forall j :: 0 < j <= i && j < |bin| ==> bin[j] == bin[1..][j - 1];
      1 + i
  }

  /** dht_find_match. */
  method FindMatch(bin: seq<Desc>, d: Desc, ghost n: nat) returns (i: nat)
    requires IsBox(d.bb, n) && forall j :: 0 <= j < |bin| ==> IsBox(bin[j].bb, n)
    ensures i == FirstOverlap(bin, d, n)
  {
    i := 0;
    while i < |bin|
      invariant i <= |bin| && forall j :: 0 <= j < i ==> !Overlaps(bin[j], d, n)
    {
      var overlaps := ByNameIntersect(bin[i], d, n);
      if overlaps {
        return;
      }
      i := i + 1;
    }
  }

  /** The bin after d was added: in the place of the first overlapping descriptor, or else in front. */
  ghost function Added(bin: seq<Desc>, d: Desc, n: nat): seq<Desc> {
    var i := FirstOverlap(bin, d, n);
    if i < |bin| then bin[i := d] else [d] + bin
  }

  /** d has taken the place of the first descriptor it overlaps; overlapping none, it stands in front. The others are where they were. */
  ghost predicate InPlaceOrFront(was: seq<Desc>, now: seq<Desc>, d: Desc, n: nat) {
    && ((forall j :: 0 <= j < |was| ==> !Overlaps(was[j], d, n)) ==> now == [d] + was)
    && forall i :: 0 <= i < |was| && Overlaps(was[i], d, n) && (forall j :: 0 <= j < i ==> !Overlaps(was[j], d, n)) ==>
      now == was[..i] + [d] + was[i + 1..]
  }

  lemma {:induction false} AddedPlace(bin: seq<Desc>, d: Desc, n: nat)
    ensures InPlaceOrFront(bin, Added(bin, d, n), d, n)
  {
    hide FirstOverlap, Overlaps;
    var i := FirstOverlap(bin, d, n);
    forall k | 0 <= k < |bin| && Overlaps(bin[k], d, n) && forall j :: 0 <= j < k ==> !Overlaps(bin[j], d, n)
      ensures k == i
    {
    }
  }

  /** What d may do: it is apart from its own object's descriptors, and what it overwrites does not answer q. */
  ghost predicate Harmless(bin: seq<Desc>, d: Desc, q: Desc, n: nat) {
    var i := FirstOverlap(bin, d, n);
    i < |bin| ==> !Answers(bin[i], q, n)
  }

  ghost predicate NewObject(bin: seq<Desc>, d: Desc, n: nat) {
    forall j :: 0 <= j < |bin| && SameObject(bin[j], d) ==> Apart(bin[j], d, n)
  }

  lemma AddedMember(bin: seq<Desc>, d: Desc, e: Desc, n: nat)
    ensures var i := FirstOverlap(bin, d, n);
      && (e in Added(bin, d, n) ==> e == d || e in bin)
      && (e in bin ==> e in Added(bin, d, n) || (i < |bin| && e == bin[i]))
      && d in Added(bin, d, n)
  {
    var i, r := FirstOverlap(bin, d, n), Added(bin, d, n);
    assert i < |bin| ==> r[i] == d;
    if e in bin {
      var j :| 0 <= j < |bin| && bin[j] == e;
      assert i < |bin| && j != i ==> r[j] == e;
      assert i == |bin| ==> r[j + 1] == e;
    }
    assert i == |bin| ==> r[0] == d;
  }

  /** Adding keeps the object's descriptors apart. */
  lemma AddedPutOnce(bin: seq<Desc>, d: Desc, domain: Box, n: nat)
    requires AllInside(bin, domain, n) && PutOnce(bin, n) && Inside(d, domain, n) && NewObject(bin, d, n)
    ensures AllInside(Added(bin, d, n), domain, n) && PutOnce(Added(bin, d, n), n)
  {
    hide Meets, Includes;
    var k, r := FirstOverlap(bin, d, n), Added(bin, d, n);
    forall i, j | 0 <= i < j < |r| && SameObject(r[i], r[j])
      ensures Apart(r[i], r[j], n)
    {
      if k < |bin| {
        assert r[i] == if i == k then d else bin[i];
        assert r[j] == if j == k then d else bin[j];
        if i == k {
          assert Apart(bin[j], d, n);
          MeetsSymmetric(bin[j].bb, d.bb, n);
        }
      } else {
        assert r[j] == bin[j - 1];
        if i == 0 {
          assert Apart(bin[j - 1], d, n);
          MeetsSymmetric(bin[j - 1].bb, d.bb, n);
        }
      }
    }
  }

  /** For a query that loses nothing to an overwrite, adding d covers exactly the points d puts. */
  lemma AddedUncovered(own: set<Point>, bin: seq<Desc>, d: Desc, q: Desc, domain: Box, n: nat)
    requires AllInside(bin, domain, n) && Inside(d, domain, n) && Inside(q, domain, n) && Harmless(bin, d, q, n)
    ensures Uncovered(own, Added(bin, d, n), q) == Uncovered(own, bin, q) - PutBy(d, q)
  {
    hide Points, Meets, Covered, In, SameObject;
    forall p | p in Points(q.bb)
      ensures p in Covered(Added(bin, d, n), q) <==> p in Covered(bin, q) || p in PutBy(d, q)
    {
      AddedCovers(bin, d, q, domain, n, p);
    }
  }

  lemma AddedCovers(bin: seq<Desc>, d: Desc, q: Desc, domain: Box, n: nat, p: Point)
    requires AllInside(bin, domain, n) && Inside(d, domain, n) && Inside(q, domain, n) && Harmless(bin, d, q, n)
    requires p in Points(q.bb)
    ensures p in Covered(Added(bin, d, n), q) <==> p in Covered(bin, q) || p in PutBy(d, q)
  {
    hide Points, Meets, Covered, In;
    var k, r := FirstOverlap(bin, d, n), Added(bin, d, n);
    CoveredAt(r, q, p);
    CoveredAt(bin, q, p);
    PointsAt(q.bb, p);
    PointsAt(d.bb, p);
    assert p in PutBy(d, q) <==> CoveredBy(d, q, p);
    if SomeCovers(r, q, p) {
      var i :| 0 <= i < |r| && CoveredBy(r[i], q, p);
      AddedMember(bin, d, r[i], n);
      if r[i] != d {
        var j :| 0 <= j < |bin| && bin[j] == r[i];
      }
    }
    if SomeCovers(bin, q, p) {
      var i :| 0 <= i < |bin| && CoveredBy(bin[i], q, p);
      AddedMember(bin, d, bin[i], n);
      if k < |bin| && bin[i] == bin[k] {
        PointMeansMeets(q.bb, bin[i].bb, n, p);
      }
      var j :| 0 <= j < |r| && r[j] == bin[i];
    }
    AddedMember(bin, d, d, n);
    if CoveredBy(d, q, p) {
      var j :| 0 <= j < |r| && r[j] == d;
    }
  }
}
