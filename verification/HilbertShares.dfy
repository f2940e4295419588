/** Hash version 1: the domain's Hilbert indices cut into equal runs, one per server. */
module HilbertShares {
  import opened BitStrings
  import opened MachineWords
  import opened HilbertIndex
  import opened Boxes
  import opened Intervals
  import opened Decomposition
  import opened BoxToIntervals
  import opened RingSearch
  import opened Ownership
  import opened IndexRuns

  class DhtEntry {
    var rank: nat
    var i_virt: Intv
    var i_tab: seq<Intv>

    constructor ()
      ensures i_tab == []
    {
      rank := 0;
      i_virt := Intv(0, 0);
      i_tab := [];
    }
  }

  /** The part of the index list that entry k gets. */
  ghost function Cut(l: seq<nat>, entries: nat, k: nat): (r: seq<nat>)
    requires 0 < entries <= |l| && k < entries
    ensures |r| == Share(|l|, entries, k) > 0
  {
    SharesAddUp(|l|, entries);
    SharesGrow(|l|, entries, k + 1, entries);
    SharePositive(|l|, entries, k);
    l[SharesBefore(|l|, entries, k)..SharesBefore(|l|, entries, k + 1)]
  }

  /** From the first to the last index of entry k. */
  ghost function Hull(l: seq<nat>, entries: nat, k: nat): Intv
    requires 0 < entries <= |l| && k < entries
  {
    var c := Cut(l, entries, k);
    Intv(c[0], c[|c| - 1])
  }

  ghost predicate HasShare(de: DhtEntry, l: seq<nat>, entries: nat, k: nat)
    requires 0 < entries <= |l| && k < entries
    reads de
  {
    && de.rank == k
    && de.i_virt == Hull(l, entries, k)
    && Proper(de.i_tab)
    && Listing(de.i_tab) == Cut(l, entries, k)
  }

  ghost predicate Distinct(ent_tab: seq<DhtEntry>) {
    forall i, j :: 0 <= i < j < |ent_tab| ==> ent_tab[i] != ent_tab[j]
  }

  /** The index list of the domain. */
  ghost function DomainList(domain: Box, n: nat, q: nat): (l: seq<nat>)
    requires n >= 1 && InsideVirtual(domain, n, q)
    ensures |l| == Volume(domain)
  {
    TableSize(domain, n, q);
    Listing(Table(domain, n, q))
  }

  lemma CutFront(l: seq<nat>, entries: nat, k: nat)
    requires 0 < entries <= |l| && k < entries
    ensures SharesBefore(|l|, entries, k) < SharesBefore(|l|, entries, k + 1) <= |l|
    ensures SharesBefore(|l|, entries, k + 1) - SharesBefore(|l|, entries, k) == Share(|l|, entries, k)
    ensures l[SharesBefore(|l|, entries, k)..][..Share(|l|, entries, k)] == Cut(l, entries, k)
    ensures l[SharesBefore(|l|, entries, k)..][Share(|l|, entries, k)..] == l[SharesBefore(|l|, entries, k + 1)..]
  {
    var c := Cut(l, entries, k);
    SharesAddUp(|l|, entries);
    SharesGrow(|l|, entries, k + 1, entries);
  }

  lemma HullIs(l: seq<nat>, entries: nat, k: nat)
    requires 0 < entries <= |l| && k < entries
    ensures var c := Cut(l, entries, k); |c| > 0 && Hull(l, entries, k) == Intv(c[0], c[|c| - 1])
  {
  }

  lemma FirstCorner(domain: Box, n: nat, q: nat)
    requires InsideVirtual(domain, n, q)
    ensures In(domain, domain.lb) && InGrid(domain.lb, q) && Sized(domain, n)
  {
  }

  lemma StartOfList(l: seq<nat>, entries: nat)
    requires entries > 0
    ensures SharesBefore(|l|, entries, 0) == 0 && l[0..] == l
  {
  }

  /** The turn of entry k in dht_construct_hash: its share leaves the front of what is left of the table. */
  method FillEntry(de: DhtEntry, k: nat, len: nat, i_tab: array<Intv>, num_intv: nat, j0: nat, ghost l: seq<nat>, ghost entries: nat)
    returns (j: nat)
    requires 0 < entries <= |l| && k < entries && len == Share(|l|, entries, k)
    requires SharesBefore(|l|, entries, k) <= |l|
    requires j0 <= num_intv <= i_tab.Length && Proper(i_tab[j0..num_intv])
    requires Listing(i_tab[j0..num_intv]) == l[SharesBefore(|l|, entries, k)..]
    modifies de, i_tab
    ensures HasShare(de, l, entries, k) && |de.i_tab| <= num_intv
    ensures j0 <= j <= num_intv && Proper(i_tab[j..num_intv])
    ensures SharesBefore(|l|, entries, k + 1) <= |l|
    ensures Listing(i_tab[j..num_intv]) == l[SharesBefore(|l|, entries, k + 1)..]
  {
    hide Listing, Cut, Share, SharesBefore, Hull;
    CutFront(l, entries, k);
    HullIs(l, entries, k);
    assert TotalSize(i_tab[j0..num_intv]) == |Listing(i_tab[j0..num_intv])|;
    var mine, next := CutShare(len, i_tab, num_intv, j0);
    ListingEnds(mine);
    j := next;
    de.rank := k;
    de.i_tab := mine;
    de.i_virt := Intv(mine[0].lb, mine[|mine| - 1].ub);
  }

  /** The even division of vol over the entries, the remainder going to the first ones. */
  method ShareSizes(vol: nat, num_entries: nat) returns (sn: array<nat>)
    requires num_entries > 0
    ensures fresh(sn) && sn.Length == num_entries
    ensures forall k :: 0 <= k < num_entries ==> sn[k] == Share(vol, num_entries, k)
  {
    sn := new nat[num_entries];
    for i := 0 to num_entries
      invariant forall k :: 0 <= k < i ==> sn[k] == Share(vol, num_entries, k)
    {
      sn[i] := vol / num_entries;
      if i < vol % num_entries {
        sn[i] := sn[i] + 1;
      }
    }
  }

  /** dht_construct_hash: entry k gets its share of the domain's indices, in curve order. */
  method DhtConstructHash(ent_tab: seq<DhtEntry>, domain: Box, max_dim: nat, ghost n: nat, ghost q: nat)
    requires 1 <= n < 32 && n * (q + 1) <= WIDTH && max_dim == Pow2(q) && InsideVirtual(domain, n, q)
    requires Distinct(ent_tab) && 0 < |ent_tab| <= Volume(domain)
    modifies ent_tab
    ensures forall k :: 0 <= k < |ent_tab| ==>
      HasShare(ent_tab[k], DomainList(domain, n, q), |ent_tab|, k) && |ent_tab[k].i_tab| <= |Table(domain, n, q)|
  {
    hide Table, Listing, Cut, Share, SharesBefore, Hull, InGrid, In, Volume, Pow2;
    var num_entries := |ent_tab|;
    FirstCorner(domain, n, q);
    var vol := BBoxVolume(domain, n);
    var sn := ShareSizes(vol, num_entries);
    var i_tab, num_intv := BBoxToIntv(domain, max_dim, n, q, domain.lb);
    ghost var l := DomainList(domain, n, q);
    TableIncreasing(domain, n, q);
    assert i_tab[0..num_intv] == i_tab[..num_intv];
    StartOfList(l, num_entries);
    var j := 0;
    for i := 0 to num_entries
      invariant 0 <= j <= num_intv && Proper(i_tab[j..num_intv])
      invariant SharesBefore(vol, num_entries, i) <= |l|
      invariant Listing(i_tab[j..num_intv]) == l[SharesBefore(vol, num_entries, i)..]
      invariant forall k :: 0 <= k < num_entries ==> sn[k] == Share(vol, num_entries, k)
      invariant forall k :: 0 <= k < i ==> HasShare(ent_tab[k], l, num_entries, k) && |ent_tab[k].i_tab| <= num_intv
    {
      j := FillEntry(ent_tab[i], i, sn[i], i_tab, num_intv, j, l, num_entries);
    }
  }

  // ----- who owns what

  lemma DomainListUp(domain: Box, n: nat, q: nat)
    requires n >= 1 && InsideVirtual(domain, n, q)
    ensures StrictlyUp(DomainList(domain, n, q))
  {
    hide Table;
    TableIncreasing(domain, n, q);
    ListingUp(Table(domain, n, q));
  }

  /** The hull of entry k holds no index of the domain but the entry's own. */
  lemma HullHoldsOwn(l: seq<nat>, entries: nat, k: nat, i: nat)
    requires StrictlyUp(l) && 0 < entries <= |l| && k < entries && i < |l|
    ensures Within(Hull(l, entries, k), l[i]) <==> SharesBefore(|l|, entries, k) <= i < SharesBefore(|l|, entries, k + 1)
    ensures Within(Hull(l, entries, k), l[i]) <==> l[i] in Cut(l, entries, k)
  {
    hide SharesBefore, Share;
    CutFront(l, entries, k);
    var a, b := SharesBefore(|l|, entries, k), SharesBefore(|l|, entries, k + 1);
    var c := Cut(l, entries, k);
    assert c == l[a..][..b - a];
    assert c[0] == l[a] && c[|c| - 1] == l[b - 1];
    if a <= i < b {
      assert c[i - a] == l[i];
    }
    if l[i] in c {
      var t :| 0 <= t < |c| && c[t] == l[i];
      assert c[t] == l[a + t];
    }
  }

  lemma HullProper(l: seq<nat>, entries: nat, k: nat)
    requires StrictlyUp(l) && 0 < entries <= |l| && k < entries
    ensures Hull(l, entries, k).lb <= Hull(l, entries, k).ub
  {
    CutFront(l, entries, k);
  }

  /** Hulls of different entries are disjoint and in rank order. */
  lemma HullsApart(l: seq<nat>, entries: nat, j: nat, k: nat)
    requires StrictlyUp(l) && 0 < entries <= |l| && j < k < entries
    ensures Hull(l, entries, j).lb <= Hull(l, entries, j).ub < Hull(l, entries, k).lb
  {
    hide SharesBefore, Share;
    CutFront(l, entries, j);
    CutFront(l, entries, k);
    SharesGrow(|l|, entries, j + 1, k);
    var a, b, c := SharesBefore(|l|, entries, j), SharesBefore(|l|, entries, j + 1), SharesBefore(|l|, entries, k);
    assert Cut(l, entries, j) == l[a..][..b - a];
    assert Hull(l, entries, j) == Intv(l[a], l[b - 1]) && Hull(l, entries, k).lb == l[c];
  }

  /** The points whose index lies in an interval. */
  ghost function HullPoints(n: nat, m: nat, ps: set<Point>, i: Intv): set<Point>
    requires n >= 1
  {
    set p | p in ps && |p| == n && Within(i, Index(n, m, p))
  }

  /** The domain points of every entry: those whose index lies in the entry's hull. */
  ghost function OwnedV1(domain: Box, n: nat, q: nat, entries: nat): (r: seq<set<Point>>)
    requires n >= 1 && InsideVirtual(domain, n, q) && 0 < entries <= Volume(domain)
    ensures |r| == entries
    ensures forall k {:trigger r[k]} :: 0 <= k < entries ==>
      r[k] == HullPoints(n, q + 1, Points(domain), Hull(DomainList(domain, n, q), entries, k))
  {
    var l := DomainList(domain, n, q);
    seq(entries, k requires 0 <= k < entries => HullPoints(n, q + 1, Points(domain), Hull(l, entries, k)))
  }

  /** A point's index stands in the domain's list exactly when the point lies in the domain. */
  lemma ListedIsInDomain(domain: Box, n: nat, q: nat, p: Point)
    requires n >= 1 && InsideVirtual(domain, n, q) && |p| == n && InGrid(p, q + 1)
    ensures Index(n, q + 1, p) in DomainList(domain, n, q) <==> In(domain, p)
  {
    hide Index, Table, InGrid, Listing;
    if In(domain, p) {
      InsideGrid(domain, n, q, p);
    }
    TableCovers(domain, n, q, p);
    ListingAt(Table(domain, n, q), Index(n, q + 1, p));
  }

  /** Every point of the domain has exactly one owner. */
  lemma SharesPartition(domain: Box, n: nat, q: nat, entries: nat)
    requires n >= 1 && InsideVirtual(domain, n, q) && 0 < entries <= Volume(domain)
    ensures Partition(OwnedV1(domain, n, q, entries), Points(domain))
  {
    hide Index, InGrid, Table, DomainList, Hull;
    var owned, l := OwnedV1(domain, n, q, entries), DomainList(domain, n, q);
    DomainListUp(domain, n, q);
    forall j, k | 0 <= j < k < entries
      ensures owned[j] !! owned[k]
    {
      HullsApart(l, entries, j, k);
    }
    forall p | p in Points(domain)
      ensures exists k :: 0 <= k < |owned| && p in owned[k]
    {
      var k := OwnerOf(domain, n, q, entries, p);
      assert p in owned[k];
    }
  }

  lemma OwnerOf(domain: Box, n: nat, q: nat, entries: nat, p: Point) returns (k: nat)
    requires n >= 1 && InsideVirtual(domain, n, q) && 0 < entries <= Volume(domain) && p in Points(domain)
    ensures k < entries && |p| == n && Within(Hull(DomainList(domain, n, q), entries, k), Index(n, q + 1, p))
  {
    hide Index, InGrid, Table, DomainList, Hull;
    var l := DomainList(domain, n, q);
    PointsAt(domain, p);
    InsideGrid(domain, n, q, p);
    ListedIsInDomain(domain, n, q, p);
    var i :| 0 <= i < |l| && l[i] == Index(n, q + 1, p);
    SharesAddUp(|l|, entries);
    k := ShareOf(|l|, entries, entries, i);
    DomainListUp(domain, n, q);
    HullHoldsOwn(l, entries, k, i);
  }

  function SetOf(s: seq<nat>): (r: set<nat>)
    ensures forall x :: x in r <==> x in s
  {
    if s == [] then {} else
      assert s == s[..|s| - 1] + [s[|s| - 1]];
      SetOf(s[..|s| - 1]) + {s[|s| - 1]}
  }

  lemma {:induction false} UpSetSize(s: seq<nat>)
    requires StrictlyUp(s)
    ensures |SetOf(s)| == |s|
  {
    if s != [] {
      var last := |s| - 1;
      UpSetSize(s[..last]);
      assert forall i :: 0 <= i < last ==> s[i] < s[last];
      assert s[last] !in s[..last];
    }
  }

  lemma OwnedGrid(domain: Box, n: nat, q: nat, entries: nat, k: nat)
    requires n >= 1 && InsideVirtual(domain, n, q) && 0 < entries <= Volume(domain) && k < entries
    ensures forall p :: p in OwnedV1(domain, n, q, entries)[k] ==> |p| == n && InGrid(p, q + 1)
  {
    hide Index, InGrid, Table, Hull, DomainList;
    forall p | p in OwnedV1(domain, n, q, entries)[k]
      ensures |p| == n && InGrid(p, q + 1)
    {
      PointsAt(domain, p);
      InsideGrid(domain, n, q, p);
    }
  }

  /** The indices of an entry's points are its share of the list. */
  lemma OwnedIndices(domain: Box, n: nat, q: nat, entries: nat, k: nat)
    requires n >= 1 && InsideVirtual(domain, n, q) && 0 < entries <= Volume(domain) && k < entries
    ensures forall p :: p in OwnedV1(domain, n, q, entries)[k] ==> |p| == n
    ensures IndexSet(n, q + 1, OwnedV1(domain, n, q, entries)[k]) == SetOf(Cut(DomainList(domain, n, q), entries, k))
  {
    hide Index, InGrid, Table, Hull, Cut, DomainList, OwnedV1;
    OwnedGrid(domain, n, q, entries, k);
    var owned, c := OwnedV1(domain, n, q, entries)[k], Cut(DomainList(domain, n, q), entries, k);
    forall x: nat
      ensures x in IndexSet(n, q + 1, owned) <==> x in c
    {
      if x in IndexSet(n, q + 1, owned) {
        var p :| p in owned && Index(n, q + 1, p) == x;
        OwnsIndex(domain, n, q, entries, k, p);
      }
      if x in c {
        var p := IndexOwned(domain, n, q, entries, k, x);
        assert p in owned;
      }
    }
  }

  /** Every entry owns as many points as its share says, so that two entries differ by at most one point. */
  lemma OwnedSize(domain: Box, n: nat, q: nat, entries: nat, k: nat)
    requires n >= 1 && InsideVirtual(domain, n, q) && 0 < entries <= Volume(domain) && k < entries
    ensures |OwnedV1(domain, n, q, entries)[k]| == Share(Volume(domain), entries, k) > 0
  {
    hide Index, InGrid, Share, DomainList, OwnedV1, IndexSet, Volume;
    OwnedGrid(domain, n, q, entries, k);
    OwnedIndices(domain, n, q, entries, k);
    CutUp(domain, n, q, entries, k);
    IndexSetSize(n, q + 1, OwnedV1(domain, n, q, entries)[k]);
    UpSetSize(Cut(DomainList(domain, n, q), entries, k));
  }

  lemma CutUp(domain: Box, n: nat, q: nat, entries: nat, k: nat)
    requires n >= 1 && InsideVirtual(domain, n, q) && 0 < entries <= Volume(domain) && k < entries
    ensures StrictlyUp(Cut(DomainList(domain, n, q), entries, k))
  {
    hide DomainList, SharesBefore, Share;
    var l := DomainList(domain, n, q);
    DomainListUp(domain, n, q);
    CutFront(l, entries, k);
  }

  /** The index of an owned point is in the entry's share. */
  lemma OwnsIndex(domain: Box, n: nat, q: nat, entries: nat, k: nat, p: Point)
    requires n >= 1 && InsideVirtual(domain, n, q) && 0 < entries <= Volume(domain) && k < entries
    requires p in OwnedV1(domain, n, q, entries)[k]
    ensures In(domain, p) && |p| == n && InGrid(p, q) && Index(n, q + 1, p) in Cut(DomainList(domain, n, q), entries, k)
  {
    hide Index, InGrid, Table, Hull, Cut, DomainList;
    var l := DomainList(domain, n, q);
    PointsAt(domain, p);
    InsideGrid(domain, n, q, p);
    ListedIsInDomain(domain, n, q, p);
    var i :| 0 <= i < |l| && l[i] == Index(n, q + 1, p);
    DomainListUp(domain, n, q);
    HullHoldsOwn(l, entries, k, i);
  }

  /** Every index of the entry's share belongs to an owned point. */
  lemma IndexOwned(domain: Box, n: nat, q: nat, entries: nat, k: nat, x: nat) returns (p: Point)
    requires n >= 1 && InsideVirtual(domain, n, q) && 0 < entries <= Volume(domain) && k < entries
    requires x in Cut(DomainList(domain, n, q), entries, k)
    ensures |p| == n && InGrid(p, q + 1) && Index(n, q + 1, p) == x && p in OwnedV1(domain, n, q, entries)[k]
  {
    hide Index, InGrid, Table, Hull, DomainList, Share, SharesBefore;
    var l := DomainList(domain, n, q);
    var c, a := Cut(l, entries, k), SharesBefore(|l|, entries, k);
    var t :| 0 <= t < |c| && c[t] == x;
    var i := a + t;
    assert l[i] == x by { CutFront(l, entries, k); }
    DomainListUp(domain, n, q);
    HullHoldsOwn(l, entries, k, i);
    ListedIndex(domain, n, q, x);
    p := PointAt(n, q + 1, x);
    IndexOfPoint(n, q + 1, x);
    ListedIsInDomain(domain, n, q, p);
    PointsAt(domain, p);
  }

  lemma ListedIndex(domain: Box, n: nat, q: nat, x: nat)
    requires n >= 1 && InsideVirtual(domain, n, q) && x in DomainList(domain, n, q)
    ensures x < Size(n, q + 1)
  {
    hide Table, Listing;
    ListingAt(Table(domain, n, q), x);
    TableBound(domain, n, q, x);
  }

  // ----- counting the elements of a query box

  function Overlap(self: Intv, i: Intv): nat {
    SpanSize(Max(self.lb, i.lb), Min(self.ub, i.ub))
  }

  function OverlapSum(self: Intv, tab: seq<Intv>): nat {
    if tab == [] then 0 else Overlap(self, tab[0]) + OverlapSum(self, tab[1..])
  }

  lemma {:induction false} OverlapCounts(self: Intv, tab: seq<Intv>)
    requires Increasing(tab)
    ensures OverlapSum(self, tab) == |Elements(tab) * Span(self.lb, self.ub)|
  {
    hide Increasing, Span, Overlap;
    if tab == [] {
      assert Elements(tab) * Span(self.lb, self.ub) == {};
    } else {
      var head, rest, own := Span(tab[0].lb, tab[0].ub), Elements(tab[1..]), Span(self.lb, self.ub);
      IncreasingRest(tab);
      OverlapCounts(self, tab[1..]);
      OverlapOne(self, tab[0]);
      CommonSplit(head, rest, own);
    }
  }

  lemma OverlapOne(self: Intv, i: Intv)
    ensures Overlap(self, i) == |Span(i.lb, i.ub) * Span(self.lb, self.ub)|
  {
    assert Span(i.lb, i.ub) * Span(self.lb, self.ub) == Span(Max(self.lb, i.lb), Min(self.ub, i.ub));
  }

  lemma IncreasingRest(tab: seq<Intv>)
    requires Increasing(tab) && tab != []
    ensures Increasing(tab[1..]) && Span(tab[0].lb, tab[0].ub) !! Elements(tab[1..])
  {
    var rest := tab[1..];
    assert forall i :: 0 <= i < |rest| ==> rest[i] == tab[i + 1];
    forall x | x in Elements(rest)
      ensures tab[0].ub < x
    {
      ElementsAt(rest, x);
      CoversIsCount(rest, x);
      var i :| 0 <= i < |rest| && Within(rest[i], x);
    }
  }

  lemma HullIndices(n: nat, m: nat, ps: set<Point>, self: Intv)
    requires n >= 1 && forall p :: p in ps ==> |p| == n
    ensures IndexSet(n, m, HullPoints(n, m, ps, self)) == IndexSet(n, m, ps) * Span(self.lb, self.ub)
  {
    hide Index;
  }

  /** The overlaps of a box's table with an interval add up to the number of the box's points with an index in it. */
  lemma OverlapsArePoints(bb: Box, n: nat, q: nat, self: Intv)
    requires n >= 1 && InsideVirtual(bb, n, q)
    ensures OverlapSum(self, Table(bb, n, q)) == |HullPoints(n, q + 1, Points(bb), self)|
  {
    hide Index, InGrid, Table, Increasing, NonAdjacent, IndexSet, CountOf;
    var tab, ps := Table(bb, n, q), HullPoints(n, q + 1, Points(bb), self);
    TableIncreasing(bb, n, q);
    OverlapCounts(self, tab);
    TableSize(bb, n, q);
    HullIndices(n, q + 1, Points(bb), self);
    forall p | p in ps
      ensures InGrid(p, q + 1)
    {
      PointsAt(bb, p);
      InsideGrid(bb, n, q, p);
    }
    IndexSetSize(n, q + 1, ps);
  }

  /** ssh_hash_elem_count_v1: the number of the box's points whose index lies in the hull i_self. */
  method ElemCountV1(bb: Box, max_dim: nat, i_self: Intv, ghost n: nat, ghost q: nat) returns (num_elem: int)
    requires 1 <= n <= 10 && n * (q + 1) <= WIDTH && max_dim == Pow2(q) && InsideVirtual(bb, n, q)
    requires i_self.lb <= i_self.ub
    ensures num_elem == |HullPoints(n, q + 1, Points(bb), i_self)|
  {
    hide Table, Index, Pow2, In, InGrid;
    FirstCorner(bb, n, q);
    var i_tab, num := BBoxToIntv2(bb, max_dim, n, q, bb.lb);
    ghost var tab := Table(bb, n, q);
    TableIncreasing(bb, n, q);
    num_elem := 0;
    assert tab[0..] == tab;
    for i := 0 to num
      invariant num_elem + OverlapSum(i_self, tab[i..]) == OverlapSum(i_self, tab)
    {
      assert i_tab[..num][i] == tab[i] && tab[i..][0] == tab[i] && tab[i..][1..] == tab[i + 1..];
      if i_self.lb <= i_tab[i].ub && i_self.ub >= i_tab[i].lb {
        var overlap := i_self.ub - i_tab[i].lb + 1;
        if i_tab[i].lb < i_self.lb {
          overlap := overlap - (i_self.lb - i_tab[i].lb);
        }
        if i_self.ub > i_tab[i].ub {
          overlap := overlap - (i_self.ub - i_tab[i].ub);
        }
        num_elem := num_elem + overlap;
      }
    }
    OverlapsArePoints(bb, n, q, i_self);
  }

  lemma HullPointsOwned(bb: Box, domain: Box, n: nat, q: nat, entries: nat, k: nat)
    requires n >= 1 && InsideVirtual(domain, n, q) && 0 < entries <= Volume(domain) && k < entries
    requires IsBox(bb, n) && Includes(domain, bb, n)
    ensures HullPoints(n, q + 1, Points(bb), Hull(DomainList(domain, n, q), entries, k))
      == OwnedV1(domain, n, q, entries)[k] * Points(bb)
    ensures Points(bb) <= Points(domain)
  {
    hide Index, Hull, DomainList;
    forall p | p in Points(bb)
      ensures p in Points(domain)
    {
      PointsAt(bb, p);
      PointsAt(domain, p);
    }
  }

  /** For a box inside the domain the counts of the entries add up to the volume of the box. */
  lemma CountsAddUpV1(bb: Box, domain: Box, n: nat, q: nat, entries: nat)
    requires n >= 1 && InsideVirtual(domain, n, q) && 0 < entries <= Volume(domain)
    requires IsBox(bb, n) && Includes(domain, bb, n)
    ensures forall k {:trigger OwnedV1(domain, n, q, entries)[k]} :: 0 <= k < entries ==>
      OwnedV1(domain, n, q, entries)[k] * Points(bb)
        == HullPoints(n, q + 1, Points(bb), Hull(DomainList(domain, n, q), entries, k))
    ensures SumOwned(OwnedV1(domain, n, q, entries), Points(bb)) == Volume(bb)
  {
    hide Index, Hull, DomainList, OwnedV1, HullPoints, Volume;
    forall k | 0 <= k < entries
      ensures OwnedV1(domain, n, q, entries)[k] * Points(bb)
        == HullPoints(n, q + 1, Points(bb), Hull(DomainList(domain, n, q), entries, k))
    {
      HullPointsOwned(bb, domain, n, q, entries, k);
    }
    HullPointsOwned(bb, domain, n, q, entries, 0);
    SharesPartition(domain, n, q, entries);
    CountsAddUp(OwnedV1(domain, n, q, entries), Points(domain), Points(bb));
    PointsNumber(bb);
  }
}
