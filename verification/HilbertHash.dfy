/** Choosing and setting up the Hilbert hash, and finding the servers of a box with it. */
module HilbertHash {
  import opened BitStrings
  import opened MachineWords
  import opened HilbertCode
  import opened HilbertIndex
  import opened Boxes
  import opened Intervals
  import opened Decomposition
  import opened RingSearch
  import opened Ownership
  import opened IndexRuns
  import opened HashCache
  import opened HilbertShares

  // ----- the side of the virtual cube

  /** The exponent of the least power of two that is not below n. */
  function CeilLog(n: nat): (q: nat)
    ensures n <= Pow2(q) && (q > 0 ==> Pow2(q - 1) < n)
  {
    if n <= 1 then 0 else 1 + CeilLog((n + 1) / 2)
  }

  method NextPow2(n: nat) returns (i: nat)
    ensures i == Pow2(CeilLog(n))
  {
    i := 1;
    ghost var k: nat := 0;
    while i < n
      invariant i == Pow2(k) && k <= CeilLog(n)
      decreases CeilLog(n) - k
    {
      i := i * 2;
      k := k + 1;
    }
    if k < CeilLog(n) {
      Pow2Monotone(k, CeilLog(n) - 1);
    }
  }

  function MaxOf(s: seq<nat>): (r: nat)
    ensures forall d :: 0 <= d < |s| ==> s[d] <= r
    ensures s != [] ==> r in s
  {
    if s == [] then 0 else
      var last := |s| - 1;
      var r := MaxOf(s[..last]);
      assert s == s[..last] + [s[last]];
      if s[last] > r || last == 0 then s[last] else r
  }

  predicate PowerOfTwo(x: nat) {
    x == Pow2(CeilLog(x))
  }

  /** The number of bits of a virtual coordinate ssd_alloc_v1 decides on. */
  function VirtualBits(domain: Box): nat {
    var max_dim := MaxOf(domain.ub);
    CeilLog(if max_dim == 0 then 1 else max_dim)
  }

  /** The domain lies inside the virtual cube exactly when its greatest upper bound is no power of two. */
  lemma FitsUnlessPowerOfTwo(domain: Box, n: nat)
    requires n >= 1 && NonEmpty(domain, n)
    ensures InsideVirtual(domain, n, VirtualBits(domain)) <==> !PowerOfTwo(MaxOf(domain.ub))
  {
    var m, q := MaxOf(domain.ub), VirtualBits(domain);
    var d :| 0 <= d < n && domain.ub[d] == m;
    if m == 0 {
      assert Pow2(q) == 1;
    }
  }

  /** A 5 x 4 domain reaches beyond the virtual cube of side 4 that is chosen for it. */
  lemma FiveByFourDoesNotFit()
    ensures var domain := Box([0, 0], [4, 3]);
      NonEmpty(domain, 2) && VirtualBits(domain) == 2 && !InsideVirtual(domain, 2, VirtualBits(domain))
  {
    var domain := Box([0, 0], [4, 3]);
    assert domain.ub[..1] == [4] && [4][..0] == [];
    assert MaxOf([4]) == 4 && MaxOf(domain.ub) == 4;
    assert CeilLog(4) == 2;
    assert Pow2(2) == 4;
    assert domain.ub[0] == 4;
  }

  // ----- the automatic choice of the hash

  datatype HashVersion = V0 | V1 | V2

  lemma OneIsPower()
    ensures PowerOfTwo(1)
  {
  }

  lemma OddPower(y: nat)
    requires y > 1 && y % 2 == 1
    ensures !PowerOfTwo(y)
  {
    assert CeilLog(y) > 0 && Pow2(CeilLog(y)) == 2 * Pow2(CeilLog(y) - 1);
  }

  lemma EvenPower(y: nat)
    requires y > 0
    ensures PowerOfTwo(2 * y) <==> PowerOfTwo(y)
  {
    assert CeilLog(2 * y) == 1 + CeilLog(y);
  }

  /** The lowest bits of two numbers in a row have no one in common; above them stand halves that are equal or in a row. */
  lemma {:induction false} AndHalves(x: nat, w: nat)
    requires w > 0
    ensures var h := if x % 2 == 0 then x / 2 else x / 2 + 1;
      Value(AndBits(FromValue(x, w), FromValue(x + 1, w))) == 2 * Value(AndBits(FromValue(x / 2, w - 1), FromValue(h, w - 1)))
  {
    assert (x + 1) / 2 == if x % 2 == 0 then x / 2 else x / 2 + 1;
  }

  lemma {:induction false} AndNext(x: nat, w: nat)
    requires x + 1 < Pow2(w)
    ensures Value(AndBits(FromValue(x, w), FromValue(x + 1, w))) == 0 <==> PowerOfTwo(x + 1)
  {
    hide PowerOfTwo, FromValue, Value;
    if x == 0 {
      AndZero(FromValue(1, w));
      FromZero(w);
      OneIsPower();
    } else {
      AndHalves(x, w);
      if x % 2 == 0 {
        SameAnd(FromValue(x / 2, w - 1));
        FieldValue(x / 2, w - 1);
        OddPower(x + 1);
      } else {
        AndNext(x / 2, w - 1);
        EvenPower(x / 2 + 1);
      }
    }
  }

  function AndBits(a: Bits, b: Bits): (r: Bits)
    requires |a| == |b|
    ensures |r| == |a|
  {
    if a == [] then [] else [a[0] && b[0]] + AndBits(a[1..], b[1..])
  }

  lemma {:induction false} AndZero(b: Bits)
    ensures Value(AndBits(Zeros(|b|), b)) == 0
  {
    if b != [] {
      AndZero(b[1..]);
      assert Zeros(|b|)[1..] == Zeros(|b| - 1);
    }
  }

  lemma {:induction false} SameAnd(a: Bits)
    ensures AndBits(a, a) == a
  {
    if a != [] {
      SameAnd(a[1..]);
    }
  }

  lemma {:induction false} AndBitsAt(a: Bits, b: Bits, i: nat)
    requires |a| == |b| && i < |a|
    ensures AndBits(a, b)[i] == (a[i] && b[i])
  {
    if i > 0 {
      AndBitsAt(a[1..], b[1..], i - 1);
    }
  }

  /** x & x + 1, which is zero exactly when x + 1 is a power of two. */
  method AndSuccessor(x: nat) returns (r: nat)
    requires x + 1 < Pow2(WIDTH)
    ensures r == 0 <==> PowerOfTwo(x + 1)
  {
    hide Value, FromValue;
    var a, b := FromValue(x, WIDTH), FromValue(x + 1, WIDTH);
    r := Value(And(a, b));
    AndNext(x, WIDTH);
    assert And(a, b) == AndBits(a, b) by {
      forall i | 0 <= i < WIDTH
        ensures AndBits(a, b)[i] == (a[i] && b[i])
      {
        AndBitsAt(a, b, i);
      }
    }
  }

  ghost predicate AllExtentsPowers(ub: seq<nat>) {
    forall d :: 0 <= d < |ub| ==> PowerOfTwo(ub[d] + 1)
  }

  /** ssd_choose_hash: the Hilbert hash is chosen when every upper bound plus one is a power of two. */
  method ChooseHash(domain: Box) returns (v: HashVersion)
    requires domain.ub != [] && forall d :: 0 <= d < |domain.ub| ==> domain.ub[d] + 1 < Pow2(WIDTH)
    ensures v == V0 <==> domain.ub == [0]
    ensures v == V1 <==> domain.ub != [0] && AllExtentsPowers(domain.ub)
  {
    hide Pow2, PowerOfTwo;
    if |domain.ub| == 1 && domain.ub[0] == 0 {
      return V0;
    }
    for i := 0 to |domain.ub|
      invariant forall d :: 0 <= d < i ==> PowerOfTwo(domain.ub[d] + 1)
    {
      var x := domain.ub[i];
      var masked := AndSuccessor(x);
      if masked != 0 {
        return V2;
      }
    }
    return V1;
  }

  lemma NeighbourPowers(x: nat)
    ensures PowerOfTwo(x) && PowerOfTwo(x + 1) <==> x == 1
  {
    if x == 1 {
      assert CeilLog(1) == 0 && CeilLog(2) == 1;
    }
  }

  /** When the Hilbert hash is chosen automatically, the virtual cube holds the domain unless the greatest upper bound is 1. */
  lemma ChosenHilbertFits(domain: Box, n: nat)
    requires n >= 1 && NonEmpty(domain, n) && AllExtentsPowers(domain.ub)
    ensures InsideVirtual(domain, n, VirtualBits(domain)) <==> MaxOf(domain.ub) != 1
  {
    hide PowerOfTwo, InsideVirtual, VirtualBits, MaxOf;
    FitsUnlessPowerOfTwo(domain, n);
    NeighbourPowers(MaxOf(domain.ub));
    assert MaxOf(domain.ub) in domain.ub;
    var d :| 0 <= d < |domain.ub| && domain.ub[d] == MaxOf(domain.ub);
  }

  // ----- setting up

  method DhtAlloc(num_nodes: nat) returns (ent_tab: seq<DhtEntry>)
    ensures |ent_tab| == num_nodes && Distinct(ent_tab) && fresh(ent_tab)
  {
    ent_tab := [];
    for i := 0 to num_nodes
      invariant |ent_tab| == i && Distinct(ent_tab) && fresh(ent_tab)
    {
      var de := new DhtEntry();
      ent_tab := ent_tab + [de];
    }
  }

  lemma TakeOne(s: seq<nat>)
    requires s != []
    ensures MaxOf(s[..1]) == s[0]
  {
    assert s[..1] == [s[0]];
  }

  lemma TakeMore(s: seq<nat>, i: nat)
    requires 0 < i < |s|
    ensures MaxOf(s[..i + 1]) == Max(s[i], MaxOf(s[..i]))
  {
    assert s[..i + 1][..i] == s[..i];
  }

  /** The side of the virtual cube. */
  method MaxDim(domain: Box) returns (max_dim: nat)
    requires domain.ub != []
    ensures max_dim == Pow2(VirtualBits(domain))
  {
    hide Pow2, CeilLog, MaxOf;
    max_dim := domain.ub[0];
    TakeOne(domain.ub);
    for i := 1 to |domain.ub|
      invariant max_dim == MaxOf(domain.ub[..i])
    {
      TakeMore(domain.ub, i);
      max_dim := Max(domain.ub[i], max_dim);
    }
    assert domain.ub[..|domain.ub|] == domain.ub;
    if max_dim == 0 {
      max_dim := 1;
    }
    max_dim := NextPow2(max_dim);
  }

  /** ssd_alloc_v1: the curve of the virtual cube is cut into one share per server. */
  method SsdAllocV1(domain: Box, num_nodes: nat, ghost n: nat) returns (ent_tab: seq<DhtEntry>, max_dim: nat)
    requires 1 <= n < 32 && NonEmpty(domain, n) && !PowerOfTwo(MaxOf(domain.ub))
    requires n * (VirtualBits(domain) + 1) <= WIDTH && 0 < num_nodes <= Volume(domain)
    ensures max_dim == Pow2(VirtualBits(domain)) && InsideVirtual(domain, n, VirtualBits(domain))
    ensures |ent_tab| == num_nodes && Distinct(ent_tab)
    ensures forall k :: 0 <= k < num_nodes ==> HasShare(ent_tab[k], DomainList(domain, n, VirtualBits(domain)), num_nodes, k)
  {
    hide Volume, Pow2, PowerOfTwo, CeilLog, HasShare, VirtualBits, MaxOf, InsideVirtual;
    ent_tab := DhtAlloc(num_nodes);
    max_dim := MaxDim(domain);
    FitsUnlessPowerOfTwo(domain, n);
    DhtConstructHash(ent_tab, domain, max_dim, n, VirtualBits(domain));
  }

  // ----- the servers of a box

  /** An interval and the index list s have an index in common. */
  ghost predicate Touches(s: seq<nat>, itv: Intv) {
    exists x :: x in s && Within(itv, x)
  }

  predicate IntvDoIntersect(i0: Intv, i1: Intv) {
    (i0.lb <= i1.lb <= i0.ub) || (i1.lb <= i0.lb <= i1.ub)
  }

  /** dht_intersect: a look at the hull first, then at the table. */
  method DhtIntersect(de: DhtEntry, itv: Intv, ghost l: seq<nat>, ghost entries: nat, ghost k: nat) returns (r: bool)
    requires 0 < entries <= |l| && k < entries && StrictlyUp(l) && HasShare(de, l, entries, k) && itv.lb <= itv.ub
    ensures r <==> Touches(Cut(l, entries, k), itv)
  {
    hide Listing, Share, SharesBefore;
    ghost var c := Cut(l, entries, k);
    CutFront(l, entries, k);
    assert forall i :: 0 <= i < |c| ==> c[0] <= c[i] <= c[|c| - 1];
    if de.i_virt.lb > itv.ub || de.i_virt.ub < itv.lb {
      return false;
    }
    for i := 0 to |de.i_tab|
      invariant forall j :: 0 <= j < i ==> !IntvDoIntersect(de.i_tab[j], itv)
    {
      if IntvDoIntersect(de.i_tab[i], itv) {
        MeetsListing(de.i_tab, i, itv);
        return true;
      }
    }
    if Touches(Listing(de.i_tab), itv) {
      ghost var i := TouchedInterval(de.i_tab, itv);
    }
    return false;
  }

  lemma MeetsListing(tab: seq<Intv>, i: nat, itv: Intv)
    requires Proper(tab) && itv.lb <= itv.ub && i < |tab| && IntvDoIntersect(tab[i], itv)
    ensures Touches(Listing(tab), itv)
  {
    var x := Max(tab[i].lb, itv.lb);
    ListingAt(tab, x);
    assert Within(itv, x) && x in Listing(tab);
  }

  lemma TouchedInterval(tab: seq<Intv>, itv: Intv) returns (i: nat)
    requires Proper(tab) && itv.lb <= itv.ub && Touches(Listing(tab), itv)
    ensures i < |tab| && IntvDoIntersect(tab[i], itv)
  {
    var x :| x in Listing(tab) && Within(itv, x);
    ListingAt(tab, x);
    i :| 0 <= i < |tab| && Within(tab[i], x);
  }

  /** An entry's share touches the table of a box exactly when the entry owns a point of the box. */
  lemma TouchesMeansOwns(domain: Box, bb: Box, n: nat, q: nat, entries: nat, k: nat)
    requires n >= 1 && InsideVirtual(domain, n, q) && 0 < entries <= Volume(domain) && k < entries && NonEmpty(bb, n)
    ensures TouchesTable(Cut(DomainList(domain, n, q), entries, k), Table(bb, n, q))
      <==> OwnedV1(domain, n, q, entries)[k] * Points(bb) != {}
  {
    hide Index, InGrid, Table, Hull, Cut, DomainList, OwnedV1;
    var c, own, tab := Cut(DomainList(domain, n, q), entries, k), OwnedV1(domain, n, q, entries)[k], Table(bb, n, q);
    if TouchesTable(c, tab) {
      var i :| 0 <= i < |tab| && Touches(c, tab[i]);
      var x :| x in c && Within(tab[i], x);
      var p := IndexOwned(domain, n, q, entries, k, x);
      assert Covers(tab, x);
      TableCovers(bb, n, q, p);
      PointsAt(bb, p);
      assert p in own * Points(bb);
    }
    if own * Points(bb) != {} {
      var p :| p in own * Points(bb);
      OwnsIndex(domain, n, q, entries, k, p);
      PointsAt(bb, p);
      InsideGrid(domain, n, q, p);
      TableCovers(bb, n, q, p);
      var i :| 0 <= i < |tab| && Within(tab[i], Index(n, q + 1, p));
      assert Touches(c, tab[i]);
    }
  }

  ghost predicate TouchesTable(c: seq<nat>, tab: seq<Intv>) {
    exists i :: 0 <= i < |tab| && Touches(c, tab[i])
  }

  /** What the hash answers for a box: the servers that own some of its points. */
  ghost function AnswerV1(domain: Box, n: nat, q: nat, entries: nat, bb: Box): seq<nat>
    requires n >= 1 && InsideVirtual(domain, n, q) && 0 < entries <= Volume(domain) && IsBox(bb, |bb.lb|)
  {
    Holders(OwnedV1(domain, n, q, entries), Points(bb))
  }

  /** Everything in the cache is what the hash would answer now. */
  ghost predicate CacheAgreesV1(cache: ShCache, domain: Box, n: nat, q: nat, entries: nat)
    requires n >= 1 && InsideVirtual(domain, n, q) && 0 < entries <= Volume(domain)
    reads cache
  {
    cache.Valid() && forall i :: 0 <= i < |cache.entries| ==>
      cache.entries[i].nodes == AnswerV1(domain, n, q, entries, cache.entries[i].bb)
  }

  ghost predicate HashReady(ent_tab: seq<DhtEntry>, domain: Box, n: nat, q: nat)
    reads ent_tab
  {
    && 1 <= n <= 10 && n * (q + 1) <= WIDTH && InsideVirtual(domain, n, q) && 0 < |ent_tab| <= Volume(domain)
    && forall k :: 0 <= k < |ent_tab| ==> HasShare(ent_tab[k], DomainList(domain, n, q), |ent_tab|, k)
  }

  /** The inner loop of ssd_hash_v1, over the intervals of the box. */
  method TouchesAny(de: DhtEntry, i_tab: array<Intv>, num: nat, ghost l: seq<nat>, ghost entries: nat, ghost k: nat)
    returns (found: bool)
    requires 0 < entries <= |l| && k < entries && StrictlyUp(l) && HasShare(de, l, entries, k)
    requires num <= i_tab.Length && Proper(i_tab[..num])
    ensures found <==> TouchesTable(Cut(l, entries, k), i_tab[..num])
  {
    hide Cut, HasShare;
    for i := 0 to num
      invariant forall j :: 0 <= j < i ==> !Touches(Cut(l, entries, k), i_tab[..num][j])
    {
      assert i_tab[..num][i] == i_tab[i];
      found := DhtIntersect(de, i_tab[i], l, entries, k);
      if found {
        return true;
      }
    }
    return false;
  }

  lemma ShareRank(de: DhtEntry, l: seq<nat>, entries: nat, k: nat)
    requires 0 < entries <= |l| && k < entries && HasShare(de, l, entries, k)
    ensures de.rank == k
  {
  }

  lemma TableProper(bb: Box, n: nat, q: nat)
    requires n >= 1 && NonEmpty(bb, n)
    ensures Proper(Table(bb, n, q))
  {
    hide Table;
    TableIncreasing(bb, n, q);
  }

  /** The loop of ssd_hash_v1 over the servers. */
  method FindHolders(ent_tab: seq<DhtEntry>, bb: Box, max_dim: nat, ghost domain: Box, ghost n: nat, ghost q: nat, ghost p: Point)
    returns (de_tab: seq<nat>)
    requires HashReady(ent_tab, domain, n, q) && max_dim == Pow2(q)
    requires NonEmpty(bb, n) && In(bb, p) && InGrid(p, q)
    ensures de_tab == AnswerV1(domain, n, q, |ent_tab|, bb)
  {
    hide Table, Index, Pow2, In, InGrid, Cut, Hull, DomainList, OwnedV1, Volume, InsideVirtual, TouchesTable, Touches, Holders, Points, Proper, HasShare;
    var i_tab, num := BBoxToIntv2(bb, max_dim, n, q, p);
    ghost var l, owned := DomainList(domain, n, q), OwnedV1(domain, n, q, |ent_tab|);
    EmptyHolders(Points(bb));
    TableProper(bb, n, q);
    DomainListUp(domain, n, q);
    de_tab := [];
    assert owned[..0] == [];
    for k := 0 to |ent_tab|
      invariant i_tab[..num] == Table(bb, n, q)
      invariant de_tab == Holders(owned[..k], Points(bb))
    {
      TouchesMeansOwns(domain, bb, n, q, |ent_tab|, k);
      HoldersStep(owned, Points(bb), k);
      ShareRank(ent_tab[k], l, |ent_tab|, k);
      var found := TouchesAny(ent_tab[k], i_tab, num, l, |ent_tab|, k);
      if found {
        de_tab := de_tab + [ent_tab[k].rank];
      }
    }
    assert owned[..|ent_tab|] == owned;
  }

  /**
   * ssd_hash_v1 with its cache: the answer is always that of a fresh computation, and the cache stays in
   * agreement, so that over any sequence of calls no answer depends on what the cache holds.
   */
  method SsdHashV1(cache: ShCache, ent_tab: seq<DhtEntry>, bb: Box, max_dim: nat,
                   ghost domain: Box, ghost n: nat, ghost q: nat, ghost p: Point)
    returns (num_nodes: nat, de_tab: seq<nat>)
    requires HashReady(ent_tab, domain, n, q) && max_dim == Pow2(q)
    requires NonEmpty(bb, n) && In(bb, p) && InGrid(p, q)
    requires CacheAgreesV1(cache, domain, n, q, |ent_tab|)
    modifies cache
    ensures de_tab == AnswerV1(domain, n, q, |ent_tab|, bb) && num_nodes == |de_tab|
    ensures CacheAgreesV1(cache, domain, n, q, |ent_tab|)
    ensures cache.entries == old(cache.entries) + if de_tab != [] && Remembers(old(cache.entries), bb) then [] else [CacheEntry(bb, de_tab)]
  {
    hide AnswerV1, InsideVirtual, Volume, Pow2, In, InGrid;
    var num;
    num, de_tab := cache.ShFind(bb);
    if num > 0 {
      return num, de_tab;
    }
    de_tab := FindHolders(ent_tab, bb, max_dim, domain, n, q, p);
    num_nodes := |de_tab|;
    cache.ShAdd(bb, de_tab);
  }
}
