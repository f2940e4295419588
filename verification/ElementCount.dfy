/** How many elements of a box a server is responsible for, whatever the hash version. */
module ElementCount {
  import opened BitStrings
  import opened MachineWords
  import opened HilbertIndex
  import opened Boxes
  import opened Intervals
  import opened Decomposition
  import opened HilbertShares
  import opened Bisection
  import opened BisectionCounts

  /** What a server knows about its own part of the domain. */
  datatype SelfShare = ShareV0 | ShareV1(i_virt: Intv, max_dim: nat) | ShareV2(bb_tab: seq<Box>)

  /** own is the part of the domain that the share stands for. */
  ghost predicate Owns(s: SelfShare, own: set<Point>, domain: Box, n: nat) {
    NonEmpty(domain, n) && 1 <= n <= 10 &&
    match s
    case ShareV0 => own == Points(domain)
    case ShareV1(i_virt, max_dim) => exists q :: OwnsHull(i_virt, max_dim, own, domain, n, q)
    case ShareV2(bb_tab) => AllSized(bb_tab, n) && HeldOnce(bb_tab) && own == PointsOfAll(bb_tab, n)
  }

  ghost predicate OwnsHull(i_virt: Intv, max_dim: nat, own: set<Point>, domain: Box, n: nat, q: nat)
    requires NonEmpty(domain, n) && n >= 1
  {
    && i_virt.lb <= i_virt.ub && max_dim == Pow2(q) && n * (q + 1) <= WIDTH && InsideVirtual(domain, n, q)
    && own == HullPoints(n, q + 1, Points(domain), i_virt)
  }

  lemma InsidePoints(bb: Box, domain: Box, n: nat)
    requires IsBox(bb, n) && NonEmpty(domain, n) && Includes(domain, bb, n)
    ensures Points(bb) <= Points(domain)
  {
    forall p | p in Points(bb)
      ensures p in Points(domain)
    {
      PointsAt(bb, p);
      PointsAt(domain, p);
    }
  }

  lemma HullOfInside(bb: Box, domain: Box, n: nat, q: nat, i: Intv)
    requires n >= 1 && NonEmpty(bb, n) && InsideVirtual(domain, n, q) && Includes(domain, bb, n)
    ensures InsideVirtual(bb, n, q)
    ensures HullPoints(n, q + 1, Points(bb), i) == HullPoints(n, q + 1, Points(domain), i) * Points(bb)
  {
    hide Index;
    InsidePoints(bb, domain, n);
  }

  /** ssh_hash_elem_count: the number of the box's elements that hash to this server. */
  method ElemCount(s: SelfShare, bb: Box, ghost own: set<Point>, ghost domain: Box, ghost n: nat) returns (num_elem: int)
    requires Owns(s, own, domain, n) && NonEmpty(bb, n) && Includes(domain, bb, n)
    ensures num_elem == |own * Points(bb)|
  {
    hide HullPoints, Points, Volume, HeldOnce, PointsOfAll, InsideVirtual;
    InsidePoints(bb, domain, n);
    match s
    case ShareV0 =>
      NonEmptySized(bb, n);
      num_elem := BBoxVolume(bb, n);
      PointsNumber(bb);
      assert own * Points(bb) == Points(bb);
    case ShareV1(i_virt, max_dim) =>
      ghost var q :| OwnsHull(i_virt, max_dim, own, domain, n, q);
      HullOfInside(bb, domain, n, q, i_virt);
      num_elem := ElemCountV1(bb, max_dim, i_virt, n, q);
    case ShareV2(bb_tab) =>
      num_elem := ElemCountV2(bb, bb_tab, n);
      assert own * Points(bb) == Points(bb) * own;
  }

  lemma NonEmptySized(bb: Box, n: nat)
    requires NonEmpty(bb, n)
    ensures Sized(bb, n)
  {
  }

  /** After ssd_alloc_v1 the share of entry k owns exactly what the partition gives it. */
  lemma OwnsV1(domain: Box, n: nat, q: nat, entries: nat, k: nat)
    requires 1 <= n <= 10 && n * (q + 1) <= WIDTH && InsideVirtual(domain, n, q) && 0 < entries <= Volume(domain) && k < entries
    ensures Owns(ShareV1(Hull(DomainList(domain, n, q), entries, k), Pow2(q)), OwnedV1(domain, n, q, entries)[k], domain, n)
  {
    hide HullPoints, Points, Index, DomainList, Cut, Pow2;
    var l := DomainList(domain, n, q);
    DomainListUp(domain, n, q);
    HullProper(l, entries, k);
    assert OwnsHull(Hull(l, entries, k), Pow2(q), OwnedV1(domain, n, q, entries)[k], domain, n, q);
  }

  /** After ssd_alloc_v2 so does the share of entry k. */
  lemma OwnsV2(domain: Box, n: nat, entries: nat, k: nat)
    requires 1 <= n <= 10 && NonEmpty(domain, n) && k < entries
    ensures Owns(ShareV2(Tables(domain, n, entries)[k]), OwnedV2(domain, n, entries)[k], domain, n)
  {
    DealtOnce(domain, n, entries, k);
  }
}
