/** Both hash versions give the servers a space in which puts and gets meet. */
module Spaces {
  import opened BitStrings
  import opened HilbertIndex
  import opened Boxes
  import opened Decomposition
  import opened Ownership
  import opened HilbertShares
  import opened HilbertHash
  import opened BisectionHash
  import opened BisectionCounts
  import opened HashCache
  import opened Descriptors
  import opened Subscriptions
  import opened Rendezvous
  import opened Query

  ghost function HilbertSpace(domain: Box, n: nat, q: nat, entries: nat, size: nat): Space
    requires n >= 1 && InsideVirtual(domain, n, q) && 0 < entries <= Volume(domain)
  {
    Space(OwnedV1(domain, n, q, entries), domain, n, size,
      (bb: Box) => if |bb.lb| == |bb.ub| then set k | k in AnswerV1(domain, n, q, entries, bb) else {})
  }

  ghost function BisectionSpace(domain: Box, n: nat, entries: nat, size: nat): Space
    requires n >= 1 && NonEmpty(domain, n) && entries > 0
  {
    Space(OwnedV2(domain, n, entries), domain, n, size, (bb: Box) => set k | k in AnswerV2(domain, n, entries, bb))
  }

  /** What ssd_hash_v1 answers reaches every owner of an element, for puts and for queries alike. */
  lemma HilbertSpaceOk(domain: Box, n: nat, q: nat, entries: nat, size: nat)
    requires n >= 1 && InsideVirtual(domain, n, q) && 0 < entries <= Volume(domain) && size > 0
    ensures SpaceOk(HilbertSpace(domain, n, q, entries, size))
  {
    hide OwnedV1, Points, Volume, Partition, Includes;
    SharesPartition(domain, n, q, entries);
    var sp := HilbertSpace(domain, n, q, entries, size);
    forall bb, k | k in sp.hash(bb)
      ensures k < |sp.owned|
    {
      assert k in AnswerV1(domain, n, q, entries, bb);
    }
  }

  lemma BisectionSpaceOk(domain: Box, n: nat, entries: nat, size: nat)
    requires n >= 1 && NonEmpty(domain, n) && entries > 0 && size > 0
    ensures SpaceOk(BisectionSpace(domain, n, entries, size))
  {
    hide OwnedV2, Points, Tables, MeetsSome, Partition, Includes;
    BisectionPartition(domain, n, entries);
    var sp := BisectionSpace(domain, n, entries, size);
    forall bb, k | 0 <= k < |sp.owned| && Concerns(sp, bb, k)
      ensures k in sp.hash(bb)
    {
      AnswerHoldsOwners(bb, domain, n, entries);
      assert k in Holders(OwnedV2(domain, n, entries), Points(bb));
    }
  }

  /** So a query that asks the servers ssd_hash_v1 answers asks every server it must. */
  lemma HilbertAsked(domain: Box, n: nat, q: nat, entries: nat, size: nat, query: Desc)
    requires n >= 1 && InsideVirtual(domain, n, q) && 0 < entries <= Volume(domain) && NonEmpty(query.bb, n)
    ensures Asked(AnswerV1(domain, n, q, entries, query.bb), HilbertSpace(domain, n, q, entries, size), query)
  {
    hide OwnedV1, Points, Volume;
    var r := AnswerV1(domain, n, q, entries, query.bb);
    assert forall i :: 0 <= i < |r| ==> r[i] in r;
  }

  lemma BisectionAsked(domain: Box, n: nat, entries: nat, size: nat, query: Desc)
    requires n >= 1 && NonEmpty(domain, n) && entries > 0 && NonEmpty(query.bb, n)
    ensures Asked(AnswerV2(domain, n, entries, query.bb), BisectionSpace(domain, n, entries, size), query)
  {
    hide OwnedV2, Points, Tables, MeetsSome;
    var r, sp := AnswerV2(domain, n, entries, query.bb), BisectionSpace(domain, n, entries, size);
    assert forall i :: 0 <= i < |r| ==> r[i] in r;
    AnswerHoldsOwners(query.bb, domain, n, entries);
    forall k | 0 <= k < |sp.owned| && sp.owned[k] * Points(query.bb) != {}
      ensures k in r
    {
      assert k in Holders(OwnedV2(domain, n, entries), Points(query.bb));
    }
  }

  /** get_query_odscs under ssd_hash_v1: whoever the hash, or its cache, names is asked, and the answers tile the query. */
  method QueryHilbert(nodes: seq<IndexNode>, rank: nat, cache: ShCache, ent_tab: seq<DhtEntry>, max_dim: nat, query: Desc, forever: bool,
                      ghost sp: Space, ghost q: nat, ghost puts: seq<Desc>)
    returns (results: seq<Desc>)
    requires HashReady(ent_tab, sp.domain, sp.n, q) && max_dim == Pow2(q) && sp.size > 0
    requires sp == HilbertSpace(sp.domain, sp.n, q, |ent_tab|, sp.size) && SpaceOk(sp) && rank < |nodes|
    requires CacheAgreesV1(cache, sp.domain, sp.n, q, |ent_tab|)
    requires Inside(query, sp.domain, sp.n) && AllInside(puts, sp.domain, sp.n) && PutOnce(puts, sp.n) && Covers(puts, query)
    requires Ready(nodes, sp, puts, query)
    modifies nodes, cache
    ensures CacheAgreesV1(cache, sp.domain, sp.n, q, |ent_tab|) && Tiles(results, query, puts, sp.n)
  {
    hide Volume, HilbertSpace, PutOnce, AllInside, Covers, Tiles, Asked, SpaceOk, HashReady, Landed, IndexNode.Valid, InsideVirtual, InGrid, In, CacheAgreesV1, ServerOf, Pow2, Includes, AnswerV1, Remembers, Ready;
    ReadyFacts(ent_tab, sp.domain, sp.n, q);
    HilbertAsked(sp.domain, sp.n, q, |ent_tab|, sp.size, query);
    CornerInGrid(sp.domain, query, sp.n, q);
    var num_nodes, de_tab := SsdHashV1(cache, ent_tab, query.bb, max_dim, sp.domain, sp.n, q, query.bb.lb);
    results := GetQueryOdscs(nodes, rank, de_tab, query, forever, sp, puts);
  }

  lemma ReadyFacts(ent_tab: seq<DhtEntry>, domain: Box, n: nat, q: nat)
    requires HashReady(ent_tab, domain, n, q)
    ensures 1 <= n <= 10 && InsideVirtual(domain, n, q) && 0 < |ent_tab| <= Volume(domain)
  {
  }

  lemma CornerInGrid(domain: Box, query: Desc, n: nat, q: nat)
    requires InsideVirtual(domain, n, q) && Inside(query, domain, n)
    ensures In(query.bb, query.bb.lb) && InGrid(query.bb.lb, q)
  {
  }

  /** And under ssd_hash_v2. */
  method QueryBisection(nodes: seq<IndexNode>, rank: nat, cache: ShCache, ent_tab: seq<BoxEntry>, query: Desc, forever: bool,
                        ghost sp: Space, ghost puts: seq<Desc>)
    returns (results: seq<Desc>)
    requires sp.n >= 1 && NonEmpty(sp.domain, sp.n) && |ent_tab| > 0 && sp.size > 0
    requires sp == BisectionSpace(sp.domain, sp.n, |ent_tab|, sp.size) && SpaceOk(sp) && rank < |nodes|
    requires DealtOut(ent_tab, Tables(sp.domain, sp.n, |ent_tab|)) && CacheAgreesV2(cache, sp.domain, sp.n, |ent_tab|)
    requires Inside(query, sp.domain, sp.n) && AllInside(puts, sp.domain, sp.n) && PutOnce(puts, sp.n) && Covers(puts, query)
    requires Ready(nodes, sp, puts, query)
    modifies nodes, cache
    ensures CacheAgreesV2(cache, sp.domain, sp.n, |ent_tab|) && Tiles(results, query, puts, sp.n)
  {
    hide BisectionSpace, PutOnce, AllInside, Covers, Tiles, Asked, SpaceOk, DealtOut, Tables, Landed, IndexNode.Valid;
    BisectionAsked(sp.domain, sp.n, |ent_tab|, sp.size, query);
    var num_nodes, de_tab := SsdHashV2(cache, ent_tab, query.bb, sp.domain, sp.n);
    results := GetQueryOdscs(nodes, rank, de_tab, query, forever, sp, puts);
  }
}
