/** What the bisection hash gives every server, how it counts a box's elements and which servers it answers. */
module BisectionCounts {
  import opened BitStrings
  import opened HilbertIndex
  import opened Boxes
  import opened LinkedQueue
  import opened Ownership
  import opened HashCache
  import opened HilbertHash
  import opened Bisection
  import opened BisectionHash

  // ----- setting up

  method ComputeBitsV2(n: nat, ghost q: nat) returns (nr_bits: nat)
    requires n == Pow2(q)
    ensures nr_bits == q
  {
    nr_bits := 0;
    var left := n;
    while left > 1
      invariant nr_bits <= q && left == Pow2(q - nr_bits)
    {
      left := left / 2;
      nr_bits := nr_bits + 1;
    }
  }

  /** The boxes ssd_alloc_v2 cuts the domain into for a number of servers. */
  ghost function Pieces(domain: Box, n: nat, entries: nat): seq<Box>
    requires n >= 1 && NonEmpty(domain, n)
  {
    Rounds(domain, n, CeilLog(entries)).0
  }

  /** The entries hold, dealt in turn, the domain cut in some number of rounds, each of which halves every box. */
  ghost predicate CutAndDealt(ent_tab: seq<BoxEntry>, domain: Box, n: nat)
    requires Sized(domain, n)
    reads ent_tab, set k | 0 <= k < |ent_tab| :: ent_tab[k].bb_tab
  {
    exists k, bs :: AfterRounds(domain, n, k, bs) && |bs| == Pow2(k) && DealtInTurn(ent_tab, bs)
  }

  /** ssd_alloc_v2: at least as many boxes as servers, dealt out in turn. */
  method SsdAllocV2(domain: Box, num_nodes: nat, ghost n: nat) returns (ent_tab: seq<BoxEntry>)
    requires n >= 1 && NonEmpty(domain, n) && num_nodes > 0
    ensures |ent_tab| == num_nodes && Apart(ent_tab)
    ensures forall j :: 0 <= j < num_nodes ==> ent_tab[j].Holds(Dealt(Pieces(domain, n, num_nodes), num_nodes, j))
    ensures CutAndDealt(ent_tab, domain, n)
    ensures num_nodes <= BoxCount(ent_tab) < 2 * num_nodes && exists k: nat :: BoxCount(ent_tab) == Pow2(k)
    ensures forall j :: 0 <= j < num_nodes ==> 1 <= ent_tab[j].num_bbox <= 2
  {
    hide AfterRounds, DealtInTurn, Rounds, Dealt, Apart, BoxCount;
    var pow := NextPow2(num_nodes);
    var num_divide_iteration := ComputeBitsV2(pow, CeilLog(num_nodes));
    var q := BisectDomain(domain, num_divide_iteration, n);
    ghost var bs := q.contents;
    ent_tab := DealOut(q, num_nodes);
    assert AfterRounds(domain, n, num_divide_iteration, bs);
    CountIs(ent_tab, bs);
    forall j | 0 <= j < num_nodes
      ensures 1 <= ent_tab[j].num_bbox <= 2
    {
      OneOrTwo(bs, num_nodes, j);
      HeldNumber(ent_tab[j], Dealt(bs, num_nodes, j));
    }
  }

  lemma CountIs(ent_tab: seq<BoxEntry>, bs: seq<Box>)
    requires DealtInTurn(ent_tab, bs)
    ensures BoxCount(ent_tab) == |bs|
  {
  }

  lemma HeldNumber(de: BoxEntry, bs: seq<Box>)
    requires de.Holds(bs)
    ensures de.num_bbox == |bs|
  {
  }

  // ----- who owns what

  /** The points of a list of boxes. */
  ghost function PointsOfAll(bs: seq<Box>, n: nat): set<Point>
    requires AllSized(bs, n)
  {
    if bs == [] then {} else PointsOfAll(bs[..|bs| - 1], n) + Points(bs[|bs| - 1])
  }

  lemma {:induction false} HoldingSnoc(bs: seq<Box>, b: Box, p: Point)
    ensures Holding(bs + [b], p) == Holding(bs, p) + if In(b, p) then 1 else 0
  {
    hide In;
    if bs == [] {
      assert ([] + [b])[1..] == [];
    } else {
      assert (bs + [b])[1..] == bs[1..] + [b];
      HoldingSnoc(bs[1..], b, p);
    }
  }

  lemma {:induction false} PointsOfAllAt(bs: seq<Box>, n: nat, p: Point)
    requires AllSized(bs, n)
    ensures p in PointsOfAll(bs, n) <==> Holding(bs, p) > 0
  {
    hide In;
    if bs != [] {
      var last := |bs| - 1;
      PointsOfAllAt(bs[..last], n, p);
      HoldingSnoc(bs[..last], bs[last], p);
      assert bs[..last] + [bs[last]] == bs;
      PointsAt(bs[last], p);
    }
  }

  lemma {:induction false} DealtSized(bs: seq<Box>, n: nat, e: nat, j: nat)
    requires e > 0 && AllSized(bs, n)
    ensures AllSized(Dealt(bs, e, j), n)
  {
    if bs != [] {
      DealtSized(bs[..|bs| - 1], n, e, j);
    }
  }

  /** Two different entries together do not hold a point more often than all boxes do. */
  lemma {:induction false} DealtHolding(bs: seq<Box>, e: nat, j: nat, k: nat, p: Point)
    requires j < e && k < e && j != k
    ensures Holding(Dealt(bs, e, j), p) + Holding(Dealt(bs, e, k), p) <= Holding(bs, p)
  {
    hide In;
    if bs != [] {
      var last: nat := |bs| - 1;
      DealtHolding(bs[..last], e, j, k, p);
      HoldingSnoc(bs[..last], bs[last], p);
      assert bs[..last] + [bs[last]] == bs;
      HoldingSnoc(Dealt(bs[..last], e, j), bs[last], p);
      HoldingSnoc(Dealt(bs[..last], e, k), bs[last], p);
      DealtSplit(bs, e, j);
      DealtSplit(bs, e, k);
    }
  }

  lemma DealtSplit(bs: seq<Box>, e: nat, j: nat)
    requires e > 0 && bs != []
    ensures Dealt(bs, e, j) == if Turn(|bs| - 1, e) == j then Dealt(bs[..|bs| - 1], e, j) + [bs[|bs| - 1]] else Dealt(bs[..|bs| - 1], e, j)
  {
  }

  /** Every box is dealt to some entry. */
  lemma {:induction false} DealtSome(bs: seq<Box>, e: nat, p: Point) returns (j: nat)
    requires e > 0 && Holding(bs, p) > 0
    ensures j < e && Holding(Dealt(bs, e, j), p) > 0
  {
    hide In, Turn;
    var last: nat := |bs| - 1;
    HoldingSnoc(bs[..last], bs[last], p);
    assert bs[..last] + [bs[last]] == bs;
    if In(bs[last], p) {
      j := Turn(last, e);
    } else {
      j := DealtSome(bs[..last], e, p);
    }
    DealtSplit(bs, e, j);
    HoldingSnoc(Dealt(bs[..last], e, j), bs[last], p);
  }

  /** The domain points of every entry: those of its boxes. */
  ghost function OwnedV2(domain: Box, n: nat, entries: nat): (r: seq<set<Point>>)
    requires n >= 1 && NonEmpty(domain, n) && entries > 0
    ensures |r| == entries
    ensures forall j {:trigger r[j]} :: 0 <= j < entries ==>
      AllSized(Dealt(Pieces(domain, n, entries), entries, j), n)
      && r[j] == PointsOfAll(Dealt(Pieces(domain, n, entries), entries, j), n)
  {
    var bs := Pieces(domain, n, entries);
    assert forall j :: 0 <= j < entries ==> AllSized(Dealt(bs, entries, j), n) by {
      forall j | 0 <= j < entries
        ensures AllSized(Dealt(bs, entries, j), n)
      {
        DealtSized(bs, n, entries, j);
      }
    }
    seq(entries, j requires 0 <= j < entries => PointsOfAll(Dealt(bs, entries, j), n))
  }

  lemma OwnedV2At(domain: Box, n: nat, entries: nat, j: nat, p: Point)
    requires n >= 1 && NonEmpty(domain, n) && j < entries
    ensures p in OwnedV2(domain, n, entries)[j] <==> Holding(Dealt(Pieces(domain, n, entries), entries, j), p) > 0
  {
    hide Pieces, Dealt, PointsOfAll;
    var owned := OwnedV2(domain, n, entries);
    assert owned[j] == owned[j];
    assert AllSized(Dealt(Pieces(domain, n, entries), entries, j), n);
    PointsOfAllAt(Dealt(Pieces(domain, n, entries), entries, j), n, p);
  }

  /** Every point of the domain has exactly one owner, although some boxes may be empty. */
  lemma BisectionPartition(domain: Box, n: nat, entries: nat)
    requires n >= 1 && NonEmpty(domain, n) && entries > 0
    ensures Partition(OwnedV2(domain, n, entries), Points(domain))
  {
    hide Pieces, Dealt, OwnedV2, In;
    var owned, bs := OwnedV2(domain, n, entries), Pieces(domain, n, entries);
    forall j, k | 0 <= j < k < entries
      ensures owned[j] !! owned[k]
    {
      OwnersApart(domain, n, entries, j, k);
    }
    forall k | 0 <= k < entries
      ensures owned[k] <= Points(domain)
    {
      OwnedInDomain(domain, n, entries, k);
    }
    forall p | p in Points(domain)
      ensures exists k :: 0 <= k < |owned| && p in owned[k]
    {
      PointsAt(domain, p);
      PiecesCount(domain, n, entries, p);
      var k := DealtSome(bs, entries, p);
      OwnedV2At(domain, n, entries, k, p);
    }
  }

  lemma PiecesCount(domain: Box, n: nat, entries: nat, p: Point)
    requires n >= 1 && NonEmpty(domain, n) && entries > 0
    ensures Holding(Pieces(domain, n, entries), p) == if In(domain, p) then 1 else 0
    ensures AllSized(Pieces(domain, n, entries), n)
  {
    RoundsCount(domain, n, CeilLog(entries), p);
  }

  lemma OwnersApart(domain: Box, n: nat, entries: nat, j: nat, k: nat)
    requires n >= 1 && NonEmpty(domain, n) && j < k < entries
    ensures OwnedV2(domain, n, entries)[j] !! OwnedV2(domain, n, entries)[k]
  {
    hide Pieces, Dealt, OwnedV2, In;
    forall p | p in OwnedV2(domain, n, entries)[j]
      ensures p !in OwnedV2(domain, n, entries)[k]
    {
      OwnedV2At(domain, n, entries, j, p);
      OwnedV2At(domain, n, entries, k, p);
      DealtHolding(Pieces(domain, n, entries), entries, j, k, p);
      PiecesCount(domain, n, entries, p);
    }
  }

  lemma {:induction false} DealtHoldingOne(bs: seq<Box>, e: nat, j: nat, p: Point)
    requires j < e
    ensures Holding(Dealt(bs, e, j), p) <= Holding(bs, p)
  {
    hide In, Turn;
    if bs != [] {
      var last: nat := |bs| - 1;
      DealtHoldingOne(bs[..last], e, j, p);
      HoldingSnoc(bs[..last], bs[last], p);
      assert bs[..last] + [bs[last]] == bs;
      DealtSplit(bs, e, j);
      HoldingSnoc(Dealt(bs[..last], e, j), bs[last], p);
    }
  }

  lemma OwnedInDomain(domain: Box, n: nat, entries: nat, k: nat)
    requires n >= 1 && NonEmpty(domain, n) && k < entries
    ensures OwnedV2(domain, n, entries)[k] <= Points(domain)
  {
    hide Pieces, Dealt, OwnedV2, In;
    forall p | p in OwnedV2(domain, n, entries)[k]
      ensures p in Points(domain)
    {
      OwnedV2At(domain, n, entries, k, p);
      DealtHoldingOne(Pieces(domain, n, entries), entries, k, p);
      PiecesCount(domain, n, entries, p);
      PointsAt(domain, p);
    }
  }

  // ----- counting the elements of a query box

  lemma CommonPoints(bb: Box, b: Box, n: nat)
    requires NonEmpty(bb, n) && Sized(b, n)
    ensures !Meets(bb, b, n) ==> Points(bb) * Points(b) == {}
    ensures Meets(bb, b, n) ==> Sized(Intersection(bb, b), n) && Volume(Intersection(bb, b)) == |Points(bb) * Points(b)|
  {
    hide In, Volume, Points;
    forall p | p in Points(bb) && p in Points(b)
      ensures Meets(bb, b, n)
    {
      PointsAt(bb, p);
      PointsAt(b, p);
      PointMeansMeets(bb, b, n, p);
    }
    if Meets(bb, b, n) {
      IntersectionSized(bb, b, n);
      var r := Intersection(bb, b);
      forall p: Point
        ensures p in Points(r) <==> p in Points(bb) * Points(b)
      {
        PointsAt(bb, p);
        PointsAt(b, p);
        PointsAt(r, p);
        InIntersection(bb, b, n, p);
      }
      assert Points(r) == Points(bb) * Points(b);
      PointsNumber(r);
    }
  }

  /** No point lies in two of the boxes. */
  ghost predicate HeldOnce(bs: seq<Box>) {
    forall p :: Holding(bs, p) <= 1
  }

  /** One more box adds the points it shares with the query box. */
  lemma CountStep(bb: Box, bs: seq<Box>, n: nat, i: nat)
    requires NonEmpty(bb, n) && AllSized(bs, n) && HeldOnce(bs) && i < |bs|
    ensures |Points(bb) * PointsOfAll(bs[..i + 1], n)|
      == |Points(bb) * PointsOfAll(bs[..i], n)| + |Points(bb) * Points(bs[i])|
  {
    hide In, Points;
    var a, b := PointsOfAll(bs[..i], n), Points(bs[i]);
    assert bs[..i + 1][..i] == bs[..i];
    assert PointsOfAll(bs[..i + 1], n) == a + b;
    forall p | p in a
      ensures p !in b
    {
      PointsOfAllAt(bs[..i], n, p);
      HoldingSnoc(bs[..i], bs[i], p);
      assert bs[..i] + [bs[i]] == bs[..i + 1];
      HoldingPrefix(bs, i + 1, p);
      PointsAt(bs[i], p);
    }
    assert Points(bb) * (a + b) == Points(bb) * a + Points(bb) * b;
  }

  lemma {:induction false} HoldingPrefix(bs: seq<Box>, i: nat, p: Point)
    requires i <= |bs|
    ensures Holding(bs[..i], p) <= Holding(bs, p)
  {
    hide In;
    if i > 0 {
      HoldingPrefix(bs[1..], i - 1, p);
      assert bs[..i][1..] == bs[1..][..i - 1];
    }
  }

  /** ssh_hash_elem_count_v2: the number of the box's points in the entry's boxes. */
  method ElemCountV2(bb: Box, bb_tab: seq<Box>, ghost n: nat) returns (num_elem: nat)
    requires NonEmpty(bb, n) && AllSized(bb_tab, n) && HeldOnce(bb_tab)
    ensures num_elem == |Points(bb) * PointsOfAll(bb_tab, n)|
  {
    hide In, Points, Volume, HeldOnce, Sized;
    num_elem := 0;
    NoneYet(bb, bb_tab, n);
    for i := 0 to |bb_tab|
      invariant num_elem == |Points(bb) * PointsOfAll(bb_tab[..i], n)|
    {
      var ent_bb := bb_tab[i];
      BoxShapes(bb, ent_bb, n);
      CommonPoints(bb, ent_bb, n);
      CountStep(bb, bb_tab, n, i);
      var meets := BBoxDoesIntersect(bb, ent_bb, n);
      if meets {
        var isect := BBoxIntersect(bb, ent_bb, n);
        var v := BBoxVolume(isect, n);
        num_elem := num_elem + v;
      }
    }
    assert bb_tab[..|bb_tab|] == bb_tab;
  }

  lemma NoneYet(bb: Box, bs: seq<Box>, n: nat)
    requires |bb.lb| == |bb.ub| && AllSized(bs, n)
    ensures Points(bb) * PointsOfAll(bs[..0], n) == {}
  {
    assert bs[..0] == [];
  }

  lemma BoxShapes(bb: Box, b: Box, n: nat)
    requires NonEmpty(bb, n) && Sized(b, n)
    ensures IsBox(bb, n) && IsBox(b, n)
  {
  }

  /** What an entry holds after ssd_alloc_v2 meets the conditions of the count. */
  lemma DealtOnce(domain: Box, n: nat, entries: nat, j: nat)
    requires n >= 1 && NonEmpty(domain, n) && j < entries
    ensures var bs := Dealt(Pieces(domain, n, entries), entries, j);
      AllSized(bs, n) && HeldOnce(bs) && OwnedV2(domain, n, entries)[j] == PointsOfAll(bs, n)
  {
    hide Pieces, Dealt, PointsOfAll, In;
    var owned := OwnedV2(domain, n, entries);
    assert owned[j] == owned[j];
    forall p
      ensures Holding(Dealt(Pieces(domain, n, entries), entries, j), p) <= 1
    {
      DealtHoldingOne(Pieces(domain, n, entries), entries, j, p);
      PiecesCount(domain, n, entries, p);
    }
  }

  /** For a box inside the domain the counts of the entries add up to the volume of the box. */
  lemma CountsAddUpV2(bb: Box, domain: Box, n: nat, entries: nat)
    requires n >= 1 && NonEmpty(domain, n) && entries > 0 && NonEmpty(bb, n) && Includes(domain, bb, n)
    ensures SumOwned(OwnedV2(domain, n, entries), Points(bb)) == Volume(bb)
  {
    hide OwnedV2, Volume, Points, In;
    forall p | p in Points(bb)
      ensures p in Points(domain)
    {
      PointsAt(bb, p);
      PointsAt(domain, p);
      IncludesMeansPoints(domain, bb, n);
    }
    BisectionPartition(domain, n, entries);
    CountsAddUp(OwnedV2(domain, n, entries), Points(domain), Points(bb));
    PointsNumber(bb);
  }

  // ----- the servers of a box

  ghost predicate MeetsSome(bb: Box, bs: seq<Box>, n: nat)
    requires IsBox(bb, n)
  {
    exists i :: 0 <= i < |bs| && IsBox(bs[i], n) && Meets(bb, bs[i], n)
  }

  /** The entries with a box that meets bb, in rank order. */
  ghost function Meeting(bb: Box, tabs: seq<seq<Box>>, n: nat): (r: seq<nat>)
    requires IsBox(bb, n)
    ensures forall k: nat :: k in r <==> k < |tabs| && MeetsSome(bb, tabs[k], n)
    ensures forall i, j :: 0 <= i < j < |r| ==> r[i] < r[j]
  {
    if tabs == [] then []
    else
      var last: nat := |tabs| - 1;
      var before := Meeting(bb, tabs[..last], n);
      assert forall i :: 0 <= i < |before| ==> before[i] in before;
      if MeetsSome(bb, tabs[last], n) then before + [last] else before
  }

  lemma MeetingStep(bb: Box, tabs: seq<seq<Box>>, n: nat, k: nat)
    requires IsBox(bb, n) && k < |tabs|
    ensures Meeting(bb, tabs[..k + 1], n) == Meeting(bb, tabs[..k], n) + if MeetsSome(bb, tabs[k], n) then [k] else []
  {
    assert tabs[..k + 1][..k] == tabs[..k];
  }

  /** The boxes of every entry. */
  ghost function Tables(domain: Box, n: nat, entries: nat): (r: seq<seq<Box>>)
    requires n >= 1 && NonEmpty(domain, n) && entries > 0
    ensures |r| == entries
    ensures forall j {:trigger r[j]} :: 0 <= j < entries ==> r[j] == Dealt(Pieces(domain, n, entries), entries, j)
  {
    seq(entries, j requires 0 <= j < entries => Dealt(Pieces(domain, n, entries), entries, j))
  }

  /** An entry whose count for a box is not zero has a box that meets it. */
  lemma OwnersMeet(bb: Box, domain: Box, n: nat, entries: nat, k: nat)
    requires n >= 1 && NonEmpty(domain, n) && k < entries && NonEmpty(bb, n)
    requires OwnedV2(domain, n, entries)[k] * Points(bb) != {}
    ensures MeetsSome(bb, Tables(domain, n, entries)[k], n)
  {
    hide OwnedV2, Pieces, Dealt, In, Points, PointsOfAll;
    var bs := Tables(domain, n, entries)[k];
    var p :| p in OwnedV2(domain, n, entries)[k] * Points(bb);
    DealtOnce(domain, n, entries, k);
    OwnedV2At(domain, n, entries, k, p);
    PointsAt(bb, p);
    var i := HoldingSome(bs, p);
    PointMeansMeets(bb, bs[i], n, p);
  }

  lemma {:induction false} HoldingSome(bs: seq<Box>, p: Point) returns (i: nat)
    requires Holding(bs, p) > 0
    ensures i < |bs| && In(bs[i], p)
  {
    hide In;
    if In(bs[0], p) {
      i := 0;
    } else {
      var j := HoldingSome(bs[1..], p);
      i := j + 1;
    }
  }

  lemma {:induction false} HoldingHas(bs: seq<Box>, i: nat, p: Point)
    requires i < |bs| && In(bs[i], p)
    ensures Holding(bs, p) > 0
  {
    hide In;
    if i > 0 {
      HoldingHas(bs[1..], i - 1, p);
    }
  }

  /** What the hash answers for a box. */
  ghost function AnswerV2(domain: Box, n: nat, entries: nat, bb: Box): seq<nat>
    requires n >= 1 && NonEmpty(domain, n) && entries > 0
  {
    if IsBox(bb, n) then Meeting(bb, Tables(domain, n, entries), n) else []
  }

  /** The answer holds every server with a non-zero count. */
  lemma AnswerHoldsOwners(bb: Box, domain: Box, n: nat, entries: nat)
    requires n >= 1 && NonEmpty(domain, n) && entries > 0 && NonEmpty(bb, n)
    ensures forall k :: k in Holders(OwnedV2(domain, n, entries), Points(bb)) ==> k in AnswerV2(domain, n, entries, bb)
  {
    hide OwnedV2, Tables, Points, MeetsSome;
    forall k | k in Holders(OwnedV2(domain, n, entries), Points(bb))
      ensures k in AnswerV2(domain, n, entries, bb)
    {
      OwnersMeet(bb, domain, n, entries, k);
    }
  }

  /** A box of the list has points and meets bb. */
  ghost predicate MeetsFull(bb: Box, bs: seq<Box>, n: nat)
    requires IsBox(bb, n)
  {
    exists i :: 0 <= i < |bs| && NonEmpty(bs[i], n) && Meets(bb, bs[i], n)
  }

  /** A server owns an element of bb exactly when one of its boxes that have points meets bb. */
  lemma OwnersMeetFull(bb: Box, domain: Box, n: nat, entries: nat, k: nat)
    requires n >= 1 && NonEmpty(domain, n) && k < entries && NonEmpty(bb, n)
    ensures OwnedV2(domain, n, entries)[k] * Points(bb) != {} <==> MeetsFull(bb, Tables(domain, n, entries)[k], n)
  {
    hide OwnedV2, Pieces, Dealt, Points, PointsOfAll;
    var bs, own := Tables(domain, n, entries)[k], OwnedV2(domain, n, entries)[k];
    DealtOnce(domain, n, entries, k);
    if own * Points(bb) != {} {
      var p :| p in own * Points(bb);
      OwnedV2At(domain, n, entries, k, p);
      PointsAt(bb, p);
      var i := HoldingSome(bs, p);
      PointMeansMeets(bb, bs[i], n, p);
      assert NonEmpty(bs[i], n);
    }
    if MeetsFull(bb, bs, n) {
      var i :| 0 <= i < |bs| && NonEmpty(bs[i], n) && Meets(bb, bs[i], n);
      MeetsMeansPoint(bb, bs[i], n);
      var p :| In(bb, p) && In(bs[i], p);
      HoldingHas(bs, i, p);
      OwnedV2At(domain, n, entries, k, p);
      PointsAt(bb, p);
      assert p in own * Points(bb);
    }
  }

  /** The box that holds p alone. */
  function UnitBox(p: Point): Box {
    Box(p, p)
  }

  /** A box without points that was dealt to a server. */
  ghost predicate EmptyDealt(domain: Box, n: nat, entries: nat, k: nat, e: Box)
    requires n >= 1 && NonEmpty(domain, n) && k < entries
  {
    e in Tables(domain, n, entries)[k] && IsBox(e, n) && !NonEmpty(e, n)
  }

  /** Every point whose unit box meets an empty box of a server belongs to that server. */
  ghost predicate EmptyBoxesHarmless(domain: Box, n: nat, entries: nat)
    requires n >= 1 && NonEmpty(domain, n) && entries > 0
  {
    forall k, e, p: Point :: 0 <= k < entries && EmptyDealt(domain, n, entries, k, e) && |p| == n && Meets(UnitBox(p), e, n) ==>
      p in OwnedV2(domain, n, entries)[k]
  }

  ghost predicate AnswersOwners(domain: Box, n: nat, entries: nat, bb: Box)
    requires n >= 1 && NonEmpty(domain, n) && entries > 0 && IsBox(bb, n)
  {
    AnswerV2(domain, n, entries, bb) == Holders(OwnedV2(domain, n, entries), Points(bb))
  }

  /** A box that meets another shares with it a point whose unit box does. */
  lemma MeetingPoint(bb: Box, e: Box, n: nat) returns (p: Point)
    requires NonEmpty(bb, n) && IsBox(e, n) && Meets(bb, e, n)
    ensures In(bb, p) && |p| == n && Meets(UnitBox(p), e, n)
  {
    p := seq(n, d requires 0 <= d < n => Max(bb.lb[d], e.lb[d]));
    forall d | 0 <= d < n
      ensures bb.lb[d] <= p[d] <= bb.ub[d] && MeetsOnDim(UnitBox(p), e, d)
    {
      assert MeetsOnDim(bb, e, d);
    }
  }

  lemma UnitPoints(p: Point, n: nat)
    requires |p| == n
    ensures NonEmpty(UnitBox(p), n) && Points(UnitBox(p)) == {p}
  {
    forall x: Point
      ensures x in Points(UnitBox(p)) <==> x == p
    {
      PointsAt(UnitBox(p), x);
    }
  }

  lemma HarmlessAnswers(domain: Box, n: nat, entries: nat, bb: Box)
    requires n >= 1 && NonEmpty(domain, n) && entries > 0 && NonEmpty(bb, n) && EmptyBoxesHarmless(domain, n, entries)
    ensures AnswersOwners(domain, n, entries, bb)
  {
    hide OwnedV2, Points, Pieces, Dealt, Meets, In;
    var owned, tabs := OwnedV2(domain, n, entries), Tables(domain, n, entries);
    forall k | 0 <= k < entries
      ensures MeetsSome(bb, tabs[k], n) <==> owned[k] * Points(bb) != {}
    {
      OwnersMeetFull(bb, domain, n, entries, k);
      if MeetsSome(bb, tabs[k], n) {
        var i :| 0 <= i < |tabs[k]| && IsBox(tabs[k][i], n) && Meets(bb, tabs[k][i], n);
        if !NonEmpty(tabs[k][i], n) {
          var p := MeetingPoint(bb, tabs[k][i], n);
          PointsAt(bb, p);
          assert p in owned[k] * Points(bb);
        }
      }
      if owned[k] * Points(bb) != {} {
        OwnersMeet(bb, domain, n, entries, k);
      }
    }
    SameAnswers(bb, tabs, owned, n);
  }

  lemma AnsweredUnitOwned(domain: Box, n: nat, entries: nat, k: nat, e: Box, p: Point)
    requires n >= 1 && NonEmpty(domain, n) && k < entries && |p| == n && AnswersOwners(domain, n, entries, UnitBox(p))
    requires e in Tables(domain, n, entries)[k] && IsBox(e, n) && Meets(UnitBox(p), e, n)
    ensures p in OwnedV2(domain, n, entries)[k]
  {
    hide OwnedV2, Tables, Points, Meets;
    UnitPoints(p, n);
    var tabs := Tables(domain, n, entries);
    var i :| 0 <= i < |tabs[k]| && tabs[k][i] == e;
    assert MeetsSome(UnitBox(p), tabs[k], n);
    assert k in AnswerV2(domain, n, entries, UnitBox(p));
    var x :| x in OwnedV2(domain, n, entries)[k] * Points(UnitBox(p));
  }

  /**
   * ssd_hash_v2 answers exactly the servers with a non-zero count, for every box with points, if and only if
   * every point whose unit box meets an empty box of a server belongs to that server.
   */
  lemma AnswerIsOwnersWhen(domain: Box, n: nat, entries: nat)
    requires n >= 1 && NonEmpty(domain, n) && entries > 0
    ensures (forall bb :: NonEmpty(bb, n) ==> AnswersOwners(domain, n, entries, bb)) <==> EmptyBoxesHarmless(domain, n, entries)
  {
    hide OwnedV2, Tables, Points, Meets, AnswersOwners;
    if EmptyBoxesHarmless(domain, n, entries) {
      forall bb | NonEmpty(bb, n)
        ensures AnswersOwners(domain, n, entries, bb)
      {
        HarmlessAnswers(domain, n, entries, bb);
      }
    }
    if forall bb :: NonEmpty(bb, n) ==> AnswersOwners(domain, n, entries, bb) {
      forall k: nat, e, p: Point | k < entries && EmptyDealt(domain, n, entries, k, e) && |p| == n && Meets(UnitBox(p), e, n)
        ensures p in OwnedV2(domain, n, entries)[k]
      {
        UnitPoints(p, n);
        AnsweredUnitOwned(domain, n, entries, k, e, p);
      }
    }
  }

  /** When no box is empty the answer is exactly the servers with a non-zero count, as for the Hilbert hash. */
  lemma AnswerIsOwners(bb: Box, domain: Box, n: nat, entries: nat)
    requires n >= 1 && NonEmpty(domain, n) && entries > 0 && NonEmpty(bb, n)
    requires forall i :: 0 <= i < |Pieces(domain, n, entries)| ==> NonEmpty(Pieces(domain, n, entries)[i], n)
    ensures AnswerV2(domain, n, entries, bb) == Holders(OwnedV2(domain, n, entries), Points(bb))
  {
    hide OwnedV2, Points, Meets, Pieces, Dealt;
    forall k | 0 <= k < entries
      ensures forall e :: e in Tables(domain, n, entries)[k] ==> NonEmpty(e, n)
    {
      DealtNonEmpty(Pieces(domain, n, entries), n, entries, k);
    }
    assert EmptyBoxesHarmless(domain, n, entries);
    HarmlessAnswers(domain, n, entries, bb);
  }

  lemma {:induction false} DealtNonEmpty(bs: seq<Box>, n: nat, e: nat, j: nat)
    requires e > 0 && forall i :: 0 <= i < |bs| ==> NonEmpty(bs[i], n)
    ensures forall i :: 0 <= i < |Dealt(bs, e, j)| ==> NonEmpty(Dealt(bs, e, j)[i], n)
  {
    if bs != [] {
      DealtNonEmpty(bs[..|bs| - 1], n, e, j);
    }
  }

  lemma {:induction false} SameAnswers(bb: Box, tabs: seq<seq<Box>>, owned: seq<set<Point>>, n: nat)
    requires NonEmpty(bb, n) && |tabs| == |owned|
    requires forall k :: 0 <= k < |tabs| ==> (MeetsSome(bb, tabs[k], n) <==> owned[k] * Points(bb) != {})
    ensures Meeting(bb, tabs, n) == Holders(owned, Points(bb))
  {
    hide MeetsSome, Points;
    if tabs != [] {
      var last := |tabs| - 1;
      SameAnswers(bb, tabs[..last], owned[..last], n);
    }
  }

  // ----- a server answered without owning anything

  function Line(l: nat, u: nat): Box {
    Box([l], [u])
  }

  lemma BisectLine(l: nat, u: nat, rest: seq<Box>)
    requires l <= u + 1 && AllSized(rest, 1)
    ensures AllSized([Line(l, u)] + rest, 1)
    ensures BisectAll([Line(l, u)] + rest, 1, 0).0
      == [Line(l, (l + u) / 2), Line((l + u) / 2 + 1, u)] + BisectAll(rest, 1, 0).0
    ensures BisectAll([Line(l, u)] + rest, 1, 0).1 == BisectAll(rest, 1, 0).1
  {
    hide MaxDimSize, Lower, Upper;
    var b := Line(l, u);
    assert ([b] + rest)[1..] == rest;
    HalveLine(l, u);
  }

  lemma HalveLine(l: nat, u: nat)
    requires l <= u + 1
    ensures Sized(Line(l, u), 1) && MaxDimSize(Line(l, u), 1, 1, 0).1 == 0
    ensures Lower(Line(l, u), 0) == Line(l, (l + u) / 2) && Upper(Line(l, u), 0) == Line((l + u) / 2 + 1, u)
  {
  }

  lemma BisectNothing()
    ensures BisectAll([], 1, 0) == ([], 0)
  {
  }

  lemma OneRound()
    ensures Rounds(Line(0, 3), 1, 1) == ([Line(0, 1), Line(2, 3)], 0)
  {
    hide BisectAll, Rounds;
    BisectNothing();
    RoundsNext(Line(0, 3), 1, 0);
    BisectLine(0, 3, []);
    assert [Line(0, 3)] + [] == [Line(0, 3)];
    assert [Line(0, 1), Line(2, 3)] + [] == [Line(0, 1), Line(2, 3)];
  }

  lemma TwoRounds()
    ensures Rounds(Line(0, 3), 1, 2) == ([Line(0, 0), Line(1, 1), Line(2, 2), Line(3, 3)], 0)
  {
    hide BisectAll, Rounds;
    BisectNothing();
    OneRound();
    RoundsNext(Line(0, 3), 1, 1);
    BisectLine(2, 3, []);
    BisectLine(0, 1, [Line(2, 3)]);
    assert [Line(2, 3)] + [] == [Line(2, 3)] && [Line(0, 1)] + [Line(2, 3)] == [Line(0, 1), Line(2, 3)];
    assert [Line(0, 0), Line(1, 1)] + ([Line(2, 2), Line(3, 3)] + []) == [Line(0, 0), Line(1, 1), Line(2, 2), Line(3, 3)];
  }

  lemma ThreeRounds()
    ensures Rounds(Line(0, 3), 1, 3).0
      == [Line(0, 0), Line(1, 0), Line(1, 1), Line(2, 1), Line(2, 2), Line(3, 2), Line(3, 3), Line(4, 3)]
  {
    hide BisectAll, Rounds;
    BisectNothing();
    TwoRounds();
    RoundsNext(Line(0, 3), 1, 2);
    BisectLine(3, 3, []);
    assert [Line(3, 3)] + [] == [Line(3, 3)];
    BisectLine(2, 2, [Line(3, 3)]);
    BisectLine(1, 1, [Line(2, 2), Line(3, 3)]);
    BisectLine(0, 0, [Line(1, 1), Line(2, 2), Line(3, 3)]);
    assert [Line(2, 2)] + [Line(3, 3)] == [Line(2, 2), Line(3, 3)];
    assert [Line(1, 1)] + [Line(2, 2), Line(3, 3)] == [Line(1, 1), Line(2, 2), Line(3, 3)];
    assert [Line(0, 0)] + [Line(1, 1), Line(2, 2), Line(3, 3)] == [Line(0, 0), Line(1, 1), Line(2, 2), Line(3, 3)];
    assert BisectAll([Line(3, 3)], 1, 0).0 == [Line(3, 3), Line(4, 3)];
    var d := [Line(2, 2), Line(3, 2)] + [Line(3, 3), Line(4, 3)];
    assert BisectAll([Line(2, 2), Line(3, 3)], 1, 0).0 == d;
    assert d == [Line(2, 2), Line(3, 2), Line(3, 3), Line(4, 3)];
  }

  lemma {:induction false} DealtOneEach(bs: seq<Box>, e: nat, j: nat)
    requires |bs| <= e && j < e
    ensures Dealt(bs, e, j) == if j < |bs| then [bs[j]] else []
  {
    hide Turn;
    if bs != [] {
      var last: nat := |bs| - 1;
      DealtOneEach(bs[..last], e, j);
      DealtSplit(bs, e, j);
      TurnOfFirst(last, e);
    }
  }

  lemma TurnOfFirst(i: nat, e: nat)
    requires i < e
    ensures Turn(i, e) == i
  {
  }

  /** Four cells over eight servers: server 1 owns nothing and is answered for the box of the first three cells all the same. */
  lemma EmptyBoxAnswered()
    ensures NonEmpty(Line(0, 3), 1)
    ensures OwnedV2(Line(0, 3), 1, 8)[1] == {}
    ensures 1 in AnswerV2(Line(0, 3), 1, 8, Line(0, 2))
  {
    hide Dealt, Rounds, Meets;
    ThreeRounds();
    assert CeilLog(8) == 3;
    var bs, e := Pieces(Line(0, 3), 1, 8), Line(1, 0);
    DealtOneEach(bs, 8, 1);
    assert Tables(Line(0, 3), 1, 8)[1] == [e];
    assert MeetsOnDim(Line(0, 2), e, 0);
    LineMeets();
    assert MeetsSome(Line(0, 2), [e], 1);
    forall p
      ensures p !in OwnedV2(Line(0, 3), 1, 8)[1]
    {
      OwnedV2At(Line(0, 3), 1, 8, 1, p);
      if Holding([e], p) > 0 {
        var i := HoldingSome([e], p);
      }
    }
  }

  lemma LineMeets()
    ensures Meets(Line(0, 2), Line(1, 0), 1)
  {
  }

  ghost predicate CacheAgreesV2(cache: ShCache, domain: Box, n: nat, entries: nat)
    requires n >= 1 && NonEmpty(domain, n) && entries > 0
    reads cache
  {
    cache.Valid() && forall i :: 0 <= i < |cache.entries| ==>
      cache.entries[i].nodes == AnswerV2(domain, n, entries, cache.entries[i].bb)
  }

  ghost predicate DealtOut(ent_tab: seq<BoxEntry>, tabs: seq<seq<Box>>)
    reads ent_tab, set k | 0 <= k < |ent_tab| :: ent_tab[k].bb_tab
  {
    |ent_tab| == |tabs| && Apart(ent_tab) && forall j :: 0 <= j < |tabs| ==> ent_tab[j].Holds(tabs[j])
  }

  /** The inner loop of ssd_hash_v2, over the boxes of one entry. */
  method MeetsAny(de: BoxEntry, bb: Box, ghost bs: seq<Box>, ghost n: nat) returns (found: bool)
    requires IsBox(bb, n) && de.Holds(bs) && AllSized(bs, n)
    ensures found <==> MeetsSome(bb, bs, n)
  {
    for j := 0 to de.num_bbox
      invariant forall i :: 0 <= i < j ==> !Meets(bb, bs[i], n)
    {
      assert de.bb_tab[..de.num_bbox][j] == bs[j];
      found := BBoxDoesIntersect(bb, de.bb_tab[j], n);
      if found {
        return true;
      }
    }
    return false;
  }

  /** The loop of ssd_hash_v2 over the servers. */
  method FindMeeting(ent_tab: seq<BoxEntry>, bb: Box, ghost tabs: seq<seq<Box>>, ghost n: nat) returns (de_tab: seq<nat>)
    requires IsBox(bb, n) && DealtOut(ent_tab, tabs) && forall k :: 0 <= k < |tabs| ==> AllSized(tabs[k], n)
    ensures de_tab == Meeting(bb, tabs, n)
  {
    hide MeetsSome, Meeting;
    de_tab := [];
    assert tabs[..0] == [];
    MeetingNone(bb, n);
    for k := 0 to |ent_tab|
      invariant de_tab == Meeting(bb, tabs[..k], n)
    {
      MeetingStep(bb, tabs, n, k);
      var found := MeetsAny(ent_tab[k], bb, tabs[k], n);
      if found {
        de_tab := de_tab + [ent_tab[k].rank];
      }
    }
    assert tabs[..|ent_tab|] == tabs;
  }

  lemma MeetingNone(bb: Box, n: nat)
    requires IsBox(bb, n)
    ensures Meeting(bb, [], n) == []
  {
  }

  /** ssd_hash_v2 with its cache, which never changes an answer. */
  method SsdHashV2(cache: ShCache, ent_tab: seq<BoxEntry>, bb: Box, ghost domain: Box, ghost n: nat)
    returns (num_nodes: nat, de_tab: seq<nat>)
    requires n >= 1 && NonEmpty(domain, n) && |ent_tab| > 0 && IsBox(bb, n)
    requires DealtOut(ent_tab, Tables(domain, n, |ent_tab|))
    requires CacheAgreesV2(cache, domain, n, |ent_tab|)
    modifies cache
    ensures de_tab == AnswerV2(domain, n, |ent_tab|, bb) && num_nodes == |de_tab|
    ensures CacheAgreesV2(cache, domain, n, |ent_tab|)
    ensures cache.entries == old(cache.entries) + if de_tab != [] && Remembers(old(cache.entries), bb) then [] else [CacheEntry(bb, de_tab)]
  {
    hide DealtOut, Meeting;
    var num;
    num, de_tab := cache.ShFind(bb);
    if num > 0 {
      return num, de_tab;
    }
    TablesSized(domain, n, |ent_tab|);
    de_tab := FindMeeting(ent_tab, bb, Tables(domain, n, |ent_tab|), n);
    num_nodes := |de_tab|;
    cache.ShAdd(bb, de_tab);
  }

  lemma TablesSized(domain: Box, n: nat, entries: nat)
    requires n >= 1 && NonEmpty(domain, n) && entries > 0
    ensures forall k :: 0 <= k < entries ==> AllSized(Tables(domain, n, entries)[k], n)
  {
    hide Dealt, Pieces;
    forall k | 0 <= k < entries
      ensures AllSized(Tables(domain, n, entries)[k], n)
    {
      DealtOnce(domain, n, entries, k);
    }
  }
}
