/** Hash version 2: the domain cut in two along its longest side, again and again. */
module Bisection {
  import opened Arithmetic
  import opened BitStrings
  import opened HilbertIndex
  import opened Boxes
  import opened LinkedQueue

  ghost predicate AllSized(bs: seq<Box>, n: nat) {
    forall i :: 0 <= i < |bs| ==> Sized(bs[i], n)
  }

  // ----- one box

  /** The greatest size among the first i dimensions and the first dimension that has it; stale if all sizes are 0. */
  ghost function MaxDimSize(b: Box, n: nat, i: nat, stale: nat): (r: (nat, nat))
    requires Sized(b, n) && i <= n
    ensures forall d :: 0 <= d < i ==> b.ub[d] + 1 - b.lb[d] <= r.0
    ensures r.0 > 0 ==> r.1 < i && b.ub[r.1] + 1 - b.lb[r.1] == r.0
    ensures r.0 > 0 ==> forall d :: 0 <= d < r.1 ==> b.ub[d] + 1 - b.lb[d] < r.0
    ensures r.0 == 0 ==> r.1 == stale
  {
    if i == 0 then (0, stale)
    else
      var (size, dim) := MaxDimSize(b, n, i - 1, stale);
      var here := b.ub[i - 1] + 1 - b.lb[i - 1];
      if size < here then (here, i - 1) else (size, dim)
  }

  lemma LongestInRange(b: Box, n: nat, stale: nat)
    requires Sized(b, n) && stale < n
    ensures MaxDimSize(b, n, n, stale).1 < n && |b.lb| == |b.ub| == n
  {
  }

  /** get_bbox_max_dim_size; for a box with no extent at all the dimension stays what it was. */
  method GetBBoxMaxDimSize(bb: Box, out_dim: nat, ghost n: nat) returns (max_dim_size: nat, dim: nat)
    requires Sized(bb, n)
    ensures (max_dim_size, dim) == MaxDimSize(bb, n, n, out_dim)
    ensures forall d :: 0 <= d < n ==> bb.ub[d] + 1 - bb.lb[d] <= max_dim_size
    ensures max_dim_size > 0 ==> dim < n && bb.ub[dim] + 1 - bb.lb[dim] == max_dim_size
    ensures max_dim_size > 0 ==> forall d :: 0 <= d < dim ==> bb.ub[d] + 1 - bb.lb[d] < max_dim_size
    ensures max_dim_size == 0 ==> dim == out_dim
  {
    max_dim_size, dim := 0, out_dim;
    for i := 0 to |bb.lb|
      invariant (max_dim_size, dim) == MaxDimSize(bb, n, i, out_dim)
    {
      var size := bb.ub[i] + 1 - bb.lb[i];
      if max_dim_size < size {
        max_dim_size, dim := size, i;
      }
    }
  }

  function Lower(b: Box, dim: nat): Box
    requires |b.lb| == |b.ub| && dim < |b.lb|
  {
    b.(ub := b.ub[dim := (b.lb[dim] + b.ub[dim]) / 2])
  }

  function Upper(b: Box, dim: nat): Box
    requires |b.lb| == |b.ub| && dim < |b.lb|
  {
    b.(lb := b.lb[dim := (b.lb[dim] + b.ub[dim]) / 2 + 1])
  }

  /** A point of a box lies in exactly one of the halves; a box without points has halves without points. */
  lemma InHalves(b: Box, n: nat, dim: nat, p: Point)
    requires Sized(b, n) && dim < n
    ensures Sized(Lower(b, dim), n) && Sized(Upper(b, dim), n)
    ensures In(b, p) <==> In(Lower(b, dim), p) || In(Upper(b, dim), p)
    ensures !(In(Lower(b, dim), p) && In(Upper(b, dim), p))
  {
    if In(Lower(b, dim), p) {
      assert p[dim] <= Lower(b, dim).ub[dim];
    }
    if In(Upper(b, dim), p) {
      assert p[dim] >= Upper(b, dim).lb[dim];
    }
  }

  /** The dimension is the first of those in which the box has most points. */
  ghost predicate FirstLongest(b: Box, n: nat, dim: nat)
    requires Sized(b, n)
  {
    && dim < n && (forall d :: 0 <= d < n ==> b.ub[d] + 1 - b.lb[d] <= b.ub[dim] + 1 - b.lb[dim])
    && forall d :: 0 <= d < dim ==> b.ub[d] + 1 - b.lb[d] < b.ub[dim] + 1 - b.lb[dim]
  }

  /** The halves keep b's bounds but meet in dimension dim, where the lower one has as much as the upper one or one more. */
  ghost predicate SplitAt(b: Box, n: nat, dim: nat, b1: Box, b2: Box)
    requires Sized(b, n)
  {
    && dim < n && Sized(b1, n) && Sized(b2, n) && b1.lb == b.lb && b2.ub == b.ub
    && (forall d :: 0 <= d < n && d != dim ==> b1.ub[d] == b.ub[d] && b2.lb[d] == b.lb[d])
    && b2.lb[dim] == b1.ub[dim] + 1
    && b2.ub[dim] + 1 - b2.lb[dim] <= b1.ub[dim] + 1 - b1.lb[dim] <= b2.ub[dim] + 2 - b2.lb[dim]
  }

  /** b was cut in two along its first longest side. For a box that is empty in all dimensions every cut is the same. */
  ghost predicate Halved(b: Box, n: nat, b1: Box, b2: Box)
    requires Sized(b, n)
  {
    exists dim :: SplitAt(b, n, dim, b1, b2) && (Thin(b, n) || FirstLongest(b, n, dim))
  }

  /** No dimension has a point. */
  ghost predicate Thin(b: Box, n: nat)
    requires Sized(b, n)
  {
    forall d :: 0 <= d < n ==> b.ub[d] + 1 == b.lb[d]
  }

  lemma {:induction false} SplitInHalves(b: Box, n: nat, dim: nat)
    requires Sized(b, n) && dim < n
    ensures SplitAt(b, n, dim, Lower(b, dim), Upper(b, dim))
  {
    InHalves(b, n, dim, []);
  }

  lemma {:induction false} SplitUnique(b: Box, n: nat, dim: nat, b1: Box, b2: Box, c1: Box, c2: Box)
    requires Sized(b, n) && SplitAt(b, n, dim, b1, b2) && SplitAt(b, n, dim, c1, c2)
    ensures b1 == c1 && b2 == c2
  {
    assert b1.ub[dim] == c1.ub[dim];
    assert forall d :: 0 <= d < n ==> b1.ub[d] == c1.ub[d] && b2.lb[d] == c2.lb[d];
  }

  /** Cutting a thin box changes nothing. */
  lemma {:induction false} ThinSplit(b: Box, n: nat, dim: nat, b1: Box, b2: Box)
    requires Sized(b, n) && Thin(b, n) && SplitAt(b, n, dim, b1, b2)
    ensures b1 == b && b2 == b
  {
    assert forall d :: 0 <= d < n ==> b1.ub[d] == b.ub[d] && b2.lb[d] == b.lb[d];
  }

  /** There is only one way to halve a box. */
  lemma {:induction false} HalvedUnique(b: Box, n: nat, b1: Box, b2: Box, c1: Box, c2: Box)
    requires Sized(b, n) && Halved(b, n, b1, b2) && Halved(b, n, c1, c2)
    ensures b1 == c1 && b2 == c2
  {
    hide SplitAt;
    var d :| SplitAt(b, n, d, b1, b2) && (Thin(b, n) || FirstLongest(b, n, d));
    var e :| SplitAt(b, n, e, c1, c2) && (Thin(b, n) || FirstLongest(b, n, e));
    if Thin(b, n) {
      ThinSplit(b, n, d, b1, b2);
      ThinSplit(b, n, e, c1, c2);
    } else {
      assert d == e;
      SplitUnique(b, n, d, b1, b2, c1, c2);
    }
  }

  lemma HalvedHere(b: Box, n: nat, stale: nat)
    requires Sized(b, n) && stale < n
    ensures var dim := MaxDimSize(b, n, n, stale).1; dim < n && Halved(b, n, Lower(b, dim), Upper(b, dim))
  {
    var (size, dim) := MaxDimSize(b, n, n, stale);
    SplitInHalves(b, n, dim);
    assert size == 0 ==> Thin(b, n);
    assert size > 0 ==> FirstLongest(b, n, dim);
  }

  // ----- one round

  /** The boxes of one round: those of the round before, each replaced by its halves. */
  ghost predicate IsRound(bs: seq<Box>, n: nat, halves: seq<Box>)
    requires AllSized(bs, n)
  {
    |halves| == 2 * |bs| && forall i :: 0 <= i < |bs| ==> Halved(bs[i], n, halves[2 * i], halves[2 * i + 1])
  }

  /** The halves of all boxes, and the dimension of the last cut. */
  ghost function BisectAll(bs: seq<Box>, n: nat, stale: nat): (r: (seq<Box>, nat))
    requires AllSized(bs, n) && stale < n
    ensures |r.0| == 2 * |bs| && AllSized(r.0, n) && r.1 < n
  {
    if bs == [] then ([], stale)
    else
      var dim := MaxDimSize(bs[0], n, n, stale).1;
      InHalves(bs[0], n, dim, []);
      var (rest, last) := BisectAll(bs[1..], n, dim);
      ([Lower(bs[0], dim), Upper(bs[0], dim)] + rest, last)
  }

  lemma {:induction false} BisectAllIsRound(bs: seq<Box>, n: nat, stale: nat)
    requires AllSized(bs, n) && stale < n
    ensures IsRound(bs, n, BisectAll(bs, n, stale).0)
  {
    hide Halved, Sized, MaxDimSize;
    if bs != [] {
      HalvedHere(bs[0], n, stale);
      LongestInRange(bs[0], n, stale);
      var dim := MaxDimSize(bs[0], n, n, stale).1;
      var halves, rest := BisectAll(bs, n, stale).0, BisectAll(bs[1..], n, dim).0;
      BisectAllIsRound(bs[1..], n, dim);
      assert halves == [Lower(bs[0], dim), Upper(bs[0], dim)] + rest;
      forall i | 0 <= i < |bs|
        ensures Halved(bs[i], n, halves[2 * i], halves[2 * i + 1])
      {
        if i > 0 {
          assert Halved(bs[1..][i - 1], n, rest[2 * (i - 1)], rest[2 * (i - 1) + 1]);
        }
      }
    }
  }

  /** The domain after k rounds. */
  ghost predicate AfterRounds(domain: Box, n: nat, k: nat, bs: seq<Box>)
    requires Sized(domain, n)
    decreases k
  {
    if k == 0 then bs == [domain]
    else exists before :: AllSized(before, n) && AfterRounds(domain, n, k - 1, before) && IsRound(before, n, bs)
  }

  lemma {:induction false} RoundUnique(bs: seq<Box>, n: nat, halves: seq<Box>, halves': seq<Box>)
    requires AllSized(bs, n) && IsRound(bs, n, halves) && IsRound(bs, n, halves')
    ensures halves == halves'
  {
    hide Halved, Sized;
    forall k | 0 <= k < |halves|
      ensures halves[k] == halves'[k]
    {
      var i := k / 2;
      assert k == 2 * i || k == 2 * i + 1;
      HalvedUnique(bs[i], n, halves[2 * i], halves[2 * i + 1], halves'[2 * i], halves'[2 * i + 1]);
    }
  }

  /** So a number of rounds has one outcome. */
  lemma {:induction false} RoundsUnique(domain: Box, n: nat, k: nat, bs: seq<Box>, bs': seq<Box>)
    requires Sized(domain, n) && AfterRounds(domain, n, k, bs) && AfterRounds(domain, n, k, bs')
    ensures bs == bs'
    decreases k
  {
    hide Sized, IsRound;
    if k > 0 {
      var before :| AllSized(before, n) && AfterRounds(domain, n, k - 1, before) && IsRound(before, n, bs);
      var before' :| AllSized(before', n) && AfterRounds(domain, n, k - 1, before') && IsRound(before', n, bs');
      RoundsUnique(domain, n, k - 1, before, before');
      RoundUnique(before, n, bs, bs');
    }
  }

  /** How many of the boxes hold a point. */
  ghost function Holding(bs: seq<Box>, p: Point): nat {
    if bs == [] then 0 else (if In(bs[0], p) then 1 else 0) + Holding(bs[1..], p)
  }

  lemma {:induction false} BisectAllCounts(bs: seq<Box>, n: nat, stale: nat, p: Point)
    requires AllSized(bs, n) && stale < n
    ensures Holding(BisectAll(bs, n, stale).0, p) == Holding(bs, p)
  {
    hide In, Sized;
    if bs != [] {
      var dim := MaxDimSize(bs[0], n, n, stale).1;
      LongestInRange(bs[0], n, stale);
      InHalves(bs[0], n, dim, p);
      var lower, upper, rest := Lower(bs[0], dim), Upper(bs[0], dim), BisectAll(bs[1..], n, dim).0;
      BisectAllCounts(bs[1..], n, dim, p);
      assert ([lower, upper] + rest)[1..] == [upper] + rest;
      assert ([upper] + rest)[1..] == rest;
    }
  }

  /** The boxes after i rounds and the dimension of the last cut. */
  ghost function Rounds(domain: Box, n: nat, i: nat): (r: (seq<Box>, nat))
    requires n >= 1 && NonEmpty(domain, n)
    ensures |r.0| == Pow2(i) && AllSized(r.0, n) && r.1 < n
  {
    if i == 0 then ([domain], 0)
    else
      var (bs, dim) := Rounds(domain, n, i - 1);
      BisectAll(bs, n, dim)
  }

  lemma {:induction false} RoundsAre(domain: Box, n: nat, k: nat)
    requires n >= 1 && NonEmpty(domain, n)
    ensures AfterRounds(domain, n, k, Rounds(domain, n, k).0)
  {
    hide Halved, Sized, IsRound;
    if k > 0 {
      var (bs, dim) := Rounds(domain, n, k - 1);
      RoundsAre(domain, n, k - 1);
      BisectAllIsRound(bs, n, dim);
    }
  }

  /** After any number of rounds every point of the domain lies in exactly one box and no other point in any. */
  lemma {:induction false} RoundsCount(domain: Box, n: nat, i: nat, p: Point)
    requires n >= 1 && NonEmpty(domain, n)
    ensures Holding(Rounds(domain, n, i).0, p) == if In(domain, p) then 1 else 0
  {
    if i == 0 {
      assert [domain][1..] == [];
    } else {
      RoundsCount(domain, n, i - 1, p);
      var (bs, dim) := Rounds(domain, n, i - 1);
      BisectAllCounts(bs, n, dim, p);
    }
  }

  /** With the halves in done and the boxes in left still to cut the round ends in result. */
  ghost predicate LeadsTo(done: seq<Box>, left: seq<Box>, n: nat, stale: nat, result: (seq<Box>, nat))
    requires AllSized(left, n) && stale < n
  {
    done + BisectAll(left, n, stale).0 == result.0 && BisectAll(left, n, stale).1 == result.1
  }

  lemma LeadsStart(left: seq<Box>, n: nat, stale: nat)
    requires AllSized(left, n) && stale < n
    ensures LeadsTo([], left, n, stale, BisectAll(left, n, stale))
  {
    assert [] + BisectAll(left, n, stale).0 == BisectAll(left, n, stale).0;
  }

  lemma LeadsOn(done: seq<Box>, left: seq<Box>, n: nat, stale: nat, result: (seq<Box>, nat))
    requires AllSized(left, n) && stale < n && left != [] && LeadsTo(done, left, n, stale, result)
    ensures var dim := MaxDimSize(left[0], n, n, stale).1;
      LeadsTo((done + [Lower(left[0], dim)]) + [Upper(left[0], dim)], left[1..], n, dim, result)
  {
    hide MaxDimSize;
    var dim := MaxDimSize(left[0], n, n, stale).1;
    var rest := BisectAll(left[1..], n, dim).0;
    var b1, b2 := Lower(left[0], dim), Upper(left[0], dim);
    assert ((done + [b1]) + [b2]) + rest == done + ([b1, b2] + rest);
  }

  lemma LeadsEnd(done: seq<Box>, n: nat, stale: nat, result: (seq<Box>, nat))
    requires stale < n && LeadsTo(done, [], n, stale, result)
    ensures result == (done, stale)
  {
    assert done + [] == done;
  }

  /** One round: every box of src_q leaves it and its halves go to dst_q. */
  method BisectRound(src_q: Queue<Box>, dst_q: Queue<Box>, dim0: nat, ghost n: nat) returns (dim: nat)
    requires src_q.Valid() && dst_q.Valid() && src_q.Repr !! dst_q.Repr
    requires AllSized(src_q.contents, n) && dim0 < n && dst_q.contents == []
    modifies src_q.Repr, dst_q.Repr
    ensures src_q.Valid() && dst_q.Valid() && src_q.Repr !! dst_q.Repr
    ensures fresh(src_q.Repr - old(src_q.Repr)) && fresh(dst_q.Repr - old(dst_q.Repr))
    ensures src_q.contents == [] && (dst_q.contents, dim) == BisectAll(old(src_q.contents), n, dim0)
    ensures IsRound(old(src_q.contents), n, dst_q.contents)
  {
    hide Queue.Valid, Sized, MaxDimSize, BisectAll, LeadsTo, IsRound;
    dim := dim0;
    BisectAllIsRound(src_q.contents, n, dim0);
    ghost var result := BisectAll(src_q.contents, n, dim0);
    LeadsStart(src_q.contents, n, dim0);
    while !src_q.IsEmpty()
      invariant src_q.Valid() && dst_q.Valid() && src_q.Repr !! dst_q.Repr
      invariant fresh(src_q.Repr - old(src_q.Repr)) && fresh(dst_q.Repr - old(dst_q.Repr))
      invariant AllSized(src_q.contents, n) && dim < n
      invariant LeadsTo(dst_q.contents, src_q.contents, n, dim, result)
      decreases |src_q.contents|
    {
      ghost var done, left, was := dst_q.contents, src_q.contents, dim;
      var item := src_q.Dequeue();
      var bb := item.value;
      var size;
      size, dim := GetBBoxMaxDimSize(bb, dim, n);
      LongestInRange(bb, n, was);
      var b1, b2 := Lower(bb, dim), Upper(bb, dim);
      dst_q.Enqueue(b1);
      dst_q.Enqueue(b2);
      LeadsOn(done, left, n, was, result);
    }
    LeadsEnd(dst_q.contents, n, dim, result);
  }

  /** The rounds of ssd_alloc_v2. Between rounds exactly one of the two queues holds boxes, all of them. */
  method BisectDomain(domain: Box, num_divide_iteration: nat, ghost n: nat) returns (q: Queue<Box>)
    requires n >= 1 && NonEmpty(domain, n)
    ensures q.Valid() && fresh(q.Repr) && q.contents == Rounds(domain, n, num_divide_iteration).0
    ensures AfterRounds(domain, n, num_divide_iteration, q.contents)
  {
    hide Queue.Valid, NonEmpty, Sized, BisectAll, In, IsRound, AfterRounds;
    var q1 := new Queue<Box>();
    var q2 := new Queue<Box>();
    q1.Enqueue(domain);
    assert q1.contents + q2.contents == [domain];
    RoundsNext(domain, n, 0);
    var dim := 0; // measured before it is used, because the domain has points
    for i := 0 to num_divide_iteration
      invariant q1.Valid() && q2.Valid() && q1.Repr !! q2.Repr && fresh(q1.Repr) && fresh(q2.Repr)
      invariant (q1.contents == []) != (q2.contents == [])
      invariant (q1.contents + q2.contents, dim) == Rounds(domain, n, i)
    {
      var src_q, dst_q;
      RoundsNext(domain, n, i);
      if !q1.IsEmpty() && q2.IsEmpty() {
        assert q1.contents + q2.contents == q1.contents;
        src_q, dst_q := q1, q2;
      } else if !q2.IsEmpty() && q1.IsEmpty() {
        assert q1.contents + q2.contents == q2.contents;
        src_q, dst_q := q2, q1;
      } else {
        assert false;
        src_q, dst_q := q1, q2;
      }
      dim := BisectRound(src_q, dst_q, dim, n);
      assert src_q.contents + dst_q.contents == dst_q.contents == dst_q.contents + src_q.contents;
    }
    if !q1.IsEmpty() {
      q := q1;
    } else {
      q := q2;
    }
    assert q.contents == q1.contents + q2.contents;
    RoundsAre(domain, n, num_divide_iteration);
  }

  lemma RoundsNext(domain: Box, n: nat, i: nat)
    requires n >= 1 && NonEmpty(domain, n)
    ensures var (bs, dim) := Rounds(domain, n, i);
      |bs| >= 1 && AllSized(bs, n) && dim < n && Rounds(domain, n, i + 1) == BisectAll(bs, n, dim)
      && |Rounds(domain, n, i + 1).0| >= 1
    ensures Rounds(domain, n, 0) == ([domain], 0)
  {
  }

  // ----- dealing the boxes out

  /** Whose turn box i is. */
  function Turn(i: nat, e: nat): (j: nat)
    requires e > 0
    ensures j < e
  {
    i % e
  }

  /** The boxes entry j gets of bs when they are dealt out in turn to e entries. */
  function Dealt(bs: seq<Box>, e: nat, j: nat): seq<Box>
    requires e > 0
  {
    if bs == [] then []
    else
      var last := |bs| - 1;
      Dealt(bs[..last], e, j) + if Turn(last, e) == j then [bs[last]] else []
  }

  lemma TurnStep(c: nat, i: nat, e: nat, j: nat)
    requires j < e && i <= Times(c, e) + j <= i + e - 1
    ensures Turn(i, e) == j ==> i + 1 <= Times(c + 1, e) + j <= i + e
    ensures Turn(i, e) != j ==> i + 1 <= Times(c, e) + j
  {
    var q := i / e;
    TimesIsProduct(q, e);
    assert i == Times(q, e) + i % e;
    if i % e == j {
      HighLowOrder(c, 0, q, e);
      HighLowOrder(c, 0, q + 1, e);
      assert c == q;
    } else if i == Times(c, e) + j {
      HighLowUnique(c, j, q, i % e, e);
    }
  }

  /** No entry gets more than its even share rounded up. */
  lemma {:induction false} DealtLength(bs: seq<Box>, e: nat, j: nat)
    requires j < e
    ensures var c := |Dealt(bs, e, j)|; |bs| <= Times(c, e) + j <= |bs| + e - 1
  {
    hide Times, Turn;
    if bs == [] {
      assert Times(0, e) == 0 by { TimesIsProduct(0, e); }
    } else {
      var i: nat := |bs| - 1;
      DealtLength(bs[..i], e, j);
      TurnStep(|Dealt(bs[..i], e, j)|, i, e, j);
    }
  }

  lemma QuotientBound(c: nat, t: nat, e: nat)
    requires e > 0 && Times(c, e) <= t
    ensures c <= t / e
  {
    var q := t / e;
    TimesIsProduct(q, e);
    assert t == Times(q, e) + t % e;
    HighLowOrder(q, t % e, c, e);
  }

  lemma DealtFits(bs: seq<Box>, e: nat, j: nat)
    requires j < e
    ensures |Dealt(bs, e, j)| <= (|bs| + e - 1) / e
  {
    hide Times, Dealt;
    DealtLength(bs, e, j);
    QuotientBound(|Dealt(bs, e, j)|, |bs| + e - 1, e);
  }

  /** Entry j's boxes are j, j + e, j + 2e and so on. */
  lemma {:induction false} DealtAt(bs: seq<Box>, e: nat, j: nat, k: nat)
    requires j < e && k < |Dealt(bs, e, j)|
    ensures Times(k, e) + j < |bs| && Dealt(bs, e, j)[k] == bs[Times(k, e) + j]
  {
    hide Times, Turn;
    var last: nat := |bs| - 1;
    if k < |Dealt(bs[..last], e, j)| {
      DealtAt(bs[..last], e, j, k);
    } else {
      DealtLength(bs[..last], e, j);
      LastTurn(k, last, e, j);
    }
  }

  lemma LastTurn(c: nat, i: nat, e: nat, j: nat)
    requires j < e && Turn(i, e) == j && i <= Times(c, e) + j <= i + e - 1
    ensures i == Times(c, e) + j
  {
    var q, r := DivMod(i, e);
    HighLowOrder(c, 0, q, e);
    HighLowOrder(c, 0, q + 1, e);
  }

  /** The entries' shares of the deal, added up over the first k entries. */
  ghost function DealtSum(bs: seq<Box>, e: nat, k: nat): nat
    requires e > 0
  {
    if k == 0 then 0 else DealtSum(bs, e, k - 1) + |Dealt(bs, e, k - 1)|
  }

  lemma {:induction false} DealtSumStep(bs: seq<Box>, e: nat, k: nat)
    requires e > 0 && bs != []
    ensures DealtSum(bs, e, k) == DealtSum(bs[..|bs| - 1], e, k) + if Turn(|bs| - 1, e) < k then 1 else 0
  {
    hide Turn;
    if k > 0 {
      DealtSumStep(bs, e, k - 1);
    }
  }

  /** Every box is dealt to one entry. */
  lemma {:induction false} DealtSumAll(bs: seq<Box>, e: nat)
    requires e > 0
    ensures DealtSum(bs, e, e) == |bs|
  {
    hide Turn;
    if bs == [] {
      NothingInSum(e, e);
    } else {
      DealtSumAll(bs[..|bs| - 1], e);
      DealtSumStep(bs, e, e);
    }
  }

  lemma {:induction false} NothingInSum(e: nat, k: nat)
    requires e > 0
    ensures DealtSum([], e, k) == 0
  {
    if k > 0 {
      NothingInSum(e, k - 1);
    }
  }

  /** With as many boxes as entries, but fewer than twice as many, every entry gets one or two. */
  lemma OneOrTwo(bs: seq<Box>, e: nat, j: nat)
    requires j < e <= |bs| < 2 * e
    ensures 1 <= |Dealt(bs, e, j)| <= 2
  {
    hide Times, Dealt;
    var c := |Dealt(bs, e, j)|;
    DealtLength(bs, e, j);
    OneTimes(e);
    TimesAdd(1, 1, e);
    TimesAdd(2, 1, e);
    TimesZeroOne(e);
    if c >= 3 {
      TimesMonotone(3, c, e);
    } else if c == 0 {
      TimesIsProduct(0, e);
    }
  }
}
