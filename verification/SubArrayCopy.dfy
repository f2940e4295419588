/** Copying the common part of two boxes between their row-major buffers. */
module SubArrayCopy {
  import opened Arithmetic
  import opened HilbertIndex
  import opened Boxes
  import opened Intervals
  import opened LinkedQueue

  // ----- row-major offsets

  function Product(dist: seq<nat>): nat {
    if dist == [] then 1 else Times(dist[0], Product(dist[1..]))
  }

  ghost predicate InRange(dist: seq<nat>, x: seq<nat>) {
    |x| == |dist| && forall d :: 0 <= d < |x| ==> x[d] < dist[d]
  }

  /** The position of local coordinates x in a buffer; dimension 0 varies fastest. */
  function Offset(dist: seq<nat>, x: seq<nat>): nat
    requires |dist| == |x|
  {
    if x == [] then 0 else x[0] + Times(dist[0], Offset(dist[1..], x[1..]))
  }

  lemma {:induction false} OffsetBound(dist: seq<nat>, x: seq<nat>)
    requires InRange(dist, x)
    ensures Offset(dist, x) < Product(dist)
  {
    if x != [] {
      OffsetBound(dist[1..], x[1..]);
      TimesCommutes(dist[0], Offset(dist[1..], x[1..]));
      TimesCommutes(dist[0], Product(dist[1..]));
      HighLowOrder(Offset(dist[1..], x[1..]), x[0], Product(dist[1..]), dist[0]);
    }
  }

  /** One step in dimension d passes the cells of all lower dimensions: dimension 0 varies fastest. */
  lemma {:induction false} OffsetStride(dist: seq<nat>, x: seq<nat>, d: nat)
    requires d < |dist| == |x|
    ensures Offset(dist, x[d := x[d] + 1]) == Offset(dist, x) + Product(dist[..d])
  {
    var y := x[d := x[d] + 1];
    if d > 0 {
      assert y[1..] == x[1..][d - 1 := x[1..][d - 1] + 1];
      OffsetStride(dist[1..], x[1..], d - 1);
      assert dist[..d][1..] == dist[1..][..d - 1];
      TimesAddRight(dist[0], Offset(dist[1..], x[1..]), Product(dist[1..][..d - 1]));
    } else {
      assert y[1..] == x[1..] && dist[..0] == [];
    }
  }

  lemma {:induction false} OffsetOrigin(dist: seq<nat>)
    ensures Offset(dist, seq(|dist|, _ => 0)) == 0
  {
    if dist != [] {
      var zeros := seq(|dist|, _ => 0);
      assert zeros[1..] == seq(|dist[1..]|, _ => 0);
      OffsetOrigin(dist[1..]);
      TimesZeroOne(dist[0]);
    }
  }

  /** Different coordinates have different offsets. */
  lemma {:induction false} OffsetInjective(dist: seq<nat>, x: seq<nat>, y: seq<nat>)
    requires InRange(dist, x) && InRange(dist, y) && Offset(dist, x) == Offset(dist, y)
    ensures x == y
  {
    if x != [] {
      TimesCommutes(dist[0], Offset(dist[1..], x[1..]));
      TimesCommutes(dist[0], Offset(dist[1..], y[1..]));
      HighLowUnique(Offset(dist[1..], x[1..]), x[0], Offset(dist[1..], y[1..]), y[0], dist[0]);
      OffsetInjective(dist[1..], x[1..], y[1..]);
      assert x == [x[0]] + x[1..] && y == [y[0]] + y[1..];
    }
  }

  /** Every position of the buffer belongs to some coordinates. */
  lemma {:induction false} OffsetOnto(dist: seq<nat>, i: nat) returns (x: seq<nat>)
    requires i < Product(dist)
    ensures InRange(dist, x) && Offset(dist, x) == i
  {
    if dist == [] {
      x := [];
    } else {
      var b, rest := dist[0], Product(dist[1..]);
      TimesCommutes(b, rest);
      var q, r := DivMod(i, b);
      HighLowOrder(q, r, rest, b);
      var high := OffsetOnto(dist[1..], q);
      x := [r] + high;
      assert x[1..] == high;
      TimesCommutes(b, q);
    }
  }

  // ----- which cells a call copies

  /** The two views of matrix_copy: extents of both buffers and the corners of the common box in local coordinates. */
  datatype Views = Views(adist: seq<nat>, alb: seq<nat>, aub: seq<nat>, bdist: seq<nat>, blb: seq<nat>)

  /** The coordinates read for target coordinates x: shifted like the corners, but in the tenth dimension not shifted. */
  ghost function Source(v: Views, x: seq<nat>): (y: seq<nat>)
    requires |x| == |v.alb| == |v.blb|
    ensures |y| == |x|
  {
    seq(|x|, d requires 0 <= d < |x| => if d == 9 || x[d] < v.alb[d] then x[d] else x[d] - v.alb[d] + v.blb[d])
  }

  ghost predicate Fits(v: Views, n: nat) {
    && |v.adist| == |v.alb| == |v.aub| == |v.bdist| == |v.blb| == n
    && (forall d :: 0 <= d < n ==> v.alb[d] <= v.aub[d] < v.adist[d])
    && (forall d :: 0 <= d < n && d != 9 ==> v.blb[d] + (v.aub[d] - v.alb[d]) < v.bdist[d])
    && (n > 9 ==> v.aub[9] < v.bdist[9])
  }

  /** x lies in the common box in the first k dimensions and equals hi in the others. */
  ghost predicate InView(v: Views, n: nat, k: nat, hi: seq<nat>, x: seq<nat>)
    requires Fits(v, n) && k <= n
  {
    |x| == n && x[k..] == hi && forall d :: 0 <= d < k ==> v.alb[d] <= x[d] <= v.aub[d]
  }

  function Cell<T>(buffer: seq<T>, dist: seq<nat>, x: seq<nat>): Option<T> {
    if |x| == |dist| && Offset(dist, x) < |buffer| then Some(buffer[Offset(dist, x)]) else None
  }

  /** The cells in view hold the source's cells and all others what they held. */
  ghost predicate Copied<T>(v: Views, n: nat, k: nat, hi: seq<nat>, src: seq<T>, was: seq<T>, now: seq<T>)
    requires Fits(v, n) && k <= n
  {
    |now| == |was| && forall x {:trigger Cell(now, v.adist, x)} :: InRange(v.adist, x) ==>
      Cell(now, v.adist, x) == if InView(v, n, k, hi, x) then Cell(src, v.bdist, Source(v, x)) else Cell(was, v.adist, x)
  }

  /** The same for the cells in view whose coordinate in dimension k - 1 is below a. */
  ghost predicate CopiedBelow<T>(v: Views, n: nat, k: nat, hi: seq<nat>, a: nat, src: seq<T>, was: seq<T>, now: seq<T>)
    requires Fits(v, n) && 0 < k <= n
  {
    |now| == |was| && forall x {:trigger Cell(now, v.adist, x)} :: InRange(v.adist, x) ==>
      Cell(now, v.adist, x)
        == if InView(v, n, k, hi, x) && x[k - 1] < a then Cell(src, v.bdist, Source(v, x)) else Cell(was, v.adist, x)
  }

  lemma NoneBelow<T>(v: Views, n: nat, k: nat, hi: seq<nat>, src: seq<T>, was: seq<T>)
    requires Fits(v, n) && 0 < k <= n
    ensures CopiedBelow(v, n, k, hi, v.alb[k - 1], src, was, was)
  {
    hide Cell;
  }

  lemma AllBelow<T>(v: Views, n: nat, k: nat, hi: seq<nat>, src: seq<T>, was: seq<T>, now: seq<T>)
    requires Fits(v, n) && 0 < k <= n && CopiedBelow(v, n, k, hi, v.aub[k - 1] + 1, src, was, now)
    ensures Copied(v, n, k, hi, src, was, now)
  {
    hide Cell;
  }

  lemma OneMore<T>(v: Views, n: nat, k: nat, hi: seq<nat>, a: nat, src: seq<T>, was: seq<T>, mid: seq<T>, now: seq<T>)
    requires Fits(v, n) && 0 < k <= n && |hi| == n - k && v.alb[k - 1] <= a <= v.aub[k - 1]
    requires CopiedBelow(v, n, k, hi, a, src, was, mid) && Copied(v, n, k - 1, [a] + hi, src, mid, now)
    ensures CopiedBelow(v, n, k, hi, a + 1, src, was, now)
  {
    hide Cell, Source;
    forall x | InRange(v.adist, x)
      ensures Cell(now, v.adist, x)
        == if InView(v, n, k, hi, x) && x[k - 1] < a + 1 then Cell(src, v.bdist, Source(v, x)) else Cell(was, v.adist, x)
    {
      assert Cell(mid, v.adist, x) == Cell(mid, v.adist, x);
      ViewStep(v, n, k, hi, a, x);
    }
  }

  lemma ViewStep(v: Views, n: nat, k: nat, hi: seq<nat>, a: nat, x: seq<nat>)
    requires Fits(v, n) && 0 < k <= n && |hi| == n - k && v.alb[k - 1] <= a <= v.aub[k - 1] && |x| == n
    ensures InView(v, n, k - 1, [a] + hi, x) <==> InView(v, n, k, hi, x) && x[k - 1] == a
  {
    assert x[k - 1..] == [x[k - 1]] + x[k..];
    if InView(v, n, k - 1, [a] + hi, x) {
      assert x[k - 1..][0] == ([a] + hi)[0];
      assert x[k..] == x[k - 1..][1..] == ([a] + hi)[1..] == hi;
    }
  }

  // ----- the innermost copy

  /** A run copied over the first dimension is exactly the cells whose other coordinates are hi. */
  lemma RunIsView<T>(v: Views, n: nat, hi: seq<nat>, src: seq<T>, was: seq<T>, now: seq<T>, aloc: nat, bloc: nat, num: nat)
    requires n >= 1 && Fits(v, n) && |hi| == n - 1 && InRange(v.adist[1..], hi)
    requires |src| == Product(v.bdist) && |was| == |now| == Product(v.adist)
    requires num == v.aub[0] - v.alb[0] + 1
    requires aloc == Times(v.adist[0], Offset(v.adist[1..], hi)) + v.alb[0]
    requires bloc == Times(v.bdist[0], Offset(v.bdist[1..], Tail(v, hi))) + v.blb[0]
    requires InRange(v.bdist[1..], Tail(v, hi))
    requires aloc + num <= |now| && bloc + num <= |src|
    requires now == was[..aloc] + src[bloc..bloc + num] + was[aloc + num..]
    ensures Copied(v, n, 1, hi, src, was, now)
  {
    forall x | InRange(v.adist, x)
      ensures Cell(now, v.adist, x) == if InView(v, n, 1, hi, x) then Cell(src, v.bdist, Source(v, x)) else Cell(was, v.adist, x)
    {
      RunCell(v, n, hi, src, was, now, aloc, bloc, num, x);
    }
  }

  /** The source coordinates above the first for target coordinates hi. */
  ghost function Tail(v: Views, hi: seq<nat>): (y: seq<nat>)
    requires |v.alb| == |v.blb| == |hi| + 1
    ensures |y| == |hi|
  {
    Source(v, [0] + hi)[1..]
  }

  lemma SourceTail(v: Views, x: seq<nat>)
    requires |x| == |v.alb| == |v.blb| > 0
    ensures Source(v, x)[1..] == Tail(v, x[1..])
  {
    assert forall d :: 0 < d < |x| ==> ([0] + x[1..])[d] == x[d];
  }

  lemma RunCell<T>(v: Views, n: nat, hi: seq<nat>, src: seq<T>, was: seq<T>, now: seq<T>, aloc: nat, bloc: nat, num: nat, x: seq<nat>)
    requires n >= 1 && Fits(v, n) && |hi| == n - 1 && InRange(v.adist[1..], hi)
    requires |src| == Product(v.bdist) && |was| == |now| == Product(v.adist)
    requires num == v.aub[0] - v.alb[0] + 1
    requires aloc == Times(v.adist[0], Offset(v.adist[1..], hi)) + v.alb[0]
    requires bloc == Times(v.bdist[0], Offset(v.bdist[1..], Tail(v, hi))) + v.blb[0]
    requires InRange(v.bdist[1..], Tail(v, hi))
    requires aloc + num <= |now| && bloc + num <= |src|
    requires now == was[..aloc] + src[bloc..bloc + num] + was[aloc + num..]
    requires InRange(v.adist, x)
    ensures Cell(now, v.adist, x) == if InView(v, n, 1, hi, x) then Cell(src, v.bdist, Source(v, x)) else Cell(was, v.adist, x)
  {
    hide Offset, Product, Source, Tail, InView, Times;
    var i := Offset(v.adist, x);
    OffsetBound(v.adist, x);
    RunMember(v, n, hi, aloc, num, x);
    assert now[i] == if aloc <= i < aloc + num then src[bloc + (i - aloc)] else was[i];
    if InView(v, n, 1, hi, x) {
      RunSource(v, n, hi, aloc, bloc, x);
    }
  }

  /** A cell of the run is read as far into the source run as it is written into the target run. */
  lemma RunSource(v: Views, n: nat, hi: seq<nat>, aloc: nat, bloc: nat, x: seq<nat>)
    requires n >= 1 && Fits(v, n) && |hi| == n - 1
    requires aloc == Times(v.adist[0], Offset(v.adist[1..], hi)) + v.alb[0]
    requires bloc == Times(v.bdist[0], Offset(v.bdist[1..], Tail(v, hi))) + v.blb[0]
    requires |x| == n && InView(v, n, 1, hi, x)
    ensures |Source(v, x)| == n && Offset(v.bdist, Source(v, x)) == bloc + (Offset(v.adist, x) - aloc)
  {
    hide Times;
    SourceTail(v, x);
    var y := Source(v, x);
    assert y[0] == x[0] - v.alb[0] + v.blb[0];
  }

  /** Which coordinates have their offset in the run. */
  lemma RunMember(v: Views, n: nat, hi: seq<nat>, aloc: nat, num: nat, x: seq<nat>)
    requires n >= 1 && Fits(v, n) && |hi| == n - 1 && InRange(v.adist[1..], hi)
    requires num == v.aub[0] - v.alb[0] + 1
    requires aloc == Times(v.adist[0], Offset(v.adist[1..], hi)) + v.alb[0]
    requires InRange(v.adist, x)
    ensures aloc <= Offset(v.adist, x) < aloc + num <==> InView(v, n, 1, hi, x)
  {
    var i, b, t := Offset(v.adist, x), v.adist[0], x[1..];
    var high := Offset(v.adist[1..], hi);
    assert i == x[0] + Times(b, Offset(v.adist[1..], t));
    TimesCommutes(b, high);
    TimesCommutes(b, Offset(v.adist[1..], t));
    if aloc <= i < aloc + num {
      HighLowUnique(Offset(v.adist[1..], t), x[0], high, i - Times(b, high), b);
      OffsetInjective(v.adist[1..], t, hi);
    }
  }

  // ----- matrix_copy

  /** The offset of the cells with coordinates hi above dimension k - 1 and zeros below, as the loops carry it along. */
  ghost predicate Located(dist: seq<nat>, n: nat, k: nat, hi: seq<nat>, loc: nat) {
    0 < k <= n == |dist| && InRange(dist[k..], hi) && loc == Times(dist[k - 1], Offset(dist[k..], hi))
  }

  lemma LocatedStep(dist: seq<nat>, n: nat, k: nat, hi: seq<nat>, loc: nat, a: nat)
    requires 1 < k && Located(dist, n, k, hi, loc) && a < dist[k - 1]
    ensures Located(dist, n, k - 1, [a] + hi, Times(loc + a, dist[k - 2]))
  {
    assert dist[k - 1..][1..] == dist[k..] && ([a] + hi)[1..] == hi;
    TimesCommutes(loc + a, dist[k - 2]);
  }

  /** The source coordinates above dimension k - 1 for target coordinates hi. */
  ghost predicate Follows(v: Views, n: nat, k: nat, hi: seq<nat>, hib: seq<nat>)
    requires Fits(v, n)
  {
    |hi| == |hib| == n - k && forall d :: 0 <= d < n - k ==>
      v.alb[k + d] <= hi[d] <= v.aub[k + d] && hib[d] == if k + d == 9 then hi[d] else hi[d] - v.alb[k + d] + v.blb[k + d]
  }

  lemma FollowsTail(v: Views, n: nat, hi: seq<nat>, hib: seq<nat>)
    requires n >= 1 && Fits(v, n) && Follows(v, n, 1, hi, hib)
    ensures Tail(v, hi) == hib
  {
    forall d | 0 <= d < n - 1
      ensures Tail(v, hi)[d] == hib[d]
    {
      assert ([0] + hi)[d + 1] == hi[d];
    }
  }

  /** The first position of a run and all that follow lie inside the buffer. */
  lemma RunFits(dist: seq<nat>, n: nat, hi: seq<nat>, loc: nat, top: nat)
    requires Located(dist, n, 1, hi, loc) && top < dist[0]
    ensures loc + top < Product(dist)
  {
    var x := [top] + hi;
    assert x[1..] == hi && dist[0..] == dist;
    assert InRange(dist, x) by {
      forall d | 0 <= d < n
        ensures x[d] < dist[d]
      {
        if d > 0 {
          assert x[d] == hi[d - 1] && dist[d] == dist[1..][d - 1];
        }
      }
    }
    OffsetBound(dist, x);
  }

  /** The memcpy of matrix_copy. */
  method CopyRun<T>(v: Views, A: array<T>, B: array<T>, aloc1: nat, bloc1: nat, ghost n: nat, ghost hi: seq<nat>, ghost hib: seq<nat>)
    returns (numelem: nat)
    requires n >= 1 && Fits(v, n) && A != B && A.Length == Product(v.adist) && B.Length == Product(v.bdist)
    requires Located(v.adist, n, 1, hi, aloc1) && Located(v.bdist, n, 1, hib, bloc1) && Follows(v, n, 1, hi, hib)
    modifies A
    ensures Copied(v, n, 1, hi, B[..], old(A[..]), A[..])
    ensures numelem == v.aub[0] - v.alb[0] + 1
  {
    hide Copied, Offset, Product;
    ghost var was := A[..];
    numelem := v.aub[0] - v.alb[0] + 1;
    var aloc := aloc1 + v.alb[0];
    var bloc := bloc1 + v.blb[0];
    RunFits(v.adist, n, hi, aloc1, v.aub[0]);
    RunFits(v.bdist, n, hib, bloc1, v.blb[0] + (v.aub[0] - v.alb[0]));
    forall i | 0 <= i < numelem {
      A[aloc + i] := B[bloc + i];
    }
    FollowsTail(v, n, hi, hib);
    assert A[..] == was[..aloc] + B[..][bloc..bloc + numelem] + was[aloc + numelem..];
    RunIsView(v, n, hi, B[..], was, A[..], aloc, bloc, numelem);
  }

  lemma FollowsStep(v: Views, n: nat, k: nat, hi: seq<nat>, hib: seq<nat>, a: nat, y: nat)
    requires Fits(v, n) && 1 < k <= n && Follows(v, n, k, hi, hib) && v.alb[k - 1] <= a <= v.aub[k - 1]
    requires y == if k - 1 == 9 then a else a - v.alb[k - 1] + v.blb[k - 1]
    ensures Follows(v, n, k - 1, [a] + hi, [y] + hib) && y < v.bdist[k - 1] && a < v.adist[k - 1]
  {
  }

  lemma VolumeStep(lb: seq<nat>, ub: seq<nat>, k: nat)
    requires |lb| == |ub| && 0 < k <= |lb| && lb[k - 1] <= ub[k - 1]
    ensures VolumeOf(lb[..k], ub[..k]) == Times(ub[k - 1] + 1 - lb[k - 1], VolumeOf(lb[..k - 1], ub[..k - 1]))
  {
    VolumeSnoc(lb[..k - 1], ub[..k - 1], lb[k - 1], ub[k - 1]);
    assert lb[..k] == lb[..k - 1] + [lb[k - 1]] && ub[..k] == ub[..k - 1] + [ub[k - 1]];
    TimesCommutes(VolumeOf(lb[..k - 1], ub[..k - 1]), ub[k - 1] + 1 - lb[k - 1]);
  }

  lemma OneRunVolume(lb: seq<nat>, ub: seq<nat>)
    requires |lb| == |ub| && 0 < |lb| && lb[0] <= ub[0]
    ensures VolumeOf(lb[..1], ub[..1]) == ub[0] - lb[0] + 1
  {
    VolumeStep(lb, ub, 1);
    TimesZeroOne(ub[0] + 1 - lb[0]);
  }

  /**
   * The loops of matrix_copy over the first k dimensions. In the tenth dimension the target's loop variable
   * enters the source offset as well.
   */
  method CopyDims<T>(v: Views, A: array<T>, B: array<T>, k: nat, aloc: nat, bloc: nat,
                     ghost n: nat, ghost hi: seq<nat>, ghost hib: seq<nat>)
    returns (num_copied_elem: nat)
    requires Fits(v, n) && 0 < k <= n && A != B && A.Length == Product(v.adist) && B.Length == Product(v.bdist)
    requires Located(v.adist, n, k, hi, aloc) && Located(v.bdist, n, k, hib, bloc) && Follows(v, n, k, hi, hib)
    modifies A
    ensures Copied(v, n, k, hi, B[..], old(A[..]), A[..])
    ensures num_copied_elem == VolumeOf(v.alb[..k], v.aub[..k])
    decreases k
  {
    hide Copied, CopiedBelow, Located, Follows, Product, VolumeOf, Times;
    if k == 1 {
      num_copied_elem := CopyRun(v, A, B, aloc, bloc, n, hi, hib);
      OneRunVolume(v.alb, v.aub);
    } else {
      num_copied_elem := 0;
      ghost var was, inner := A[..], VolumeOf(v.alb[..k - 1], v.aub[..k - 1]);
      var a, b := v.alb[k - 1], v.blb[k - 1];
      NoneBelow(v, n, k, hi, B[..], was);
      NoTimes(inner);
      while a <= v.aub[k - 1]
        invariant v.alb[k - 1] <= a <= v.aub[k - 1] + 1 && b == a - v.alb[k - 1] + v.blb[k - 1]
        invariant CopiedBelow(v, n, k, hi, a, B[..], was, A[..])
        invariant num_copied_elem == Times(a - v.alb[k - 1], inner)
      {
        ghost var mid := A[..];
        var y := if k - 1 == 9 then a else b;
        var aloc' := Times(aloc + a, v.adist[k - 2]);
        var bloc' := Times(bloc + y, v.bdist[k - 2]);
        FollowsStep(v, n, k, hi, hib, a, y);
        LocatedStep(v.adist, n, k, hi, aloc, a);
        LocatedStep(v.bdist, n, k, hib, bloc, y);
        var num := CopyDims(v, A, B, k - 1, aloc', bloc', n, [a] + hi, [y] + hib);
        LocatedLength(v.adist, n, k, hi, aloc);
        OneMore(v, n, k, hi, a, B[..], was, mid, A[..]);
        TimesAdd(a - v.alb[k - 1], 1, inner);
        OneTimes(inner);
        num_copied_elem := num_copied_elem + num;
        a, b := a + 1, b + 1;
      }
      AllBelow(v, n, k, hi, B[..], was, A[..]);
      VolumeStep(v.alb, v.aub, k);
    }
  }

  lemma NoTimes(b: nat)
    ensures Times(0, b) == 0
  {
  }

  lemma OneTimes(b: nat)
    ensures Times(1, b) == b
  {
  }

  lemma LocatedLength(dist: seq<nat>, n: nat, k: nat, hi: seq<nat>, loc: nat)
    requires Located(dist, n, k, hi, loc)
    ensures |hi| == n - k
  {
  }

  // ----- ssd_copy

  class ObjData<T> {
    var bb: Box
    var tag: int
    var typ: int
    var data: array<T>

    constructor (bb: Box, tag: int, typ: int, data: array<T>)
      ensures this.bb == bb && this.tag == tag && this.typ == typ && this.data == data
    {
      this.bb, this.tag, this.typ, this.data := bb, tag, typ, data;
    }
  }

  function Dists(bb: Box): (r: seq<nat>)
    requires |bb.lb| == |bb.ub|
    ensures |r| == |bb.lb|
  {
    seq(|bb.lb|, d requires 0 <= d < |bb.lb| => SpanSize(bb.lb[d], bb.ub[d]))
  }

  function Local(bb: Box, p: Point): (x: seq<nat>)
    ensures |x| == |p|
  {
    seq(|p|, d requires 0 <= d < |p| => if d < |bb.lb| && bb.lb[d] <= p[d] then p[d] - bb.lb[d] else 0)
  }

  /** The element a buffer over box bb holds for point p. */
  function CellAt<T>(buffer: seq<T>, bb: Box, p: Point): Option<T>
    requires |bb.lb| == |bb.ub|
  {
    Cell(buffer, Dists(bb), Local(bb, p))
  }

  lemma {:induction false} ProductIsVolume(lb: seq<nat>, ub: seq<nat>)
    requires |lb| == |ub|
    ensures Product(Dists(Box(lb, ub))) == VolumeOf(lb, ub)
  {
    if lb != [] {
      ProductIsVolume(lb[1..], ub[1..]);
      assert Dists(Box(lb, ub))[1..] == Dists(Box(lb[1..], ub[1..]));
    }
  }

  lemma LocalInRange(bb: Box, n: nat, p: Point)
    requires IsBox(bb, n) && In(bb, p)
    ensures InRange(Dists(bb), Local(bb, p))
  {
  }

  /** A buffer over a box is determined by its elements for the points of the box. */
  lemma SameBuffers<T>(bb: Box, n: nat, s: seq<T>, t: seq<T>)
    requires IsBox(bb, n) && |s| == |t| == Volume(bb)
    requires forall p :: In(bb, p) ==> CellAt(s, bb, p) == CellAt(t, bb, p)
    ensures s == t
  {
    hide Volume;
    ProductOfBox(bb);
    forall i | 0 <= i < |s|
      ensures s[i] == t[i]
    {
      var x := OffsetOnto(Dists(bb), i);
      var p := seq(n, d requires 0 <= d < n => bb.lb[d] + x[d]);
      assert Local(bb, p) == x;
      assert In(bb, p) by {
        forall d | 0 <= d < n
          ensures bb.lb[d] <= p[d] <= bb.ub[d]
        {
          assert x[d] < Dists(bb)[d];
        }
      }
      assert CellAt(s, bb, p) == Some(s[i]) && CellAt(t, bb, p) == Some(t[i]);
    }
  }

  lemma ProductOfBox(bb: Box)
    requires |bb.lb| == |bb.ub|
    ensures Product(Dists(bb)) == Volume(bb)
  {
    ProductIsVolume(bb.lb, bb.ub);
    assert Box(bb.lb, bb.ub) == bb;
  }

  /** The point whose source cell reaches target point p. */
  function SourcePoint(to: Box, from: Box, p: Point): Point {
    if |p| == |to.lb| == |from.lb| == 10 && to.lb[9] <= p[9] then p[9 := p[9] - to.lb[9] + from.lb[9]] else p
  }

  /** Below ten dimensions every cell comes from the same global coordinates. */
  lemma SourceIsSame(to: Box, from: Box, p: Point)
    requires |p| < 10
    ensures SourcePoint(to, from, p) == p
  {
  }

  /** In ten dimensions that is so exactly when the boxes begin at the same tenth coordinate. */
  lemma TenthDimension(to: Box, from: Box)
    requires NonEmpty(to, 10) && NonEmpty(from, 10) && Meets(to, from, 10)
    ensures (forall p :: In(to, p) && In(from, p) ==> SourcePoint(to, from, p) == p) <==> to.lb[9] == from.lb[9]
  {
    MeetsMeansPoint(to, from, 10);
    var p :| In(to, p) && In(from, p);
    assert to.lb[9] <= p[9];
    if SourcePoint(to, from, p) == p {
      assert p[9 := p[9] - to.lb[9] + from.lb[9]][9] == p[9];
    }
    forall q | In(to, q)
      ensures to.lb[9] == from.lb[9] ==> SourcePoint(to, from, q) == q
    {
      assert to.lb[9] <= q[9];
    }
  }

  /** Two ten-dimensional boxes with one common point, for which the copy reads another element of the source. */
  lemma TenthDimensionOff()
    ensures var zeros: Point := seq(10, _ => 0);
      var to, from, p := Box(zeros, zeros[9 := 1]), Box(zeros[9 := 1], zeros[9 := 3]), zeros[9 := 1];
      Copyable(to, from, 10) && In(to, p) && In(from, p) && SourcePoint(to, from, p) == zeros[9 := 2]
  {
    var zeros: Point := seq(10, _ => 0);
    var to, from, p := Box(zeros, zeros[9 := 1]), Box(zeros[9 := 1], zeros[9 := 3]), zeros[9 := 1];
    PointMeansMeets(to, from, 10, p);
    assert SourcePoint(to, from, p) == zeros[9 := 2];
  }

  ghost function CommonViews(to: Box, from: Box, n: nat): Views
    requires IsBox(to, n) && IsBox(from, n)
  {
    var com := Intersection(to, from);
    Views(Dists(to), Local(to, com.lb), Local(to, com.ub), Dists(from), Local(from, com.lb))
  }

  /** What ssd_copy asks of its boxes: common points, and room in the source for the tenth coordinates it reads. */
  ghost predicate Copyable(to: Box, from: Box, n: nat) {
    && 1 <= n <= 10 && NonEmpty(to, n) && NonEmpty(from, n) && Meets(to, from, n)
    && (n == 10 ==> Intersection(to, from).ub[9] + from.lb[9] <= from.ub[9] + to.lb[9])
  }

  lemma CommonFits(to: Box, from: Box, n: nat)
    requires Copyable(to, from, n)
    ensures Fits(CommonViews(to, from, n), n)
  {
    var v, com := CommonViews(to, from, n), Intersection(to, from);
    forall d | 0 <= d < n
      ensures com.lb[d] == Max(to.lb[d], from.lb[d]) <= com.ub[d] == Min(to.ub[d], from.ub[d])
      ensures v.alb[d] <= v.aub[d] < v.adist[d] && v.blb[d] + (v.aub[d] - v.alb[d]) < v.bdist[d]
    {
      assert MeetsOnDim(to, from, d);
    }
  }

  lemma ViewIsCommon(to: Box, from: Box, n: nat, p: Point)
    requires Copyable(to, from, n) && In(to, p) && Fits(CommonViews(to, from, n), n)
    ensures InView(CommonViews(to, from, n), n, n, [], Local(to, p)) <==> In(from, p)
  {
    var v, com, x := CommonViews(to, from, n), Intersection(to, from), Local(to, p);
    InIntersection(to, from, n, p);
    assert x[n..] == [];
    forall d | 0 <= d < n
      ensures v.alb[d] <= x[d] <= v.aub[d] <==> com.lb[d] <= p[d] <= com.ub[d]
    {
      assert MeetsOnDim(to, from, d);
      assert com.lb[d] == Max(to.lb[d], from.lb[d]) && com.ub[d] == Min(to.ub[d], from.ub[d]);
    }
    if InView(v, n, n, [], x) {
      assert In(com, p);
    }
  }

  lemma SourceIsPoint(to: Box, from: Box, n: nat, p: Point)
    requires Copyable(to, from, n) && In(to, p) && In(from, p)
    ensures Source(CommonViews(to, from, n), Local(to, p)) == Local(from, SourcePoint(to, from, p))
  {
    var v, com, x := CommonViews(to, from, n), Intersection(to, from), Local(to, p);
    forall d | 0 <= d < n
      ensures Source(v, x)[d] == Local(from, SourcePoint(to, from, p))[d]
    {
      assert com.lb[d] == Max(to.lb[d], from.lb[d]);
    }
  }

  /** What a copy leaves in the target buffer: the source's elements in the common box, its own elsewhere. */
  ghost predicate Merged<T>(to: Box, from: Box, src: seq<T>, was: seq<T>, now: seq<T>)
    requires |to.lb| == |to.ub| && |from.lb| == |from.ub|
  {
    |now| == |was| && forall p {:trigger CellAt(now, to, p)} :: In(to, p) ==>
      CellAt(now, to, p) == if In(from, p) then CellAt(src, from, SourcePoint(to, from, p)) else CellAt(was, to, p)
  }

  lemma CopiedIsMerged<T>(to: Box, from: Box, n: nat, src: seq<T>, was: seq<T>, now: seq<T>)
    requires Copyable(to, from, n) && Fits(CommonViews(to, from, n), n)
    requires Copied(CommonViews(to, from, n), n, n, [], src, was, now)
    ensures Merged(to, from, src, was, now)
  {
    hide Cell, Source, SourcePoint, Copyable, CommonViews, Fits;
    ViewsShape(to, from, n);
    var v := CommonViews(to, from, n);
    forall p | In(to, p)
      ensures CellAt(now, to, p) == if In(from, p) then CellAt(src, from, SourcePoint(to, from, p)) else CellAt(was, to, p)
    {
      LocalInRange(to, n, p);
      ViewIsCommon(to, from, n, p);
      if In(from, p) {
        SourceIsPoint(to, from, n, p);
      }
      assert Cell(now, v.adist, Local(to, p)) == Cell(now, v.adist, Local(to, p));
    }
  }

  lemma ViewsShape(to: Box, from: Box, n: nat)
    requires Copyable(to, from, n)
    ensures IsBox(to, n) && IsBox(from, n)
    ensures var v := CommonViews(to, from, n); v.adist == Dists(to) && v.bdist == Dists(from) && |v.alb| == |v.blb| == n
  {
  }

  /** matrix_init: the extents of a buffer and the common box in its local coordinates. */
  method MatrixInit(bb_glb: Box, bb_loc: Box, ghost n: nat) returns (dist: seq<nat>, lb: seq<nat>, ub: seq<nat>)
    requires NonEmpty(bb_glb, n) && IsBox(bb_loc, n)
    requires forall d :: 0 <= d < n ==> bb_glb.lb[d] <= bb_loc.lb[d] && bb_glb.lb[d] <= bb_loc.ub[d]
    ensures dist == Dists(bb_glb) && lb == Local(bb_glb, bb_loc.lb) && ub == Local(bb_glb, bb_loc.ub)
  {
    dist, lb, ub := [], [], [];
    for i := 0 to |bb_glb.lb|
      invariant dist == Dists(bb_glb)[..i] && lb == Local(bb_glb, bb_loc.lb)[..i] && ub == Local(bb_glb, bb_loc.ub)[..i]
    {
      dist := dist + [bb_glb.ub[i] - bb_glb.lb[i] + 1];
      lb := lb + [bb_loc.lb[i] - bb_glb.lb[i]];
      ub := ub + [bb_loc.ub[i] - bb_glb.lb[i]];
    }
  }

  lemma CommonBounds(to: Box, from: Box, n: nat)
    requires Copyable(to, from, n)
    ensures var com := Intersection(to, from); forall d :: 0 <= d < n ==>
      to.lb[d] <= com.lb[d] <= com.ub[d] && from.lb[d] <= com.lb[d]
  {
    var com := Intersection(to, from);
    forall d | 0 <= d < n
      ensures to.lb[d] <= com.lb[d] <= com.ub[d] && from.lb[d] <= com.lb[d]
    {
      assert MeetsOnDim(to, from, d);
    }
  }

  lemma {:induction false} ShiftedVolume(lb: seq<nat>, ub: seq<nat>, lb': seq<nat>, ub': seq<nat>)
    requires |lb| == |ub| == |lb'| == |ub'|
    requires forall d :: 0 <= d < |lb| ==> SpanSize(lb[d], ub[d]) == SpanSize(lb'[d], ub'[d])
    ensures VolumeOf(lb, ub) == VolumeOf(lb', ub')
  {
    if lb != [] {
      ShiftedVolume(lb[1..], ub[1..], lb'[1..], ub'[1..]);
    }
  }

  /** The copy's count is the volume of the common box. */
  lemma CommonVolume(to: Box, from: Box, n: nat)
    requires Copyable(to, from, n)
    ensures var v := CommonViews(to, from, n); VolumeOf(v.alb[..n], v.aub[..n]) == Volume(Intersection(to, from))
  {
    var v, com := CommonViews(to, from, n), Intersection(to, from);
    CommonBounds(to, from, n);
    assert v.alb[..n] == v.alb && v.aub[..n] == v.aub;
    ShiftedVolume(v.alb, v.aub, com.lb, com.ub);
  }

  /** ssd_copy. */
  method SsdCopy<T>(to_obj: ObjData<T>, from_obj: ObjData<T>, ghost n: nat) returns (copied_elems: nat)
    requires to_obj != from_obj && to_obj.data != from_obj.data && Copyable(to_obj.bb, from_obj.bb, n)
    requires to_obj.data.Length == Volume(to_obj.bb) && from_obj.data.Length == Volume(from_obj.bb)
    modifies to_obj`tag, to_obj`typ, to_obj.data
    ensures to_obj.tag == from_obj.tag && to_obj.typ == from_obj.typ
    ensures Merged(to_obj.bb, from_obj.bb, from_obj.data[..], old(to_obj.data[..]), to_obj.data[..])
    ensures copied_elems == Volume(Intersection(to_obj.bb, from_obj.bb))
  {
    hide Copied, Merged, Volume, Product, Copyable, Fits, Located, Follows;
    to_obj.tag := from_obj.tag;
    to_obj.typ := from_obj.typ;
    ViewsShape(to_obj.bb, from_obj.bb, n);
    CommonBounds(to_obj.bb, from_obj.bb, n);
    var bbcom := BBoxIntersect(to_obj.bb, from_obj.bb, n);
    BothNonEmpty(to_obj.bb, from_obj.bb, n);
    var bdist, blb, bub := MatrixInit(from_obj.bb, bbcom, n);
    var adist, alb, aub := MatrixInit(to_obj.bb, bbcom, n);
    var v := Views(adist, alb, aub, bdist, blb);
    CommonFits(to_obj.bb, from_obj.bb, n);
    ProductOfBox(to_obj.bb);
    ProductOfBox(from_obj.bb);
    StartLocated(v, n);
    copied_elems := CopyDims(v, to_obj.data, from_obj.data, |adist|, 0, 0, n, [], []);
    CopiedIsMerged(to_obj.bb, from_obj.bb, n, from_obj.data[..], old(to_obj.data[..]), to_obj.data[..]);
    CommonVolume(to_obj.bb, from_obj.bb, n);
  }

  lemma BothNonEmpty(to: Box, from: Box, n: nat)
    requires Copyable(to, from, n)
    ensures NonEmpty(to, n) && NonEmpty(from, n) && n >= 1
  {
  }

  lemma StartLocated(v: Views, n: nat)
    requires Fits(v, n) && n >= 1
    ensures Located(v.adist, n, n, [], 0) && Located(v.bdist, n, n, [], 0) && Follows(v, n, n, [], [])
    ensures |v.adist| == n
  {
    TimesZeroOne(v.adist[n - 1]);
    TimesZeroOne(v.bdist[n - 1]);
    assert v.adist[n..] == [] && v.bdist[n..] == [];
  }
}
