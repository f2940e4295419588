/** bbox_to_intv: splitting the virtual cube until every piece lies inside or outside the box. */
module Decomposition {
  import opened Arithmetic
  import opened BitStrings
  import opened HilbertIndex
  import opened HilbertCode
  import opened AlignedCubes
  import opened Boxes
  import opened Intervals

  // ----- cubes as boxes

  function CubeBox(c: Cube): (b: Box)
    ensures IsBox(b, |c.base|)
  {
    Box(seq(|c.base|, d requires 0 <= d < |c.base| => Times(c.base[d], Pow2(c.k))),
        seq(|c.base|, d requires 0 <= d < |c.base| => Times(c.base[d], Pow2(c.k)) + Pow2(c.k) - 1))
  }

  lemma {:induction false} HalvesIsShift(p: Point, k: nat, d: nat)
    requires d < |p|
    ensures Halves(p, k)[d] == Shift(p[d], k)
    decreases k
  {
    if k > 0 {
      HalvesIsShift(Half(p), k - 1, d);
    }
  }

  /** A point lies in an aligned cube exactly when it lies between the cube's corners. */
  lemma InCubeBox(c: Cube, p: Point)
    ensures InCube(c, p) <==> In(CubeBox(c), p)
  {
    if |p| == |c.base| {
      forall d | 0 <= d < |p|
        ensures Halves(p, c.k)[d] == c.base[d] <==> CubeBox(c).lb[d] <= p[d] <= CubeBox(c).ub[d]
      {
        HalvesIsShift(p, c.k, d);
        ShiftBetween(p[d], c.k, c.base[d]);
      }
    }
  }

  lemma ShiftBetween(x: nat, k: nat, b: nat)
    ensures Shift(x, k) == b <==> Times(b, Pow2(k)) <= x <= Times(b, Pow2(k)) + Pow2(k) - 1
  {
    ShiftSplit(x, k);
    ValueBound(FromValue(x, k));
    if Times(b, Pow2(k)) <= x <= Times(b, Pow2(k)) + Pow2(k) - 1 {
      HighLowUnique(b, x - Times(b, Pow2(k)), Shift(x, k), Value(FromValue(x, k)), Pow2(k));
    }
  }

  // ----- dividing

  /** Sub-box i of the 2^n halves of a box: bit d of i chooses the upper half in dimension d. */
  function Part(b: Box, n: nat, i: nat): (r: Box)
    requires |b.lb| == |b.ub| == n
    ensures IsBox(r, n)
  {
    var up := FromValue(i, n);
    Box(seq(n, d requires 0 <= d < n => if up[d] then (b.lb[d] + b.ub[d]) / 2 + 1 else b.lb[d]),
        seq(n, d requires 0 <= d < n => if up[d] then b.ub[d] else (b.lb[d] + b.ub[d]) / 2))
  }

  /** The first n parts of a box. */
  ghost function PartsOf(b: Box, n: nat): (r: seq<Box>)
    requires |b.lb| == |b.ub|
    ensures |r| == n && forall i {:trigger r[i]} :: 0 <= i < n ==> r[i] == Part(b, |b.lb|, i)
  {
    seq(n, i requires 0 <= i => Part(b, |b.lb|, i))
  }

  /** Half i of a box takes in every dimension the upper side if that bit of i is set, the lower side up to the middle if not. */
  lemma {:induction false} PartAt(b: Box, n: nat, i: nat, d: nat)
    requires |b.lb| == |b.ub| == n && d < n
    ensures var r, mid := Part(b, n, i), (b.lb[d] + b.ub[d]) / 2;
      (r.lb[d], r.ub[d]) == if i / Pow2(d) % 2 == 1 then (mid + 1, b.ub[d]) else (b.lb[d], mid)
  {
    BitOfValue(i, n, d);
  }

  /** bbox_divide: the halves go to table entries from off on. */
  method BBoxDivide(b0: Box, b_tab: array<Box>, off: nat)
    requires IsBox(b0, |b0.lb|) && off + Pow2(|b0.lb|) <= b_tab.Length
    modifies b_tab
    ensures forall i :: 0 <= i < Pow2(|b0.lb|) ==> b_tab[off + i] == Part(b0, |b0.lb|, i)
    ensures forall i :: 0 <= i < b_tab.Length && !(off <= i < off + Pow2(|b0.lb|)) ==> b_tab[i] == old(b_tab[i])
  {
    var ndims := |b0.lb|;
    var num_subbox := Pow2(ndims);
    for i := 0 to num_subbox
      invariant forall l :: 0 <= l < i ==> b_tab[off + l] == Part(b0, ndims, l)
      invariant forall l :: 0 <= l < b_tab.Length && !(off <= l < off + i) ==> b_tab[l] == old(b_tab[l])
    {
      var up := FromValue(i, ndims);
      var lb, ub := [], [];
      var j := 0;
      while j < ndims
        invariant 0 <= j <= ndims
        invariant lb == Part(b0, ndims, i).lb[..j] && ub == Part(b0, ndims, i).ub[..j]
      {
        var n := (b0.lb[j] + b0.ub[j]) / 2;
        if !up[j] {
          lb, ub := lb + [b0.lb[j]], ub + [n];
        } else {
          lb, ub := lb + [n + 1], ub + [b0.ub[j]];
        }
        j := j + 1;
      }
      b_tab[off + i] := Box(lb, ub);
    }
  }

  function Child(c: Cube, i: nat): (r: Cube)
    requires c.k > 0
    ensures |r.base| == |c.base| && r.k == c.k - 1
  {
    Cube(Double(c.base, FromValue(i, |c.base|)), c.k - 1)
  }

  function Children(c: Cube): (r: seq<Cube>)
    requires c.k > 0
    ensures |r| == Pow2(|c.base|)
    ensures forall i {:trigger r[i]} :: 0 <= i < |r| ==> r[i] == Child(c, i)
  {
    seq(Pow2(|c.base|), i requires 0 <= i => Child(c, i))
  }

  /** The halves of a cube are the cubes with one more bit per coordinate. */
  lemma PartOfCube(c: Cube, i: nat)
    requires c.k > 0
    ensures Part(CubeBox(c), |c.base|, i) == CubeBox(Child(c, i))
  {
    var n, up, s := |c.base|, FromValue(i, |c.base|), Pow2(c.k - 1);
    var a, b := Part(CubeBox(c), n, i), CubeBox(Child(c, i));
    forall d | 0 <= d < n
      ensures a.lb[d] == b.lb[d] && a.ub[d] == b.ub[d]
    {
      TimesDouble(c.base[d], s);
      if up[d] {
        TimesAdd(1, 2 * c.base[d], s);
      }
    }
    assert a.lb == b.lb && a.ub == b.ub;
  }

  lemma {:induction false} HalvesStep(p: Point, k: nat)
    ensures Half(Halves(p, k)) == Halves(p, k + 1)
    decreases k
  {
    if k > 0 {
      HalvesStep(Half(p), k - 1);
    }
  }

  /** A point of a cube lies in the half its next coordinate bits name, and in no other. */
  lemma InChild(c: Cube, i: nat, p: Point)
    requires c.k > 0 && i < Pow2(|c.base|)
    ensures InCube(Child(c, i), p) <==> InCube(c, p) && i == Value(LowBits(Halves(p, c.k - 1)))
  {
    hide Value, FromValue;
    var n, q := |c.base|, Halves(p, c.k - 1);
    HalvesStep(p, c.k - 1);
    if |p| == n {
      FieldValue(i, n);
      ValueField(LowBits(q));
      DoubleHalf(q, c.base, FromValue(i, n));
    }
  }

  lemma DoubleHalf(q: Point, p: Point, c: seq<bool>)
    requires |q| == |p| == |c|
    ensures q == Double(p, c) <==> Half(q) == p && LowBits(q) == c
  {
    if q == Double(p, c) {
      assert Half(q) == p && LowBits(q) == c;
    }
    if Half(q) == p && LowBits(q) == c {
      assert q == Double(p, c);
    }
  }

  // ----- how often a list of cubes holds a point

  function CountIn(cs: seq<Cube>, p: Point): nat {
    if cs == [] then 0 else (if InCube(cs[0], p) then 1 else 0) + CountIn(cs[1..], p)
  }

  lemma {:induction false} CountConcat(a: seq<Cube>, b: seq<Cube>, p: Point)
    ensures CountIn(a + b, p) == CountIn(a, p) + CountIn(b, p)
  {
    if a == [] {
      assert a + b == b;
    } else {
      CountConcat(a[1..], b, p);
      assert (a + b)[1..] == a[1..] + b;
    }
  }

  lemma {:induction false} CountSingle(cs: seq<Cube>, p: Point, i: nat, from: nat)
    requires from <= |cs|
    requires forall j :: from <= j < |cs| && j != i ==> !InCube(cs[j], p)
    ensures CountIn(cs[from..], p) == if from <= i < |cs| && InCube(cs[i], p) then 1 else 0
    decreases |cs| - from
  {
    if from < |cs| {
      CountSingle(cs, p, i, from + 1);
      assert cs[from..][1..] == cs[from + 1..];
    }
  }

  lemma CountChildren(c: Cube, p: Point)
    requires c.k > 0
    ensures CountIn(Children(c), p) == if InCube(c, p) then 1 else 0
  {
    var cs := Children(c);
    var i := Value(LowBits(Halves(p, c.k - 1)));
    forall j | 0 <= j < |cs|
      ensures InCube(cs[j], p) <==> InCube(c, p) && j == i
    {
      InChild(c, j, p);
    }
    CountSingle(cs, p, i, 0);
    assert cs[0..] == cs;
    if |p| == |c.base| {
      ValueBound(LowBits(Halves(p, c.k - 1)));
    }
  }

  // ----- the search

  /** More than all the halves of a cube weigh together. */
  function Weight(n: nat, k: nat): (w: nat)
    ensures w >= 1
  {
    if k == 0 then 1 else
      TimesPositive(Pow2(n) + 1, Weight(n, k - 1));
      Times(Pow2(n) + 1, Weight(n, k - 1))
  }

  function WeightOf(cs: seq<Cube>): nat {
    if cs == [] then 0 else Weight(|cs[0].base|, cs[0].k) + WeightOf(cs[1..])
  }

  lemma {:induction false} WeightConcat(a: seq<Cube>, b: seq<Cube>)
    ensures WeightOf(a + b) == WeightOf(a) + WeightOf(b)
  {
    if a == [] {
      assert a + b == b;
    } else {
      WeightConcat(a[1..], b);
      assert (a + b)[1..] == a[1..] + b;
    }
  }

  lemma {:induction false} WeightSame(cs: seq<Cube>, n: nat, k: nat)
    requires forall i :: 0 <= i < |cs| ==> |cs[i].base| == n && cs[i].k == k
    ensures WeightOf(cs) == Times(|cs|, Weight(n, k))
  {
    if cs != [] {
      WeightSame(cs[1..], n, k);
    }
  }

  /** Dividing a cube lowers the weight. */
  lemma DivideLowersWeight(c: Cube, rest: seq<Cube>)
    requires c.k > 0
    ensures WeightOf(rest + Children(c)) < WeightOf([c] + rest)
  {
    var n := |c.base|;
    WeightConcat(rest, Children(c));
    WeightSame(Children(c), n, c.k - 1);
    TimesAdd(1, Pow2(n), Weight(n, c.k - 1));
    assert ([c] + rest)[1..] == rest;
  }

  ghost predicate Cubes(cs: seq<Cube>, n: nat) {
    forall i :: 0 <= i < |cs| ==> |cs[i].base| == n
  }

  ghost function BoxesOf(cs: seq<Cube>): (bs: seq<Box>)
    ensures |bs| == |cs| && forall i {:trigger bs[i]} :: 0 <= i < |cs| ==> bs[i] == CubeBox(cs[i])
  {
    seq(|cs|, i requires 0 <= i < |cs| => CubeBox(cs[i]))
  }

  lemma PartsAreChildren(c: Cube)
    requires c.k > 0
    ensures BoxesOf(Children(c)) == PartsOf(CubeBox(c), Pow2(|c.base|))
  {
    forall i | 0 <= i < Pow2(|c.base|)
      ensures BoxesOf(Children(c))[i] == PartsOf(CubeBox(c), Pow2(|c.base|))[i]
    {
      PartOfCube(c, i);
    }
  }

  lemma BoxesConcat(a: seq<Cube>, b: seq<Cube>)
    ensures BoxesOf(a + b) == BoxesOf(a) + BoxesOf(b)
  {
  }

  /** A unit cube that the box meets lies inside it. */
  lemma UnitCube(bb: Box, n: nat, c: Cube)
    requires NonEmpty(bb, n) && |c.base| == n && c.k == 0 && Meets(bb, CubeBox(c), n)
    ensures Includes(bb, CubeBox(c), n)
  {
    forall d | 0 <= d < n
      ensures bb.lb[d] <= CubeBox(c).lb[d] && bb.ub[d] >= CubeBox(c).ub[d]
    {
      assert MeetsOnDim(bb, CubeBox(c), d);
      assert Pow2(c.k) == 1;
    }
  }

  /** The cubes found inside bb, in the order a first-in first-out search over pending finds them. */
  ghost function Search(bb: Box, n: nat, pending: seq<Cube>): (found: seq<Cube>)
    requires NonEmpty(bb, n) && Cubes(pending, n)
    ensures Cubes(found, n)
    decreases WeightOf(pending)
  {
    if pending == [] then []
    else
      var c, rest := pending[0], pending[1..];
      if Includes(bb, CubeBox(c), n) then [c] + Search(bb, n, rest)
      else if Meets(bb, CubeBox(c), n) then
        assert c.k > 0 by { if c.k == 0 { UnitCube(bb, n, c); } }
        assert pending == [c] + rest;
        DivideLowersWeight(c, rest);
        Search(bb, n, rest + Children(c))
      else Search(bb, n, rest)
  }

  /** Every point of the box that is pending once ends up in exactly one cube found, and no other point does. */
  lemma {:induction false} SearchCounts(bb: Box, n: nat, pending: seq<Cube>, p: Point)
    requires NonEmpty(bb, n) && Cubes(pending, n)
    ensures CountIn(Search(bb, n, pending), p) == if In(bb, p) then CountIn(pending, p) else 0
    decreases WeightOf(pending)
  {
    if pending != [] {
      var c, rest := pending[0], pending[1..];
      assert pending == [c] + rest;
      InCubeBox(c, p);
      if Includes(bb, CubeBox(c), n) {
        SearchCounts(bb, n, rest, p);
        assert ([c] + Search(bb, n, rest))[1..] == Search(bb, n, rest);
      } else if Meets(bb, CubeBox(c), n) {
        assert c.k > 0 by { if c.k == 0 { UnitCube(bb, n, c); } }
        DivideLowersWeight(c, rest);
        SearchCounts(bb, n, rest + Children(c), p);
        CountConcat(rest, Children(c), p);
        CountChildren(c, p);
      } else {
        SearchCounts(bb, n, rest, p);
        if In(bb, p) && In(CubeBox(c), p) {
          PointMeansMeets(bb, CubeBox(c), n, p);
        }
      }
    }
  }

  // ----- intervals of the cubes found

  /** Cubes of side 2^k inside the virtual cube of side 2^q. */
  ghost predicate InVirtual(cs: seq<Cube>, n: nat, q: nat) {
    forall i :: 0 <= i < |cs| ==> |cs[i].base| == n && cs[i].k <= q && InGrid(cs[i].base, q - cs[i].k)
  }

  lemma ChildInVirtual(c: Cube, i: nat, q: nat)
    requires 0 < c.k <= q && InGrid(c.base, q - c.k)
    ensures InGrid(Child(c, i).base, q - c.k + 1)
  {
  }

  lemma {:induction false} SearchInVirtual(bb: Box, n: nat, q: nat, pending: seq<Cube>)
    requires NonEmpty(bb, n) && InVirtual(pending, n, q)
    ensures InVirtual(Search(bb, n, pending), n, q)
    decreases WeightOf(pending)
  {
    hide Includes, Meets, CubeBox, Child, Weight, InGrid;
    if pending != [] {
      var c, rest := pending[0], pending[1..];
      assert pending == [c] + rest;
      if Includes(bb, CubeBox(c), n) {
        SearchInVirtual(bb, n, q, rest);
      } else if Meets(bb, CubeBox(c), n) {
        if c.k == 0 {
          UnitCube(bb, n, c);
        }
        DivideLowersWeight(c, rest);
        forall i | 0 <= i < Pow2(n) {
          ChildInVirtual(c, i, q);
        }
        SearchInVirtual(bb, n, q, rest + Children(c));
      } else {
        SearchInVirtual(bb, n, q, rest);
      }
    }
  }

  /** The interval of a cube on a curve with m bits per coordinate. */
  ghost function Flat(m: nat, c: Cube): Intv
    requires c.base != [] && c.k <= m
  {
    Intv(FirstIndex(m, c), LastIndex(m, c))
  }

  ghost function Flats(m: nat, cs: seq<Cube>): (tab: seq<Intv>)
    requires forall i :: 0 <= i < |cs| ==> cs[i].base != [] && cs[i].k <= m
    ensures |tab| == |cs| && Proper(tab)
  {
    if cs == [] then [] else [Flat(m, cs[0])] + Flats(m, cs[1..])
  }

  /** An interval holds the index of a point as often as the cubes hold the point. */
  lemma {:induction false} FlatsCount(n: nat, q: nat, m: nat, cs: seq<Cube>, p: Point)
    requires n >= 1 && q <= m && InVirtual(cs, n, q) && |p| == n && InGrid(p, m)
    ensures CountOf(Flats(m, cs), Index(n, m, p)) == CountIn(cs, p)
  {
    hide Index, InGrid;
    if cs != [] {
      GridGrows(cs[0].base, q - cs[0].k, m - cs[0].k);
      CubeInterval(n, m, cs[0], p);
      FlatsCount(n, q, m, cs[1..], p);
    }
  }

  lemma {:induction false} Pow2Monotone(a: nat, b: nat)
    requires a <= b
    ensures Pow2(a) <= Pow2(b)
    decreases b
  {
    if a < b {
      Pow2Monotone(a, b - 1);
    }
  }

  lemma GridGrows(p: Point, a: nat, b: nat)
    requires InGrid(p, a) && a <= b
    ensures InGrid(p, b)
  {
    Pow2Monotone(a, b);
  }

  /** No interval reaches beyond the grid. */
  lemma {:induction false} FlatsBound(n: nat, q: nat, m: nat, cs: seq<Cube>, x: nat)
    requires n >= 1 && q <= m && InVirtual(cs, n, q) && CountOf(Flats(m, cs), x) > 0
    ensures x < Size(n, m)
  {
    hide Index, Size, InGrid, PointAt;
    if cs != [] {
      if Within(Flat(m, cs[0]), x) {
        var c := cs[0];
        GridGrows(c.base, q - c.k, m - c.k);
        PointOfIndex(n, m - c.k, c.base);
        SizeSplit(n, m, c.k);
        HighLowOrder(Index(n, m - c.k, c.base), x - FirstIndex(m, c), Size(n, m - c.k), Size(n, c.k));
      } else {
        FlatsBound(n, q, m, cs[1..], x);
      }
    }
  }

  lemma {:induction false} SizeSplit(n: nat, m: nat, k: nat)
    requires k <= m
    ensures Size(n, m) == Times(Size(n, m - k), Size(n, k))
    decreases k
  {
    if k == 0 {
      TimesZeroOne(Size(n, m));
    } else {
      SizeSplit(n, m - 1, k - 1);
      TimesAssociates(Size(n, m - k), Size(n, k - 1), Pow2(n));
    }
  }

  // ----- the interval table of a box

  function Root(n: nat, q: nat): Cube {
    Cube(seq(n, _ => 0), q)
  }

  lemma InRoot(n: nat, q: nat, p: Point)
    requires |p| == n
    ensures InCube(Root(n, q), p) <==> InGrid(p, q)
  {
    InCubeBox(Root(n, q), p);
  }

  ghost function FoundCubes(bb: Box, n: nat, q: nat): (cs: seq<Cube>)
    requires NonEmpty(bb, n)
    ensures InVirtual(cs, n, q)
  {
    assert InVirtual([Root(n, q)], n, q);
    SearchInVirtual(bb, n, q, [Root(n, q)]);
    Search(bb, n, [Root(n, q)])
  }

  /** The table bbox_to_intv computes for a virtual cube of side 2^q: the curve gets one bit more. */
  ghost function Table(bb: Box, n: nat, q: nat): seq<Intv>
    requires n >= 1 && NonEmpty(bb, n)
  {
    Compact(SortByLb(Flats(q + 1, FoundCubes(bb, n, q))))
  }

  lemma FoundCount(bb: Box, n: nat, q: nat, p: Point)
    requires n >= 1 && NonEmpty(bb, n) && |p| == n
    ensures CountIn(FoundCubes(bb, n, q), p) == if In(bb, p) && InGrid(p, q) then 1 else 0
  {
    SearchCounts(bb, n, [Root(n, q)], p);
    InRoot(n, q, p);
    assert [Root(n, q)][1..] == [];
  }

  lemma FlatsOnce(bb: Box, n: nat, q: nat, x: nat)
    requires n >= 1 && NonEmpty(bb, n)
    ensures CountOf(Flats(q + 1, FoundCubes(bb, n, q)), x) <= 1
  {
    hide Index, PointAt, InGrid, FoundCubes, Flats;
    var cs := FoundCubes(bb, n, q);
    if CountOf(Flats(q + 1, cs), x) > 0 {
      FlatsBound(n, q, q + 1, cs, x);
      IndexOfPoint(n, q + 1, x);
      FlatsCount(n, q, q + 1, cs, PointAt(n, q + 1, x));
      FoundCount(bb, n, q, PointAt(n, q + 1, x));
    }
  }

  /** The table is sorted, its intervals are disjoint and no two of them are adjacent. */
  lemma TableIncreasing(bb: Box, n: nat, q: nat)
    requires n >= 1 && NonEmpty(bb, n)
    ensures Increasing(Table(bb, n, q)) && NonAdjacent(Table(bb, n, q))
    ensures forall x :: CountOf(Table(bb, n, q), x) == CountOf(Flats(q + 1, FoundCubes(bb, n, q)), x)
  {
    hide FoundCubes, Flats;
    var tab := Flats(q + 1, FoundCubes(bb, n, q));
    var r := SortByLb(tab);
    SortSorts(tab);
    assert Proper(r) by {
      forall i | 0 <= i < |r|
        ensures r[i].lb <= r[i].ub
      {
        assert r[i] in multiset(r) && r[i] in multiset(tab);
      }
    }
    forall x: nat
      ensures CountOf(r, x) <= 1
    {
      FlatsOnce(bb, n, q, x);
    }
    SortedDisjoint(r);
    CompactKeeps(r);
  }

  /** The table covers exactly the indices of the box's points in the virtual cube. */
  lemma TableCovers(bb: Box, n: nat, q: nat, p: Point)
    requires n >= 1 && NonEmpty(bb, n) && |p| == n && InGrid(p, q + 1)
    ensures Covers(Table(bb, n, q), Index(n, q + 1, p)) <==> In(bb, p) && InGrid(p, q)
  {
    hide Index, InGrid, FoundCubes, Flats, Table;
    TableIncreasing(bb, n, q);
    FlatsCount(n, q, q + 1, FoundCubes(bb, n, q), p);
    FoundCount(bb, n, q, p);
    CoversIsCount(Table(bb, n, q), Index(n, q + 1, p));
  }

  lemma TableBound(bb: Box, n: nat, q: nat, x: nat)
    requires n >= 1 && NonEmpty(bb, n) && Covers(Table(bb, n, q), x)
    ensures x < Size(n, q + 1)
  {
    hide FoundCubes, Flats, Table;
    TableIncreasing(bb, n, q);
    CoversIsCount(Table(bb, n, q), x);
    FlatsBound(n, q, q + 1, FoundCubes(bb, n, q), x);
  }

  // ----- counting

  /** The indices of a set of points. */
  ghost function IndexSet(n: nat, m: nat, ps: set<Point>): (xs: set<nat>)
    requires n >= 1 && forall p :: p in ps ==> |p| == n
    ensures forall x :: x in xs <==> exists p :: p in ps && Index(n, m, p) == x
  {
    set p | p in ps :: Index(n, m, p)
  }

  lemma {:induction false} IndexSetSize(n: nat, m: nat, ps: set<Point>)
    requires n >= 1 && forall p :: p in ps ==> |p| == n && InGrid(p, m)
    ensures |IndexSet(n, m, ps)| == |ps|
  {
    hide Index, InGrid;
    if ps != {} {
      var p :| p in ps;
      var rest := ps - {p};
      IndexSetSize(n, m, rest);
      forall q | q in rest
        ensures Index(n, m, q) != Index(n, m, p)
      {
        if Index(n, m, q) == Index(n, m, p) {
          IndexInjective(n, m, p, q);
        }
      }
      assert ps == rest + {p};
      assert IndexSet(n, m, ps) == IndexSet(n, m, rest) + {Index(n, m, p)};
      assert Index(n, m, p) !in IndexSet(n, m, rest);
    }
  }

  ghost predicate InsideVirtual(bb: Box, n: nat, q: nat) {
    NonEmpty(bb, n) && forall d :: 0 <= d < n ==> bb.ub[d] < Pow2(q)
  }

  lemma InsideGrid(bb: Box, n: nat, q: nat, p: Point)
    requires InsideVirtual(bb, n, q) && In(bb, p)
    ensures |p| == n && InGrid(p, q) && InGrid(p, q + 1)
  {
  }

  /** For a box inside the virtual cube the table covers the indices of its points and nothing else, and its size is the volume. */
  lemma TableSize(bb: Box, n: nat, q: nat)
    requires n >= 1 && InsideVirtual(bb, n, q)
    ensures forall p :: p in Points(bb) ==> |p| == n
    ensures Elements(Table(bb, n, q)) == IndexSet(n, q + 1, Points(bb))
    ensures TotalSize(Table(bb, n, q)) == Volume(bb)
  {
    hide Index, InGrid, Table, IndexSet;
    var m, ps, tab := q + 1, Points(bb), Table(bb, n, q);
    forall p | p in ps
      ensures |p| == n && In(bb, p) && InGrid(p, m) && InGrid(p, q)
    {
      PointsAt(bb, p);
      InsideGrid(bb, n, q, p);
    }
    TableIncreasing(bb, n, q);
    forall x: nat
      ensures x in Elements(tab) <==> x in IndexSet(n, m, ps)
    {
      ElementsAt(tab, x);
      CoversIsCount(tab, x);
      if x in Elements(tab) {
        TableBound(bb, n, q, x);
        IndexOfPoint(n, m, x);
        TableCovers(bb, n, q, PointAt(n, m, x));
        PointsAt(bb, PointAt(n, m, x));
      }
      if x in IndexSet(n, m, ps) {
        var p :| p in ps && Index(n, m, p) == x;
        TableCovers(bb, n, q, p);
      }
    }
    ElementsSize(tab);
    IndexSetSize(n, m, ps);
    VolumeCounts(bb.lb, bb.ub);
  }
}
