/** Aligned cubes of side 2^k and the interval of indices the Hilbert curve gives each of them. */
module AlignedCubes {
  import opened Arithmetic
  import opened BitStrings
  import opened HilbertCurve
  import opened HilbertIndex

  /** The points whose coordinates, without their k lowest bits, are base. */
  datatype Cube = Cube(base: Point, k: nat)

  function Halves(p: Point, k: nat): (h: Point)
    ensures |h| == |p|
    decreases k
  {
    if k == 0 then p else Halves(Half(p), k - 1)
  }

  predicate InCube(c: Cube, p: Point) {
    |p| == |c.base| && Halves(p, c.k) == c.base
  }

  /** First index of the cube, in a grid of side 2^m. */
  function FirstIndex(m: nat, c: Cube): nat
    requires c.base != [] && c.k <= m
  {
    Times(Index(|c.base|, m - c.k, c.base), Size(|c.base|, c.k))
  }

  function LastIndex(m: nat, c: Cube): nat
    requires c.base != [] && c.k <= m
  {
    FirstIndex(m, c) + Size(|c.base|, c.k) - 1
  }

  lemma ScaleBounds(i: nat, j: nat, x: nat, a: nat, b: nat)
    requires Times(i, a) <= j < Times(i + 1, a) && Times(j, b) <= x < Times(j + 1, b)
    ensures Times(i, Times(a, b)) <= x < Times(i + 1, Times(a, b))
  {
    TimesAssociates(i, a, b);
    TimesAssociates(i + 1, a, b);
    TimesMonotone(Times(i, a), j, b);
    TimesMonotone(j + 1, Times(i + 1, a), b);
  }

  /** The index without its k lowest digits depends only on the coordinates without their k lowest bits. */
  lemma {:induction false} IndexOfHalves(n: nat, m: nat, p: Point, k: nat)
    requires n >= 1 && |p| == n && k <= m
    ensures var i := Index(n, m - k, Halves(p, k)); Times(i, Size(n, k)) <= Index(n, m, p) < Times(i + 1, Size(n, k))
    decreases k
  {
    hide Index;
    if k == 0 {
      TimesZeroOne(Index(n, m, p));
      TimesZeroOne(Index(n, m, p) + 1);
    } else {
      IndexPrefix(n, m - 1, p);
      IndexOfHalves(n, m - 1, Half(p), k - 1);
      ScaleBounds(Index(n, m - k, Halves(p, k)), Index(n, m - 1, Half(p)), Index(n, m, p), Size(n, k - 1), Pow2(n));
    }
  }

  lemma {:induction false} HalvesInGrid(p: Point, m: nat, k: nat)
    requires InGrid(p, m) && k <= m
    ensures InGrid(Halves(p, k), m - k)
    decreases k
  {
    if k > 0 {
      HalvesInGrid(Half(p), m - 1, k - 1);
    }
  }

  /** A point lies in an aligned cube exactly when its index lies in the cube's interval. */
  lemma CubeInterval(n: nat, m: nat, c: Cube, p: Point)
    requires n >= 1 && |c.base| == |p| == n && c.k <= m
    requires InGrid(p, m) && InGrid(c.base, m - c.k)
    ensures InCube(c, p) <==> FirstIndex(m, c) <= Index(n, m, p) <= LastIndex(m, c)
  {
    hide Index, Size, InGrid;
    var h := Halves(p, c.k);
    var i, j, b, x := Index(n, m - c.k, c.base), Index(n, m - c.k, h), Size(n, c.k), Index(n, m, p);
    IndexOfHalves(n, m, p, c.k);
    if FirstIndex(m, c) <= x <= LastIndex(m, c) {
      HighLowUnique(i, x - Times(i, b), j, x - Times(j, b), b);
      HalvesInGrid(p, m, c.k);
      IndexInjective(n, m - c.k, c.base, h);
    }
  }

  // ----- the first and the last index of a cube sit at corners

  function Corner(s: State, n: nat, last: bool): (e: Bits)
    requires s.Valid(n)
    ensures |e| == n
  {
    if last then Exit(s, n) else Entry(s, n)
  }

  /** The first or last of the indices that have x above k more digits. */
  function Extreme(n: nat, x: nat, k: nat, last: bool): nat {
    Times(x, Size(n, k)) + if last then Size(n, k) - 1 else 0
  }

  lemma ExtremeStep(n: nat, x: nat, k: nat, last: bool)
    requires k > 0
    ensures Extreme(n, x, k, last) == Times(Extreme(n, x, k - 1, last), Pow2(n)) + Value(if last then Ones(n) else Zeros(n))
  {
    hide Times, Value;
    OneTimes(Pow2(n));
    ValueZeros(n);
    ValueOnes(n);
    var a, b := Size(n, k - 1), Pow2(n);
    TimesAssociates(x, a, b);
    TimesAdd(Times(x, a), a - 1, b);
    TimesAdd(1, a - 1, b);
  }

  lemma PointAtStep(n: nat, m: nat, x: nat, z: Bits)
    requires n >= 2 && |z| == n
    ensures var s := Descent(n, IndexDigits(n, m, x)); var y := Times(x, Pow2(n)) + Value(z);
      && PointAt(n, m + 1, y) == Double(PointAt(n, m, x), CellOf(s, z))
      && Descent(n, IndexDigits(n, m + 1, y)) == Descend(s, z)
  {
    var ix := IndexDigits(n, m, x);
    ShiftJoin(x, z);
    assert IndexDigits(n, m + 1, Times(x, Pow2(n)) + Value(z)) == ix + [z];
    CellsSnoc(n, ix, z);
    assert Cells(n, ix + [z])[..m] == Cells(n, ix);
  }

  function CornerAt(n: nat, m: nat, x: nat, last: bool): (e: Bits)
    requires n >= 2
    ensures |e| == n
  {
    Corner(Descent(n, IndexDigits(n, m, x)), n, last)
  }

  lemma CornerStep(n: nat, m: nat, x: nat, last: bool)
    requires n >= 2
    ensures var e := CornerAt(n, m, x, last); var y := Times(x, Pow2(n)) + Value(if last then Ones(n) else Zeros(n));
      PointAt(n, m + 1, y) == Double(PointAt(n, m, x), e) && CornerAt(n, m + 1, y, last) == e
  {
    hide PointAt, CellOf, Descend, IndexDigits, Descent, Entry, Exit;
    PointAtStep(n, m, x, if last then Ones(n) else Zeros(n));
    ExitStays(Descent(n, IndexDigits(n, m, x)), n);
    EntryStays(Descent(n, IndexDigits(n, m, x)), n);
  }

  lemma {:induction false} CornerPoint(n: nat, m: nat, x: nat, k: nat, last: bool)
    requires n >= 2
    ensures var e, y := CornerAt(n, m, x, last), Extreme(n, x, k, last);
      && CornerAt(n, m + k, y, last) == e
      && forall d :: 0 <= d < n ==>
           PointAt(n, m + k, y)[d] == Times(PointAt(n, m, x)[d], Pow2(k)) + if e[d] then Pow2(k) - 1 else 0
  {
    hide CornerAt;
    hide PointAt;
    var p := PointAt(n, m, x);
    if k == 0 {
      TimesZeroOne(x);
      forall d | 0 <= d < n {
        TimesZeroOne(p[d]);
      }
    } else {
      CornerPoint(n, m, x, k - 1, last);
      ExtremeStep(n, x, k, last);
      CornerStep(n, m + k - 1, Extreme(n, x, k - 1, last), last);
      forall d | 0 <= d < n {
        TimesDouble(p[d], Pow2(k - 1));
      }
    }
  }

  ghost predicate IsCorner(p: Point, c: Cube) {
    |p| == |c.base| &&
    forall d :: 0 <= d < |p| ==> p[d] == Times(c.base[d], Pow2(c.k)) || p[d] == Times(c.base[d], Pow2(c.k)) + Pow2(c.k) - 1
  }

  lemma LineCorners(m: nat, c: Cube)
    requires |c.base| == 1 && c.k <= m
    ensures PointAt(1, m, FirstIndex(m, c)) == [Times(c.base[0], Pow2(c.k))]
    ensures PointAt(1, m, LastIndex(m, c)) == [Times(c.base[0], Pow2(c.k)) + Pow2(c.k) - 1]
  {
    SizeOne(c.k);
  }

  lemma ExtremeIsCorner(n: nat, m: nat, c: Cube, last: bool)
    requires n >= 2 && |c.base| == n && c.k <= m && InGrid(c.base, m - c.k)
    ensures IsCorner(PointAt(n, m, if last then LastIndex(m, c) else FirstIndex(m, c)), c)
  {
    hide Index;
    hide PointAt;
    hide CornerAt;
    var l, k := m - c.k, c.k;
    var i := Index(n, l, c.base);
    var y := Extreme(n, i, k, last);
    PointOfIndex(n, l, c.base);
    CornerPoint(n, l, i, k, last);
    assert PointAt(n, l + k, y) == PointAt(n, m, y);
  }

  /** The curve enters and leaves every aligned cube at corners. */
  lemma ExtremesAreCorners(n: nat, m: nat, c: Cube)
    requires n >= 1 && |c.base| == n && c.k <= m && InGrid(c.base, m - c.k)
    ensures IsCorner(PointAt(n, m, FirstIndex(m, c)), c)
    ensures IsCorner(PointAt(n, m, LastIndex(m, c)), c)
  {
    if n == 1 {
      LineCorners(m, c);
    } else {
      ExtremeIsCorner(n, m, c, false);
      ExtremeIsCorner(n, m, c, true);
    }
  }
}
