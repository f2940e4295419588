/** The Hilbert curve on numbers: points of a grid of side 2^m in n dimensions against indices below 2^(n*m). */
module HilbertIndex {
  import opened Arithmetic
  import opened BitStrings
  import opened HilbertCurve

  type Point = seq<nat>

  // ----- numbers as digits

  function Half(p: Point): (h: Point)
    ensures |h| == |p| && forall d :: 0 <= d < |p| ==> h[d] == p[d] / 2
  {
    seq(|p|, d requires 0 <= d < |p| => p[d] / 2)
  }

  function LowBits(p: Point): (c: Bits)
    ensures |c| == |p| && forall d :: 0 <= d < |p| ==> c[d] == (p[d] % 2 == 1)
  {
    seq(|p|, d requires 0 <= d < |p| => p[d] % 2 == 1)
  }

  function Double(p: Point, c: Bits): (q: Point)
    requires |p| == |c|
    ensures |q| == |p| && forall d :: 0 <= d < |p| ==> q[d] == 2 * p[d] + if c[d] then 1 else 0
  {
    seq(|p|, d requires 0 <= d < |p| => 2 * p[d] + if c[d] then 1 else 0)
  }

  /** Coordinate digits of a point, highest first. */
  function PointDigits(m: nat, p: Point): (cs: seq<Bits>)
    ensures |cs| == m && Digits(|p|, cs)
  {
    if m == 0 then [] else PointDigits(m - 1, Half(p)) + [LowBits(p)]
  }

  function PointOf(n: nat, cs: seq<Bits>): (p: Point)
    requires Digits(n, cs)
    ensures |p| == n
  {
    if cs == [] then seq(n, _ => 0) else Double(PointOf(n, cs[..|cs| - 1]), cs[|cs| - 1])
  }

  /** Number of points of a cube of side 2^m: 2^(n*m). */
  function Size(n: nat, m: nat): (s: nat)
    ensures s >= 1
  {
    TimesPositive(if m == 0 then 1 else Size(n, m - 1), Pow2(n));
    if m == 0 then 1 else Times(Size(n, m - 1), Pow2(n))
  }

  function IndexDigits(n: nat, m: nat, x: nat): (ix: seq<Bits>)
    ensures |ix| == m && Digits(n, ix)
  {
    if m == 0 then [] else IndexDigits(n, m - 1, Shift(x, n)) + [FromValue(x, n)]
  }

  /** The bits of all digits in one string, lowest bit first. */
  function Join(ds: seq<Bits>): Bits {
    if ds == [] then [] else ds[|ds| - 1] + Join(ds[..|ds| - 1])
  }

  function Number(ix: seq<Bits>): nat {
    Value(Join(ix))
  }

  lemma JoinSnoc(above: seq<Bits>, low: Bits)
    ensures Join(above + [low]) == low + Join(above)
  {
    assert (above + [low])[..|above|] == above;
  }

  lemma NumberSnoc(above: seq<Bits>, low: Bits)
    ensures Number(above + [low]) == Times(Number(above), Pow2(|low|)) + Value(low)
  {
    JoinSnoc(above, low);
    ValueConcat(low, Join(above));
  }

  /** hilbert_c2i: in one dimension the coordinate itself. */
  function Index(n: nat, m: nat, p: Point): nat
    requires n >= 1 && |p| == n
  {
    if n == 1 then p[0] else Number(Indices(n, PointDigits(m, p)))
  }

  /** hilbert_i2c. */
  function PointAt(n: nat, m: nat, x: nat): (p: Point)
    requires n >= 1
    ensures |p| == n
  {
    if n == 1 then [x] else PointOf(n, Cells(n, IndexDigits(n, m, x)))
  }

  ghost predicate InGrid(p: Point, m: nat) {
    forall d :: 0 <= d < |p| ==> p[d] < Pow2(m)
  }

  // ----- digit conversions are inverse

  lemma SizeIsPow2(n: nat, m: nat)
    ensures Size(n, m) == Pow2(n * m)
  {
    if m > 0 {
      SizeIsPow2(n, m - 1);
      assert n * (m - 1) + n == n * m;
      Pow2Add(n * (m - 1), n);
    }
  }

  lemma {:induction false} PointOfDigits(m: nat, p: Point)
    requires InGrid(p, m)
    ensures PointOf(|p|, PointDigits(m, p)) == p
  {
    if m > 0 {
      PointOfDigits(m - 1, Half(p));
      assert PointDigits(m, p)[..m - 1] == PointDigits(m - 1, Half(p));
    }
  }

  lemma {:induction false} DigitsOfPoint(n: nat, cs: seq<Bits>)
    requires Digits(n, cs)
    ensures InGrid(PointOf(n, cs), |cs|)
    ensures PointDigits(|cs|, PointOf(n, cs)) == cs
  {
    if cs != [] {
      var above, low := cs[..|cs| - 1], cs[|cs| - 1];
      DigitsOfPoint(n, above);
      assert Half(PointOf(n, cs)) == PointOf(n, above);
      assert LowBits(PointOf(n, cs)) == low;
      assert cs == above + [low];
    }
  }

  lemma {:induction false} NumberOfDigits(n: nat, m: nat, x: nat)
    requires x < Size(n, m)
    ensures Number(IndexDigits(n, m, x)) == x
  {
    if m > 0 {
      var q, low := Shift(x, n), FromValue(x, n);
      ShiftSplit(x, n);
      ValueBound(low);
      HighLowOrder(q, Value(low), Size(n, m - 1), Pow2(n));
      NumberOfDigits(n, m - 1, q);
      NumberSnoc(IndexDigits(n, m - 1, q), low);
    }
  }

  lemma {:induction false} DigitsOfNumber(n: nat, ix: seq<Bits>)
    requires Digits(n, ix)
    ensures Number(ix) < Size(n, |ix|)
    ensures IndexDigits(n, |ix|, Number(ix)) == ix
  {
    if ix != [] {
      var above, low := ix[..|ix| - 1], ix[|ix| - 1];
      DigitsOfNumber(n, above);
      ValueBound(low);
      assert ix == above + [low];
      NumberSnoc(above, low);
      ShiftJoin(Number(above), low);
      HighLowOrder(Number(above), Value(low), Size(n, |above|), Pow2(n));
    }
  }

  // ----- bijection

  lemma SizeOne(m: nat)
    ensures Size(1, m) == Pow2(m)
  {
    SizeIsPow2(1, m);
  }

  /** Every point of the grid is the point at its own index, which is below 2^(n*m). */
  lemma PointOfIndex(n: nat, m: nat, p: Point)
    requires n >= 1 && |p| == n && InGrid(p, m)
    ensures Index(n, m, p) < Size(n, m)
    ensures PointAt(n, m, Index(n, m, p)) == p
  {
    if n == 1 {
      SizeOne(m);
    } else {
      var cs := PointDigits(m, p);
      DigitsOfNumber(n, Indices(n, cs));
      CellsOfIndices(n, cs);
      PointOfDigits(m, p);
    }
  }

  /** Every index below 2^(n*m) is the index of its own point, which lies in the grid. */
  lemma IndexOfPoint(n: nat, m: nat, x: nat)
    requires n >= 1 && x < Size(n, m)
    ensures InGrid(PointAt(n, m, x), m)
    ensures Index(n, m, PointAt(n, m, x)) == x
  {
    if n == 1 {
      SizeOne(m);
    } else {
      var ix := IndexDigits(n, m, x);
      NumberOfDigits(n, m, x);
      DigitsOfPoint(n, Cells(n, ix));
      IndicesOfCells(n, ix);
    }
  }

  lemma IndexInjective(n: nat, m: nat, p: Point, q: Point)
    requires n >= 1 && |p| == |q| == n && InGrid(p, m) && InGrid(q, m)
    requires Index(n, m, p) == Index(n, m, q)
    ensures p == q
  {
    PointOfIndex(n, m, p);
    PointOfIndex(n, m, q);
  }

  // ----- consecutive indices are neighbours

  ghost predicate Adjacent(p: Point, q: Point) {
    |p| == |q| && exists d :: 0 <= d < |p| && DifferByOne(p, q, d)
  }

  ghost predicate DifferByOne(p: Point, q: Point, d: nat)
    requires d < |p| == |q|
  {
    (q[d] == p[d] + 1 || p[d] == q[d] + 1) && q == p[d := q[d]]
  }

  lemma {:induction false} NumberSuccessor(n: nat, ix: seq<Bits>)
    requires Digits(n, ix) && !IsLast(n, ix)
    ensures Number(Successor(n, ix)) == Number(ix) + 1
  {
    var above, low := ix[..|ix| - 1], ix[|ix| - 1];
    assert ix == above + [low];
    NumberSnoc(above, low);
    if low != Ones(n) {
      NotOnes(low);
      ValueIncrement(low);
      NumberSnoc(above, Increment(low));
    } else {
      ValueOnes(n);
      ValueZeros(n);
      NumberSuccessor(n, above);
      NumberSnoc(Successor(n, above), Zeros(n));
      TimesAdd(1, Number(above), Pow2(n));
    }
  }

  lemma {:induction false} NumberOfLast(n: nat, ix: seq<Bits>)
    requires Digits(n, ix) && IsLast(n, ix)
    ensures Number(ix) == Size(n, |ix|) - 1
  {
    if ix != [] {
      var above := ix[..|ix| - 1];
      assert ix == above + [Ones(n)];
      NumberSnoc(above, Ones(n));
      NumberOfLast(n, above);
      ValueOnes(n);
      TimesAdd(1, Size(n, |above|) - 1, Pow2(n));
    }
  }

  /** If two digit sequences step at digit j in coordinate d, so do the numbers, facing each other at the low end. */
  lemma {:induction false} StepPoints(n: nat, cs: seq<Bits>, cs': seq<Bits>, j: nat, d: nat)
    requires Digits(n, cs) && Digits(n, cs') && d < n && StepsTo(cs, cs', j, d)
    ensures var p, p' := PointOf(n, cs), PointOf(n, cs');
      p' == p[d := p'[d]] && (if cs[j][d] then p'[d] + 1 == p[d] else p'[d] == p[d] + 1)
  {
    var k := |cs| - 1;
    var above, above' := cs[..k], cs'[..k];
    if j == k {
      assert above == above';
    } else {
      StepPoints(n, above, above', j, d);
    }
  }

  lemma SuccessorNumber(n: nat, m: nat, x: nat)
    requires n >= 2 && x + 1 < Size(n, m)
    ensures !IsLast(n, IndexDigits(n, m, x))
    ensures IndexDigits(n, m, x + 1) == Successor(n, IndexDigits(n, m, x))
  {
    hide IndexDigits, Number, Size, Successor, IsLast;
    var ix := IndexDigits(n, m, x);
    NumberOfDigits(n, m, x);
    if IsLast(n, ix) {
      NumberOfLast(n, ix);
    } else {
      NumberSuccessor(n, ix);
      DigitsOfNumber(n, Successor(n, ix));
    }
  }

  /** Consecutive indices are the indices of points that differ by one in exactly one coordinate. */
  lemma ConsecutiveNeighbours(n: nat, m: nat, x: nat)
    requires n >= 1 && x + 1 < Size(n, m)
    ensures Adjacent(PointAt(n, m, x), PointAt(n, m, x + 1))
  {
    if n == 1 {
      assert DifferByOne([x], [x + 1], 0);
    } else {
      var ix := IndexDigits(n, m, x);
      SuccessorNumber(n, m, x);
      SuccessorCells(n, ix);
      StepPoints(n, Cells(n, ix), Cells(n, Successor(n, ix)), CarryAt(n, ix), ChangedDim(n, ix));
      assert DifferByOne(PointAt(n, m, x), PointAt(n, m, x + 1), ChangedDim(n, ix));
    }
  }

  // ----- the index of a coarser grid is a prefix

  /** The lowest index digit of a point. */
  function LowDigit(n: nat, m: nat, p: Point): (i: Bits)
    requires n >= 2 && |p| == n
    ensures |i| == n
  {
    DigitOf(Descent(n, Indices(n, PointDigits(m, Half(p)))), LowBits(p))
  }

  lemma IndexStep(n: nat, m: nat, p: Point)
    requires n >= 2 && |p| == n
    ensures Index(n, m + 1, p) == Times(Index(n, m, Half(p)), Pow2(n)) + Value(LowDigit(n, m, p))
  {
    var above := PointDigits(m, Half(p));
    IndicesSnoc(n, above, LowBits(p));
    NumberSnoc(Indices(n, above), LowDigit(n, m, p));
  }

  /** Halving every coordinate drops the lowest digit of the index. */
  lemma IndexPrefix(n: nat, m: nat, p: Point)
    requires n >= 1 && |p| == n
    ensures var i := Index(n, m, Half(p)); Times(i, Pow2(n)) <= Index(n, m + 1, p) < Times(i + 1, Pow2(n))
  {
    if n == 1 {
      assert Pow2(1) == 2;
      TimesDouble(p[0] / 2, 1);
      TimesZeroOne(p[0] / 2);
    } else {
      IndexStep(n, m, p);
      ValueBound(LowDigit(n, m, p));
    }
  }

  // ----- parity

  predicate Odd(x: nat) {
    x % 2 == 1
  }

  function Sum(p: Point): nat {
    if p == [] then 0 else p[0] + Sum(p[1..])
  }

  lemma {:induction false} SumParity(p: Point)
    ensures Parity(LowBits(p)) == Odd(Sum(p))
  {
    if p != [] {
      SumParity(p[1..]);
      assert LowBits(p)[1..] == LowBits(p[1..]);
    }
  }

  lemma LowestBit(a: Bits)
    requires a != []
    ensures Odd(Value(a)) == a[0]
  {
  }

  lemma LowDigitParity(n: nat, m: nat, p: Point)
    requires n >= 2 && |p| == n
    ensures LowDigit(n, m, p)[0] == Odd(Sum(p))
  {
    var above, i := Indices(n, PointDigits(m, Half(p))), LowDigit(n, m, p);
    CellDigit(Descent(n, above), LowBits(p));
    CellsSnoc(n, above, i);
    DigitParity(n, above + [i]);
    SumParity(p);
  }

  lemma IndexLowBit(n: nat, m: nat, p: Point)
    requires n >= 2 && |p| == n
    ensures Odd(Index(n, m + 1, p)) == LowDigit(n, m, p)[0]
  {
    var above := PointDigits(m, Half(p));
    IndicesSnoc(n, above, LowBits(p));
    var ix, low := Indices(n, above), LowDigit(n, m, p);
    JoinSnoc(ix, low);
    LowestBit(low + Join(ix));
  }

  lemma ParityOnLine(m: nat, p: Point)
    requires |p| == 1
    ensures Index(1, m, p) == Sum(p)
  {
    hide Odd;
    assert p[1..] == [];
  }

  /** The index of a point is odd exactly when the sum of its coordinates is. */
  lemma IndexParity(n: nat, m: nat, p: Point)
    requires n >= 1 && m >= 1 && |p| == n
    ensures Odd(Index(n, m, p)) == Odd(Sum(p))
  {
    hide Index, Odd, LowDigit, Sum;
    if n == 1 {
      ParityOnLine(m, p);
    } else {
      IndexLowBit(n, m - 1, p);
      LowDigitParity(n, m - 1, p);
    }
  }

  // ----- where the curve begins and ends

  /** With one bit to a coordinate the curve is the Gray code: coordinate d is bit d of the index, flipped if bit d + 1 is set. */
  lemma {:induction false} OneBitIsGray(n: nat, x: nat, d: nat)
    requires d < n && x < Pow2(n)
    ensures PointAt(n, 1, x)[d] == if (x / Pow2(d) % 2 == 1) != (d + 1 < n && x / Pow2(d + 1) % 2 == 1) then 1 else 0
  {
    if n == 1 {
      assert Pow2(0) == 1 && Pow2(1) == 2;
    } else {
      var i := FromValue(x, n);
      OneDigit(n, x);
      OneCell(n, i, d);
      BitOfValue(x, n, d);
      if d + 1 < n {
        BitOfValue(x, n, d + 1);
      }
    }
  }

  lemma OneDigit(n: nat, x: nat)
    ensures IndexDigits(n, 1, x) == [FromValue(x, n)]
  {
    assert IndexDigits(n, 0, Shift(x, n)) == [];
  }

  lemma {:induction false} OneCell(n: nat, i: Bits, d: nat)
    requires n >= 2 && |i| == n && d < n
    ensures Cells(n, [i]) == [CellOf(Start(n), i)]
    ensures PointOf(n, Cells(n, [i]))[d] == if i[d] != (d + 1 < n && i[d + 1]) then 1 else 0
  {
    var s, g := Start(n), Gray(i, true);
    assert [i][..0] == [];
    assert CellOf(s, i) == g by {
      assert RotateLeft(g, 0) == g;
    }
    assert [g][..0] == [];
  }

  /** Digits that are all low stay where the curve enters. */
  lemma {:induction false} CellsAtEntry(n: nat, m: nat)
    requires n >= 2
    ensures Digits(n, seq(m, _ => Zeros(n))) && Cells(n, seq(m, _ => Zeros(n))) == seq(m, _ => Zeros(n))
    ensures Entry(Descent(n, seq(m, _ => Zeros(n))), n) == Zeros(n)
  {
    hide CellOf, Descend, Entry;
    var ix := seq(m, _ => Zeros(n));
    if m == 0 {
      StartEnds(n);
    } else {
      var above := seq(m - 1, _ => Zeros(n));
      CellsAtEntry(n, m - 1);
      assert ix[..m - 1] == above;
      EntryStays(Descent(n, above), n);
      assert ix == seq(m - 1, _ => Zeros(n)) + [Zeros(n)];
    }
  }

  /** Digits that are all high stay where it leaves. */
  lemma {:induction false} CellsAtExit(n: nat, m: nat)
    requires n >= 2
    ensures Digits(n, seq(m, _ => Ones(n))) && Cells(n, seq(m, _ => Ones(n))) == seq(m, _ => Unit(n, n - 1))
    ensures Exit(Descent(n, seq(m, _ => Ones(n))), n) == Unit(n, n - 1)
  {
    hide CellOf, Descend, Exit;
    var ix := seq(m, _ => Ones(n));
    if m == 0 {
      StartEnds(n);
    } else {
      var above := seq(m - 1, _ => Ones(n));
      CellsAtExit(n, m - 1);
      assert ix[..m - 1] == above;
      ExitStays(Descent(n, above), n);
      assert seq(m, _ => Unit(n, n - 1)) == seq(m - 1, _ => Unit(n, n - 1)) + [Unit(n, n - 1)];
    }
  }

  lemma StartEnds(n: nat)
    requires n >= 2
    ensures Descent(n, []) == Start(n) && Entry(Start(n), n) == Zeros(n) && Exit(Start(n), n) == Unit(n, n - 1)
  {
    assert Flip(Zeros(n), n - 1) == Unit(n, n - 1);
  }

  lemma {:induction false} SameCells(n: nat, m: nat, c: Bits, d: nat)
    requires |c| == n && d < n
    ensures Digits(n, seq(m, _ => c)) && PointOf(n, seq(m, _ => c))[d] == if c[d] then Pow2(m) - 1 else 0
  {
    if m > 0 {
      SameCells(n, m - 1, c, d);
      assert seq(m, _ => c)[..m - 1] == seq(m - 1, _ => c);
    }
  }

  lemma {:induction false} ZeroDigits(n: nat, m: nat)
    ensures IndexDigits(n, m, 0) == seq(m, _ => Zeros(n))
  {
    if m > 0 {
      ZeroDigits(n, m - 1);
      FromZero(n);
      ShiftedZero(n);
      assert seq(m, _ => Zeros(n)) == seq(m - 1, _ => Zeros(n)) + [Zeros(n)];
    }
  }

  lemma {:induction false} ShiftedZero(n: nat)
    ensures Shift(0, n) == 0
  {
    if n > 0 {
      ShiftedZero(n - 1);
    }
  }

  /** The curve begins at the origin and ends at the far corner of the last dimension. */
  lemma {:induction false} CurveEnds(n: nat, m: nat, d: nat)
    requires d < n
    ensures PointAt(n, m, 0)[d] == 0
    ensures PointAt(n, m, Size(n, m) - 1)[d] == if d == n - 1 then Pow2(m) - 1 else 0
  {
    if n == 1 {
      LineSize(m);
    } else {
      CurveBegin(n, m, d);
      CurveEnd(n, m, d);
    }
  }

  lemma {:induction false} CurveBegin(n: nat, m: nat, d: nat)
    requires n >= 2 && d < n
    ensures PointAt(n, m, 0)[d] == 0
  {
    hide Cells, IndexDigits, PointOf;
    ZeroDigits(n, m);
    CellsAtEntry(n, m);
    SameCells(n, m, Zeros(n), d);
  }

  lemma {:induction false} CurveEnd(n: nat, m: nat, d: nat)
    requires n >= 2 && d < n
    ensures PointAt(n, m, Size(n, m) - 1)[d] == if d == n - 1 then Pow2(m) - 1 else 0
  {
    hide Cells, IndexDigits, PointOf, Number, Size, Unit, Ones, Digits, IsLast;
    var ix := seq(m, _ => Ones(n));
    CellsAtExit(n, m);
    NumberOfLast(n, ix);
    DigitsOfNumber(n, ix);
    SameCells(n, m, Unit(n, n - 1), d);
  }

  lemma {:induction false} LineSize(m: nat)
    ensures Size(1, m) == Pow2(m)
  {
    SizeIsPow2(1, m);
  }
}
