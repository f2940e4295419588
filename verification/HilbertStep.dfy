/** hilbert_incr: one step along the curve without going through the index. */
module HilbertStep {
  import opened BitStrings
  import opened MachineWords
  import opened Transposition
  import opened HilbertCurve
  import opened HilbertIndex
  import opened HilbertCode

  /** The coordinate digit at bit b of all coordinates. */
  function PlaneOf(coord: seq<Word>, b: nat): (c: Bits)
    requires b < WIDTH
    ensures |c| == |coord| && forall d :: 0 <= d < |coord| ==> c[d] == coord[d][b]
  {
    seq(|coord|, d requires 0 <= d < |coord| => coord[d][b])
  }

  lemma {:induction false} PlaneIsDigit(coord: seq<Word>, m: nat, b: nat)
    requires b < m <= WIDTH && InGrid(PointIn(coord), m)
    ensures PlaneOf(coord, b) == PointDigits(m, PointIn(coord))[m - 1 - b]
  {
    var p := PointIn(coord);
    PointColumns(m, p);
    forall d | 0 <= d < |coord|
      ensures coord[d][b] == FieldsOf(m, p)[d][b]
    {
      WordIsField(coord[d], m);
    }
    assert Reverse(Columns(FieldsOf(m, p), m))[m - 1 - b] == Column(FieldsOf(m, p), m, b);
  }

  /** Bit b of every coordinate, coordinate 0 lowest. */
  method ReadPlane(nDims: nat, coord: array<Word>, b: nat) returns (reflection: Word)
    requires 1 <= nDims < WIDTH && coord.Length == nDims && b < WIDTH
    ensures reflection == Pad(PlaneOf(coord[..], b))
  {
    reflection := Zeros(WIDTH);
    for d := 0 to nDims
      invariant forall i {:trigger reflection[i]} :: 0 <= i < WIDTH ==> reflection[i] == (i < d && coord[i][b])
    {
      reflection := Or(reflection, ShiftLeft(And(ShiftRight(coord[d], b), Pad([true])), d));
    }
  }

  /** The word carried between digits: the top bit if the digit above was even. */
  function Carried(n: nat, odd: bool): Word
    requires 1 <= n <= WIDTH
  {
    if odd then Zeros(WIDTH) else Pad(Unit(n, n - 1))
  }

  lemma CarriedGray(i: Bits, odd: bool)
    requires 1 <= |i| <= WIDTH
    ensures Xor(Carried(|i|, odd), Pad(Gray(i, odd))) == Xor(Pad(i), ShiftRight(Pad(i), 1))
  {
  }

  lemma FirstClearIs(a: Bits, f: nat)
    requires f < |a| && !a[f] && forall k :: 0 <= k < f ==> a[k]
    ensures FirstClear(a) == f
  {
  }

  /** index++ on a digit that is not all ones stays within the digit. */
  lemma IncrementDigit(i: Bits)
    requires FirstClear(i) < |i| <= WIDTH
    ensures Increment(Pad(i)) == Pad(Increment(i))
  {
    hide FirstClear, Increment;
    FirstClearIs(Pad(i), FirstClear(i));
  }

  /** What index++, masked and moved up, hands to the next digit. */
  lemma CarryOn(i: Bits)
    requires 2 <= |i| < WIDTH
    ensures ShiftLeft(And(Increment(Pad(i)), Pad([true])), |i| - 1) == Carried(|i|, i[0])
  {
    assert Increment(Pad(i))[0] == !Pad(i)[0];
    MaskBit(Increment(Pad(i)));
    ShiftLeftPad([!i[0]], |i| - 1);
  }

  lemma MaskBit(w: Word)
    ensures And(w, Pad([true])) == Pad([w[0]])
  {
  }

  lemma AndNegate(w: Word, f: nat)
    requires f < WIDTH && w[f] && forall k :: 0 <= k < f ==> !w[k]
    ensures And(w, Negate(w)) == Unit(WIDTH, f)
  {
    FirstClearIs(Not(w), f);
  }

  lemma LowestSetBit(i: Bits)
    requires FirstClear(i) < |i| <= WIDTH
    ensures var w := Pad(Increment(i)); And(w, Negate(w)) == Pad(Unit(|i|, FirstClear(i)))
  {
    hide FirstClear, Increment, Negate;
    AndNegate(Pad(Increment(i)), FirstClear(i));
  }

  lemma RotateUnit(n: nat, f: nat, r: nat)
    requires f < n && r < n
    ensures RotateLeft(Unit(n, f), r) == Unit(n, Wrap(f + r, n))
  {
  }

  /** What the digit loop has recorded after j digits: where and in which coordinate the carry stops. */
  ghost predicate Recorded(n: nat, m: nat, ix: seq<Bits>, j: nat, rb: nat, rd: Word)
    requires 2 <= n < WIDTH && Digits(n, ix) && j <= |ix| == m
  {
    if IsLast(n, ix[..j]) then rb == m - 1 && rd == Pad(Ones(n))
    else rb == m - 1 - CarryAt(n, ix[..j]) && rd == Pad(Unit(n, ChangedDim(n, ix[..j])))
  }

  lemma RecordedStep(n: nat, m: nat, ix: seq<Bits>, j: nat, rb: nat, rd: Word)
    requires 2 <= n < WIDTH && Digits(n, ix) && j < |ix| == m && Recorded(n, m, ix, j, rb, rd)
    ensures ix[j] == Ones(n) ==> Recorded(n, m, ix, j + 1, rb, rd)
    ensures ix[j] != Ones(n) ==>
      FirstClear(ix[j]) < n && Recorded(n, m, ix, j + 1, m - 1 - j, Pad(Unit(n, StepDim(Descent(n, ix[..j]), ix[j]))))
  {
    var above, next := ix[..j], ix[..j + 1];
    assert next == above + [ix[j]] && next[..j] == above;
    if ix[j] == Ones(n) {
      if IsLast(n, above) {
        assert IsLast(n, next);
      } else {
        var l := CarryAt(n, above);
        assert next[l] != Ones(n);
        assert CarryAt(n, next) == l && next[..l] == above[..l];
      }
    } else {
      assert CarryAt(n, next) == j;
    }
    if ix[j] != Ones(n) {
      NotOnes(ix[j]);
    }
  }

  /** One turn of the digit loop: from the plane read to the index digit. */
  lemma PlaneTurn(n: nat, ix: seq<Bits>, j: nat)
    requires 2 <= n < WIDTH && Digits(n, ix) && j < |ix|
    ensures var s, c := Descent(n, ix[..j]), Cells(n, ix)[j]; var g := Gray(ix[j], s.odd);
      && RotateRightMacro(Xor(Pad(s.refl), Pad(c)), s.rot, n) == Pad(g)
      && Descent(n, ix[..j + 1]) == State(Adjust(s.rot, g), Xor(c, Unit(n, s.rot)), ix[j][0])
  {
    hide Cells, Descent, Gray, Adjust, GrayDigits, FlipOf, OnesMacro, RotateRightMacro, CellOf;
    var s, c := Descent(n, ix[..j]), Cells(n, ix)[j];
    DescendState(s, ix[j]);
    DigitAt(n, ix, j);
    DigitCell(s, ix[j]);
    assert Xor(s.refl, c) == Xor(c, s.refl);
    XorPad(s.refl, c);
    RotateMacros(Xor(s.refl, c), s.rot);
  }

  lemma DescendState(s: State, i: Bits)
    requires s.Valid(|i|)
    ensures Descend(s, i) == State(Adjust(s.rot, Gray(i, s.odd)), Xor(CellOf(s, i), Unit(|i|, s.rot)), i[0])
  {
  }

  /** The words of one turn, in terms of the digits. */
  lemma StepTurn(n: nat, ix: seq<Bits>, j: nat)
    requires 2 <= n < WIDTH && Digits(n, ix) && j < |ix|
    ensures var s, t, c, i := Descent(n, ix[..j]), Descent(n, ix[..j + 1]), Cells(n, ix)[j], ix[j];
      var g := RotateRightMacro(Xor(Pad(s.refl), Pad(c)), s.rot, n);
      && FitsBelow(g, n) && Adjust(s.rot, g[..n]) == t.rot
      && Xor(Carried(n, s.odd), g) == Xor(Pad(i), ShiftRight(Pad(i), 1)) && FitsBelow(Pad(i), n)
      && ShiftLeft(And(Increment(Pad(i)), Pad([true])), n - 1) == Carried(n, t.odd)
      && Xor(Pad(c), ShiftLeft(Pad([true]), s.rot)) == Pad(t.refl)
      && (Pad(i) == OnesMacro(n) <==> i == Ones(n))
  {
    hide Cells, Descent, Gray, Adjust, RotateRightMacro, Pad, Increment, Carried, FirstClear, OnesMacro, And, ShiftLeft, ShiftRight;
    var s, c, i := Descent(n, ix[..j]), Cells(n, ix)[j], ix[j];
    PlaneTurn(n, ix, j);
    PadPrefix(Gray(i, s.odd));
    PadPrefix(i);
    CarriedGray(i, s.odd);
    CarryOn(i);
    UnitWord(n, s.rot);
    XorPad(c, Unit(n, s.rot));
    OnesMacroValue(n);
    PadInjective(i, Ones(n));
  }

  lemma FoundDim(s: State, i: Bits)
    requires s.Valid(|i|) && |i| < WIDTH && FirstClear(i) < |i|
    ensures var w := Increment(Pad(i));
      RotateLeftMacro(And(w, Negate(w)), s.rot, |i|) == Pad(Unit(|i|, StepDim(s, i)))
  {
    hide FirstClear, Increment, Negate, RotateLeftMacro, RotateLeft, And, Pad, Unit, Wrap;
    IncrementDigit(i);
    LowestSetBit(i);
    RotateMacros(Unit(|i|, FirstClear(i)), s.rot);
    RotateUnit(|i|, FirstClear(i), s.rot);
  }

  /** The part of a turn that decodes the index digit and moves the state down. */
  method DecodePlane(nDims: nat, reflection0: Word, rotation0: nat, index0: Word, plane: Word, ghost ix: seq<Bits>, ghost j: nat)
    returns (index: Word, reflection: Word, rotation: nat)
    requires 2 <= nDims < WIDTH && Digits(nDims, ix) && j < |ix|
    requires rotation0 == Descent(nDims, ix[..j]).rot && reflection0 == Pad(Descent(nDims, ix[..j]).refl)
    requires index0 == Carried(nDims, Descent(nDims, ix[..j]).odd) && plane == Pad(Cells(nDims, ix)[j])
    ensures index == Pad(ix[j])
    ensures rotation == Descent(nDims, ix[..j + 1]).rot && reflection == Pad(Descent(nDims, ix[..j + 1]).refl)
  {
    hide Cells, Descent, Adjust, RotateRightMacro, Pad, Increment, Carried, FirstClear, OnesMacro, And, Or, ShiftLeft, ShiftRight;
    StepTurn(nDims, ix, j);
    var bits := RotateRightMacro(Xor(reflection0, plane), rotation0, nDims);
    index := PrefixBits(nDims, Xor(index0, bits), Pad(ix[j]));
    reflection := Xor(plane, ShiftLeft(Pad([true]), rotation0));
    rotation := AdjustRotation(rotation0, nDims, bits);
  }

  /** The part of a turn that records the step. */
  lemma RecordTurn(n: nat, m: nat, ix: seq<Bits>, j: nat, rb: nat, rd: Word)
    requires 2 <= n < WIDTH && Digits(n, ix) && j < |ix| == m && Recorded(n, m, ix, j, rb, rd)
    ensures var i, next, r := Pad(ix[j]), Increment(Pad(ix[j])), Descent(n, ix[..j]).rot;
      && ShiftLeft(And(next, Pad([true])), n - 1) == Carried(n, Descent(n, ix[..j + 1]).odd)
      && (i == OnesMacro(n) ==> Recorded(n, m, ix, j + 1, rb, rd))
      && (i != OnesMacro(n) ==> Recorded(n, m, ix, j + 1, m - 1 - j, RotateLeftMacro(And(next, Negate(next)), r, n)))
  {
    hide Cells, Descent, Adjust, RotateRightMacro, RotateLeftMacro, Pad, Increment, Carried, FirstClear, OnesMacro, And, Or, ShiftLeft, ShiftRight, Negate, StepDim;
    StepTurn(n, ix, j);
    RecordedStep(n, m, ix, j, rb, rd);
    if ix[j] != Ones(n) {
      FoundDim(Descent(n, ix[..j]), ix[j]);
    }
  }

  /** The digit loop: finds the coordinate to change and how many of its bits. */
  method FindStep(nDims: nat, nBits: nat, coord: array<Word>, ghost ix: seq<Bits>) returns (rb: nat, rd: Word)
    requires 2 <= nDims < WIDTH && 1 <= nBits <= WIDTH && coord.Length == nDims && InGrid(PointIn(coord[..]), nBits)
    requires ix == Indices(nDims, PointDigits(nBits, PointIn(coord[..])))
    ensures Recorded(nDims, nBits, ix, nBits, rb, rd)
  {
    hide Cells, Indices, PointDigits, Descent, RotateLeftMacro, Recorded, PlaneOf, Pad, Increment, Negate, Carried, FirstClear, OnesMacro, Unit, And, ShiftLeft, StepDim, PointIn, InGrid;
    OnesMacroValue(nDims);
    var ndOnes := OnesMacro(nDims);
    var rotation := 0;
    var reflection, index: Word := Zeros(WIDTH), Zeros(WIDTH);
    rb, rd := nBits - 1, ndOnes;
    var b := nBits;
    ghost var j := 0;
    CellsOfIndices(nDims, PointDigits(nBits, PointIn(coord[..])));
    StepStart(nDims, nBits, ix);
    while b != 0
      invariant 0 <= b <= nBits && j == nBits - b
      invariant rotation == Descent(nDims, ix[..j]).rot && reflection == Pad(Descent(nDims, ix[..j]).refl)
      invariant index == Carried(nDims, Descent(nDims, ix[..j]).odd)
      invariant Recorded(nDims, nBits, ix, j, rb, rd)
    {
      b := b - 1;
      PlaneIsDigit(coord[..], nBits, b);
      RecordTurn(nDims, nBits, ix, j, rb, rd);
      var plane := ReadPlane(nDims, coord, b);
      var r := rotation;
      index, reflection, rotation := DecodePlane(nDims, reflection, rotation, index, plane, ix, j);
      var full := index == ndOnes;
      index := Increment(index);
      if !full {
        rb := b;
        rd := RotateLeftMacro(And(index, Negate(index)), r, nDims);
      }
      index := ShiftLeft(And(index, Pad([true])), nDims - 1);
      j := j + 1;
    }
  }

  lemma PadInjective(a: Bits, b: Bits)
    requires |a| == |b| <= WIDTH
    ensures Pad(a) == Pad(b) <==> a == b
  {
    PadPrefix(a);
    PadPrefix(b);
  }

  lemma StepStart(n: nat, m: nat, ix: seq<Bits>)
    requires 2 <= n < WIDTH && Digits(n, ix) && |ix| == m >= 1
    ensures Descent(n, ix[..0]) == Start(n) && Pad(Zeros(n)) == Zeros(WIDTH) && Carried(n, true) == Zeros(WIDTH)
    ensures Recorded(n, m, ix, 0, m - 1, Pad(Ones(n)))
  {
  }

  lemma FitsValue(w: Word, m: nat)
    requires m <= WIDTH
    ensures FitsBelow(w, m) <==> Value(w) < Pow2(m)
  {
    if FitsBelow(w, m) {
      assert w == Pad(w[..m]);
      ValuePad(w[..m]);
      ValueBound(w[..m]);
    } else if Value(w) < Pow2(m) {
      WordIsField(w, m);
    }
  }

  /** The coordinates with the bits of coordinate d below k flipped. */
  function FlipLow(coord: seq<Word>, d: nat, k: nat): (r: seq<Word>)
    requires d < |coord| && k <= WIDTH
    ensures |r| == |coord|
  {
    coord[d := Xor(coord[d], Pad(Ones(k)))]
  }

  lemma FlipLowInGrid(coord: seq<Word>, d: nat, k: nat, m: nat)
    requires d < |coord| && k <= m <= WIDTH && InGrid(PointIn(coord), m)
    ensures InGrid(PointIn(FlipLow(coord, d, k)), m)
  {
    var r := FlipLow(coord, d, k);
    forall e | 0 <= e < |coord|
      ensures PointIn(r)[e] < Pow2(m)
    {
      FitsValue(coord[e], m);
      FitsValue(r[e], m);
    }
  }

  lemma FlipLowPlanes(coord: seq<Word>, d: nat, k: nat, b: nat)
    requires d < |coord| && k <= WIDTH && b < WIDTH
    ensures PlaneOf(FlipLow(coord, d, k), b) == if b < k then Flip(PlaneOf(coord, b), d) else PlaneOf(coord, b)
  {
  }

  lemma SteppedDigit(cs: seq<Bits>, cs': seq<Bits>, j: nat, d: nat, l: nat)
    requires StepsTo(cs, cs', j, d) && l < |cs|
    ensures |cs'| == |cs| && (if l < j then cs'[l] == cs[l] else d < |cs[l]| && cs'[l] == Flip(cs[l], d))
  {
  }

  /** Flipping the low bits of the changed coordinate, up to the carry digit, gives the digits of the next point. */
  lemma FlippedDigits(n: nat, m: nat, coord: seq<Word>, ix: seq<Bits>)
    requires n >= 2 && |coord| == n && m <= WIDTH && InGrid(PointIn(coord), m)
    requires ix == Indices(n, PointDigits(m, PointIn(coord))) && !IsLast(n, ix)
    ensures var r := FlipLow(coord, ChangedDim(n, ix), m - CarryAt(n, ix));
      InGrid(PointIn(r), m) && PointDigits(m, PointIn(r)) == Cells(n, Successor(n, ix))
  {
    hide Cells, Indices, PointDigits, PointIn, FlipLow, PlaneOf, ChangedDim, CarryAt, Successor, IsLast, StepsTo, Facing, InGrid, Descent;
    var d, j := ChangedDim(n, ix), CarryAt(n, ix);
    var r, cs := FlipLow(coord, d, m - j), Cells(n, Successor(n, ix));
    CellsOfIndices(n, PointDigits(m, PointIn(coord)));
    SuccessorCells(n, ix);
    FlipLowInGrid(coord, d, m - j, m);
    forall l | 0 <= l < m
      ensures PointDigits(m, PointIn(r))[l] == cs[l]
    {
      SteppedDigit(Cells(n, ix), cs, j, d, l);
      PlaneIsDigit(coord, m, m - 1 - l);
      PlaneIsDigit(r, m, m - 1 - l);
      FlipLowPlanes(coord, d, m - j, m - 1 - l);
    }
  }

  lemma NextPoint(n: nat, m: nat, coord: seq<Word>, ix: seq<Bits>)
    requires n >= 2 && |coord| == n && 1 <= m <= WIDTH && InGrid(PointIn(coord), m)
    requires ix == Indices(n, PointDigits(m, PointIn(coord)))
    ensures Index(n, m, PointIn(coord)) + 1 < Size(n, m) ==> !IsLast(n, ix)
    ensures Index(n, m, PointIn(coord)) + 1 == Size(n, m) ==> IsLast(n, ix)
    ensures !IsLast(n, ix) ==> PointIn(FlipLow(coord, ChangedDim(n, ix), m - CarryAt(n, ix))) == PointAt(n, m, Index(n, m, PointIn(coord)) + 1)
  {
    hide Cells, Indices, PointDigits, PointIn, FlipLow, ChangedDim, CarryAt, Successor, IsLast, Number, IndexDigits, PointOf;
    var x := Index(n, m, PointIn(coord));
    IndexIs(n, m, PointIn(coord));
    DigitsOfNumber(n, ix);
    if IsLast(n, ix) {
      NumberOfLast(n, ix);
    } else {
      NumberSuccessor(n, ix);
      DigitsOfNumber(n, Successor(n, ix));
      FlippedDigits(n, m, coord, ix);
      PointOfDigits(m, PointIn(FlipLow(coord, ChangedDim(n, ix), m - CarryAt(n, ix))));
      PointIs(n, m, x + 1);
    }
  }

  /** hilbert_incr. */
  method HilbertIncr(nDims: nat, nBits: nat, coord: array<Word>)
    requires 2 <= nDims < WIDTH && 1 <= nBits <= 30 && coord.Length == nDims && InGrid(PointIn(coord[..]), nBits)
    modifies coord
    ensures var x := Index(nDims, nBits, PointIn(old(coord[..])));
      && (x + 1 < Size(nDims, nBits) ==> PointIn(coord[..]) == PointAt(nDims, nBits, x + 1))
      && (x + 1 == Size(nDims, nBits) ==> coord[..] == FlipLow(old(coord[..]), 0, nBits))
  {
    hide Indices, PointDigits, PointIn, ChangedDim, CarryAt, IsLast, OnesMacro, Index, PointAt, Size, InGrid;
    ghost var p := PointIn(coord[..]);
    ghost var ix := Indices(nDims, PointDigits(nBits, p));
    var rb, rd := FindStep(nDims, nBits, coord, ix);
    assert ix[..nBits] == ix;
    NextPoint(nDims, nBits, coord[..], ix);
    ghost var target := if IsLast(nDims, ix) then 0 else ChangedDim(nDims, ix);
    assert rd[target];
    var d := 0;
    while !rd[d]
      invariant 0 <= d <= target && forall e :: 0 <= e < d ==> !rd[e]
      decreases target - d
    {
      d := d + 1;
    }
    OnesMacroValue(rb + 1);
    ghost var v := coord[..];
    coord[d] := Xor(coord[d], OnesMacro(rb + 1));
    assert coord[..] == FlipLow(v, d, rb + 1);
  }
}
