/**
 * The Hilbert curve on digits.
 *
 * An index of nDims * nBits bits is a sequence of nBits digits of nDims bits, highest digit first.
 * A point is written the same way: digit j holds bit nBits-1-j of every coordinate, coordinate d at
 * position d. Walking down the digits carries a state: the rotation, the reflection (the coordinate
 * digit above xor the flipped bit) and whether the index digit above was odd.
 */
module HilbertCurve {
  import opened BitStrings

  datatype State = State(rot: nat, refl: Bits, odd: bool) {
    predicate Valid(n: nat) {
      n >= 2 && |refl| == n && rot < n
    }
  }

  function Start(n: nat): (s: State)
    requires n >= 2
    ensures s.Valid(n)
  {
    State(0, Zeros(n), true)
  }

  /** The rotation below a digit whose Gray form is g: adjust_rotation. */
  function Adjust(rot: nat, g: Bits): (r: nat)
    requires |g| >= 2 && rot < |g|
    ensures r < |g|
  {
    var f := FirstSet(g);
    Wrap(rot + 1 + if f < |g| - 1 then f + 1 else 0, |g|)
  }

  /** Gray code of an index digit, entered from an odd or an even digit above. */
  function Gray(i: Bits, odd: bool): (g: Bits)
    ensures |g| == |i|
    ensures forall k {:trigger g[k]} :: 0 <= k < |i| ==> g[k] == (i[k] != if k + 1 < |i| then i[k + 1] else !odd)
  {
    seq(|i|, k requires 0 <= k < |i| => i[k] != if k + 1 < |i| then i[k + 1] else !odd)
  }

  /** Inverse of Gray: every bit is the parity of the bits from it upwards. */
  function Ungray(g: Bits, odd: bool): (i: Bits)
    ensures |i| == |g|
  {
    seq(|g|, k requires 0 <= k < |g| => Parity(g[k..]) != !odd)
  }

  /** The coordinate digit visited for index digit i. */
  function CellOf(s: State, i: Bits): (c: Bits)
    requires s.Valid(|i|)
    ensures |c| == |i|
  {
    Xor(RotateLeft(Gray(i, s.odd), s.rot), s.refl)
  }

  function GrayOf(s: State, c: Bits): (g: Bits)
    requires s.Valid(|c|)
    ensures |g| == |c|
  {
    RotateRight(Xor(c, s.refl), s.rot)
  }

  /** The index digit under which coordinate digit c is visited. */
  function DigitOf(s: State, c: Bits): (i: Bits)
    requires s.Valid(|c|)
    ensures |i| == |c|
  {
    Ungray(GrayOf(s, c), s.odd)
  }

  /** The state below index digit i. */
  function Descend(s: State, i: Bits): (t: State)
    requires s.Valid(|i|)
    ensures t.Valid(|i|)
  {
    State(Adjust(s.rot, Gray(i, s.odd)), Xor(CellOf(s, i), Unit(|i|, s.rot)), i[0])
  }

  ghost predicate Digits(n: nat, ds: seq<Bits>) {
    forall j :: 0 <= j < |ds| ==> |ds[j]| == n
  }

  function Descent(n: nat, ix: seq<Bits>): (s: State)
    requires n >= 2 && Digits(n, ix)
    ensures s.Valid(n)
  {
    if ix == [] then Start(n) else Descend(Descent(n, ix[..|ix| - 1]), ix[|ix| - 1])
  }

  /** Index digits to coordinate digits. */
  function Cells(n: nat, ix: seq<Bits>): (cs: seq<Bits>)
    requires n >= 2 && Digits(n, ix)
    ensures |cs| == |ix| && Digits(n, cs)
  {
    if ix == [] then []
    else Cells(n, ix[..|ix| - 1]) + [CellOf(Descent(n, ix[..|ix| - 1]), ix[|ix| - 1])]
  }

  /** Coordinate digits to index digits. */
  function Indices(n: nat, cs: seq<Bits>): (ix: seq<Bits>)
    requires n >= 2 && Digits(n, cs)
    ensures |ix| == |cs| && Digits(n, ix)
  {
    if cs == [] then []
    else
      var above := Indices(n, cs[..|cs| - 1]);
      above + [DigitOf(Descent(n, above), cs[|cs| - 1])]
  }

  // ----- the two directions are inverse

  lemma UngrayGray(i: Bits, odd: bool)
    ensures Ungray(Gray(i, odd), odd) == i
  {
    forall k | 0 <= k < |i|
      ensures Parity(Gray(i, odd)[k..]) == (i[k] != !odd)
    {
      GrayParity(i, odd, k);
    }
  }

  lemma {:induction false} GrayParity(i: Bits, odd: bool, k: nat)
    requires k < |i|
    ensures Parity(Gray(i, odd)[k..]) == (i[k] != !odd)
    decreases |i| - k
  {
    var g := Gray(i, odd);
    assert g[k..][1..] == g[k + 1..];
    if k + 1 < |i| {
      GrayParity(i, odd, k + 1);
    }
  }

  lemma GrayUngray(g: Bits, odd: bool)
    ensures Gray(Ungray(g, odd), odd) == g
  {
    forall k | 0 <= k < |g|
      ensures Gray(Ungray(g, odd), odd)[k] == g[k]
    {
      assert Parity(g[k..]) == (g[k] != Parity(g[k + 1..])) by {
        assert g[k..][0] == g[k] && g[k..][1..] == g[k + 1..];
      }
      if k + 1 == |g| {
        assert g[k + 1..] == [];
      }
    }
  }

  lemma DigitCell(s: State, i: Bits)
    requires s.Valid(|i|)
    ensures GrayOf(s, CellOf(s, i)) == Gray(i, s.odd)
    ensures DigitOf(s, CellOf(s, i)) == i
  {
    var g := Gray(i, s.odd);
    assert Xor(CellOf(s, i), s.refl) == RotateLeft(g, s.rot);
    RotateRoundTrip(g, s.rot);
    UngrayGray(i, s.odd);
  }

  lemma CellDigit(s: State, c: Bits)
    requires s.Valid(|c|)
    ensures CellOf(s, DigitOf(s, c)) == c
  {
    GrayUngray(GrayOf(s, c), s.odd);
    RotateRoundTrip(Xor(c, s.refl), s.rot);
    assert Xor(Xor(c, s.refl), s.refl) == c;
  }

  lemma CellsSnoc(n: nat, above: seq<Bits>, low: Bits)
    requires n >= 2 && Digits(n, above) && |low| == n
    ensures Digits(n, above + [low])
    ensures Cells(n, above + [low]) == Cells(n, above) + [CellOf(Descent(n, above), low)]
    ensures Descent(n, above + [low]) == Descend(Descent(n, above), low)
  {
    assert (above + [low])[..|above|] == above;
  }

  lemma IndicesSnoc(n: nat, above: seq<Bits>, low: Bits)
    requires n >= 2 && Digits(n, above) && |low| == n
    ensures Digits(n, above + [low])
    ensures Indices(n, above + [low]) == Indices(n, above) + [DigitOf(Descent(n, Indices(n, above)), low)]
  {
    assert (above + [low])[..|above|] == above;
  }

  lemma {:induction false} IndicesOfCells(n: nat, ix: seq<Bits>)
    requires n >= 2 && Digits(n, ix)
    ensures Indices(n, Cells(n, ix)) == ix
  {
    if ix != [] {
      var above, low := ix[..|ix| - 1], ix[|ix| - 1];
      var s := Descent(n, above);
      assert ix == above + [low];
      IndicesOfCells(n, above);
      DigitCell(s, low);
      CellsSnoc(n, above, low);
      IndicesSnoc(n, Cells(n, above), CellOf(s, low));
    }
  }

  lemma {:induction false} CellsOfIndices(n: nat, cs: seq<Bits>)
    requires n >= 2 && Digits(n, cs)
    ensures Cells(n, Indices(n, cs)) == cs
  {
    if cs != [] {
      var above, low := cs[..|cs| - 1], cs[|cs| - 1];
      var s := Descent(n, Indices(n, above));
      assert cs == above + [low];
      CellsOfIndices(n, above);
      CellDigit(s, low);
      IndicesSnoc(n, above, low);
      CellsSnoc(n, Indices(n, above), DigitOf(s, low));
    }
  }

  // ----- corners where the curve enters and leaves a cube

  function Previous(rot: nat, n: nat): (r: nat)
    requires rot < n
    ensures r < n
  {
    if rot == 0 then n - 1 else rot - 1
  }

  function Flip(c: Bits, d: nat): (r: Bits)
    requires d < |c|
    ensures |r| == |c|
  {
    c[d := !c[d]]
  }

  function Entry(s: State, n: nat): (c: Bits)
    requires s.Valid(n)
    ensures |c| == n
  {
    if s.odd then s.refl else Flip(s.refl, Previous(s.rot, n))
  }

  function Exit(s: State, n: nat): (c: Bits)
    requires s.Valid(n)
    ensures |c| == n
  {
    if s.odd then Flip(s.refl, Previous(s.rot, n)) else s.refl
  }

  /** The Gray form of the first or last digit of a cube has at most its top bit set. */
  lemma {:induction false} TopDigit(s: State, g: Bits, top: bool)
    requires s.Valid(|g|)
    requires g == if top then Unit(|g|, |g| - 1) else Zeros(|g|)
    ensures Xor(RotateLeft(g, s.rot), s.refl) == if top then Flip(s.refl, Previous(s.rot, |g|)) else s.refl
    ensures Adjust(s.rot, g) == Wrap(s.rot + 1, |g|)
    ensures Previous(Adjust(s.rot, g), |g|) == s.rot
  {
    hide RotateLeft, Xor, FirstSet;
    TopFirst(g, top);
    if top {
      TopRotated(s, g);
    } else {
      NothingRotated(s, g);
    }
  }

  lemma TopFirst(g: Bits, top: bool)
    requires |g| >= 2 && g == if top then Unit(|g|, |g| - 1) else Zeros(|g|)
    ensures FirstSet(g) >= |g| - 1
  {
    if FirstSet(g) < |g| {
      assert g[FirstSet(g)];
    }
  }

  lemma TopRotated(s: State, g: Bits)
    requires s.Valid(|g|) && g == Unit(|g|, |g| - 1)
    ensures Xor(RotateLeft(g, s.rot), s.refl) == Flip(s.refl, Previous(s.rot, |g|))
  {
    assert g[|g| - 1];
  }

  lemma NothingRotated(s: State, g: Bits)
    requires s.Valid(|g|) && g == Zeros(|g|)
    ensures Xor(RotateLeft(g, s.rot), s.refl) == s.refl
  {
  }

  lemma {:induction false} EntryStays(s: State, n: nat)
    requires s.Valid(n)
    ensures CellOf(s, Zeros(n)) == Entry(s, n) == Entry(Descend(s, Zeros(n)), n)
  {
    hide Gray, RotateLeft, Xor, Flip, Adjust, FirstSet;
    GrayZeros(n, s.odd);
    TopDigit(s, Gray(Zeros(n), s.odd), !s.odd);
    FlipTwice(Entry(s, n), s.rot);
  }

  lemma {:induction false} GrayZeros(n: nat, odd: bool)
    requires n >= 2
    ensures Gray(Zeros(n), odd) == if odd then Zeros(n) else Unit(n, n - 1)
  {
  }

  lemma {:induction false} FlipTwice(c: Bits, d: nat)
    requires d < |c|
    ensures Flip(Xor(c, Unit(|c|, d)), d) == c
  {
  }

  lemma {:induction false} ExitStays(s: State, n: nat)
    requires s.Valid(n)
    ensures CellOf(s, Ones(n)) == Exit(s, n) == Exit(Descend(s, Ones(n)), n)
  {
    var g := Gray(Ones(n), s.odd);
    assert g == if s.odd then Unit(n, n - 1) else Zeros(n);
    TopDigit(s, g, s.odd);
    assert Flip(Xor(Exit(s, n), Unit(n, s.rot)), s.rot) == Exit(s, n);
  }

  // ----- consecutive digits of one cube

  /** The coordinate in which the cells of digits i and i+1 differ. */
  function StepDim(s: State, i: Bits): (d: nat)
    requires s.Valid(|i|) && FirstClear(i) < |i|
    ensures d < |i|
  {
    Wrap(FirstClear(i) + s.rot, |i|)
  }

  lemma {:induction false} GrayIncrement(i: Bits, odd: bool)
    requires FirstClear(i) < |i|
    ensures Gray(Increment(i), odd) == Flip(Gray(i, odd), FirstClear(i))
  {
    var b, i', g, g' := FirstClear(i), Increment(i), Gray(i, odd), Gray(Increment(i), odd);
    forall k | 0 <= k < |i|
      ensures g'[k] == Flip(g, b)[k]
    {
      var up, up' := if k + 1 < |i| then i[k + 1] else !odd, if k + 1 < |i| then i'[k + 1] else !odd;
      assert g[k] == (i[k] != up) && g'[k] == (i'[k] != up');
    }
  }

  lemma FirstSetIs(g: Bits, f: nat)
    requires f < |g| && g[f] && forall k :: 0 <= k < f ==> !g[k]
    ensures FirstSet(g) == f
  {
  }

  lemma XorUnit(c: Bits, k: nat)
    requires k < |c|
    ensures Xor(c, Unit(|c|, k)) == Flip(c, k)
  {
  }

  lemma FlipCommutes(c: Bits, d: nat, e: nat)
    requires d < |c| && e < |c|
    ensures Flip(Flip(c, d), e) == Flip(Flip(c, e), d)
  {
  }

  /** After an even digit the curve leaves, and before an odd one it entered, at the cell flipped in the rotation. */
  lemma {:induction false} InnerCorner(s: State, i: Bits)
    requires s.Valid(|i|)
    ensures i[0] ==> Entry(Descend(s, i), |i|) == Flip(CellOf(s, i), s.rot)
    ensures !i[0] ==> Exit(Descend(s, i), |i|) == Flip(CellOf(s, i), s.rot)
  {
    XorUnit(CellOf(s, i), s.rot);
  }

  /** On the other side the corner is flipped also in the coordinate above the lowest set Gray bit. */
  lemma {:induction false} OuterCorner(s: State, i: Bits, b: nat)
    requires s.Valid(|i|) && 0 < b < |i| && FirstSet(Gray(i, s.odd)) == b - 1
    ensures i[0] ==> Exit(Descend(s, i), |i|) == Flip(Flip(CellOf(s, i), s.rot), Wrap(b + s.rot, |i|))
    ensures !i[0] ==> Entry(Descend(s, i), |i|) == Flip(Flip(CellOf(s, i), s.rot), Wrap(b + s.rot, |i|))
  {
    XorUnit(CellOf(s, i), s.rot);
    assert Previous(Adjust(s.rot, Gray(i, s.odd)), |i|) == Wrap(b + s.rot, |i|);
  }

  lemma GrayLowest(i: Bits, odd: bool, b: nat)
    requires 0 < b < |i| && i[b - 1] != i[b]
    requires forall k :: 0 <= k < b - 1 ==> i[k] == i[k + 1]
    ensures FirstSet(Gray(i, odd)) == b - 1
  {
    var g := Gray(i, odd);
    assert g[b - 1];
    assert forall k :: 0 <= k < b - 1 ==> !g[k];
    FirstSetIs(g, b - 1);
  }

  /** Below digit i the curve leaves, and below i+1 it enters, at facing corners of the two cells. */
  lemma Neighbours(s: State, i: Bits)
    requires s.Valid(|i|) && FirstClear(i) < |i|
    ensures CellOf(s, Increment(i)) == Flip(CellOf(s, i), StepDim(s, i))
    ensures Entry(Descend(s, Increment(i)), |i|) == Flip(Exit(Descend(s, i), |i|), StepDim(s, i))
    ensures Exit(Descend(s, i), |i|)[StepDim(s, i)] != CellOf(s, i)[StepDim(s, i)]
  {
    hide CellOf, Descend, Entry, Exit, Gray, FirstSet, Increment, FirstClear, Wrap;
    CellStep(s, i);
    if FirstClear(i) == 0 {
      InnerNeighbours(s, i);
    } else {
      OuterNeighbours(s, i);
    }
  }

  lemma {:induction false} InnerNeighbours(s: State, i: Bits)
    requires s.Valid(|i|) && FirstClear(i) == 0 && i != [] && CellOf(s, Increment(i)) == Flip(CellOf(s, i), StepDim(s, i))
    ensures Entry(Descend(s, Increment(i)), |i|) == Flip(Exit(Descend(s, i), |i|), StepDim(s, i))
    ensures Exit(Descend(s, i), |i|)[StepDim(s, i)] != CellOf(s, i)[StepDim(s, i)]
  {
    hide CellOf, Descend, Entry, Exit, Gray, FirstSet;
    FlipCommutes(CellOf(s, i), StepDim(s, i), s.rot);
    InnerCorner(s, i);
    InnerCorner(s, Increment(i));
  }

  lemma {:induction false} OuterNeighbours(s: State, i: Bits)
    requires s.Valid(|i|) && 0 < FirstClear(i) < |i| && CellOf(s, Increment(i)) == Flip(CellOf(s, i), StepDim(s, i))
    ensures Entry(Descend(s, Increment(i)), |i|) == Flip(Exit(Descend(s, i), |i|), StepDim(s, i))
    ensures Exit(Descend(s, i), |i|)[StepDim(s, i)] != CellOf(s, i)[StepDim(s, i)]
  {
    hide CellOf, Descend, Entry, Exit, Gray, FirstSet;
    var c, d, b := CellOf(s, i), StepDim(s, i), FirstClear(i);
    FlipCommutes(c, d, s.rot);
    GrayLowest(i, s.odd, b);
    GrayLowest(Increment(i), s.odd, b);
    OuterCorner(s, i, b);
    OuterCorner(s, Increment(i), b);
    FlipCommutes(Flip(c, s.rot), d, d);
  }

  lemma {:induction false} FlippedCell(s: State, i: Bits, i': Bits, b: nat)
    requires s.Valid(|i|) && |i'| == |i| && b < |i| && Gray(i', s.odd) == Flip(Gray(i, s.odd), b)
    ensures CellOf(s, i') == Flip(CellOf(s, i), Wrap(b + s.rot, |i|))
  {
    hide Gray, RotateLeft, Xor, Flip, Wrap;
    FlipCell(s, Gray(i, s.odd), b);
  }

  lemma {:induction false} CellStep(s: State, i: Bits)
    requires s.Valid(|i|) && FirstClear(i) < |i|
    ensures CellOf(s, Increment(i)) == Flip(CellOf(s, i), StepDim(s, i))
  {
    hide Gray, RotateLeft, Xor, Flip, Increment, FirstClear, Wrap, CellOf;
    GrayIncrement(i, s.odd);
    FlippedCell(s, i, Increment(i), FirstClear(i));
  }

  lemma {:induction false} FlipCell(s: State, g: Bits, b: nat)
    requires s.Valid(|g|) && b < |g|
    ensures Xor(RotateLeft(Flip(g, b), s.rot), s.refl) == Flip(Xor(RotateLeft(g, s.rot), s.refl), Wrap(b + s.rot, |g|))
  {
    RotateDifference(g, Flip(g, b), s.rot, b);
    XorFlip(RotateLeft(g, s.rot), s.refl, Wrap(b + s.rot, |g|));
  }

  lemma XorFlip(a: Bits, r: Bits, d: nat)
    requires d < |a| == |r|
    ensures Xor(Flip(a, d), r) == Flip(Xor(a, r), d)
  {
  }

  // ----- the successor of an index

  ghost predicate IsLast(n: nat, ix: seq<Bits>)
    requires Digits(n, ix)
  {
    forall j :: 0 <= j < |ix| ==> ix[j] == Ones(n)
  }

  /** The digit an increment changes last: the lowest one that is not all ones. */
  function CarryAt(n: nat, ix: seq<Bits>): (j: nat)
    requires Digits(n, ix) && !IsLast(n, ix)
    ensures j < |ix| && ix[j] != Ones(n) && forall l :: j < l < |ix| ==> ix[l] == Ones(n)
  {
    if ix[|ix| - 1] != Ones(n) then |ix| - 1 else CarryAt(n, ix[..|ix| - 1])
  }

  function Successor(n: nat, ix: seq<Bits>): (r: seq<Bits>)
    requires Digits(n, ix) && !IsLast(n, ix)
    ensures |r| == |ix| && Digits(n, r)
  {
    var above, low := ix[..|ix| - 1], ix[|ix| - 1];
    if low != Ones(n) then above + [Increment(low)] else Successor(n, above) + [Zeros(n)]
  }

  /** The coordinate that changes from an index to its successor. */
  function ChangedDim(n: nat, ix: seq<Bits>): (d: nat)
    requires n >= 2 && Digits(n, ix) && !IsLast(n, ix)
    ensures d < n
  {
    var j := CarryAt(n, ix);
    NotOnes(ix[j]);
    StepDim(Descent(n, ix[..j]), ix[j])
  }

  lemma NotOnes(i: Bits)
    requires i != Ones(|i|)
    ensures FirstClear(i) < |i|
  {
  }

  /** From digit j downwards bit d of every digit flips, bit d of digit j opposing those below it. */
  ghost predicate StepsTo(cs: seq<Bits>, cs': seq<Bits>, j: nat, d: nat) {
    && |cs| == |cs'| && j < |cs|
    && (forall l :: 0 <= l < j ==> cs'[l] == cs[l])
    && (forall l :: j <= l < |cs| ==> d < |cs[l]| && cs'[l] == Flip(cs[l], d))
    && (forall l :: j < l < |cs| ==> cs[l][d] != cs[j][d])
  }

  /** The corners at which the curve leaves the cell of one index and enters that of the next face each other. */
  ghost predicate Facing(s: State, s': State, n: nat, c: Bits, d: nat)
    requires s.Valid(n) && s'.Valid(n) && |c| == n && d < n
  {
    Entry(s', n) == Flip(Exit(s, n), d) && Exit(s, n)[d] != c[d]
  }

  lemma {:induction false} StepCells(n: nat, above: seq<Bits>, low: Bits)
    requires n >= 2 && Digits(n, above) && |low| == n && FirstClear(low) < n
    ensures var ix, ix', d := above + [low], above + [Increment(low)], StepDim(Descent(n, above), low);
      && StepsTo(Cells(n, ix), Cells(n, ix'), |above|, d)
      && Facing(Descent(n, ix), Descent(n, ix'), n, Cells(n, ix)[|above|], d)
  {
    hide Cells, Descent, CellOf, Descend, Increment, FirstClear, StepDim, StepsTo, Entry, Exit;
    Neighbours(Descent(n, above), low);
    CellsSnoc(n, above, low);
    CellsSnoc(n, above, Increment(low));
    StepsAtEnd(Cells(n, above), CellOf(Descent(n, above), low), StepDim(Descent(n, above), low));
  }

  lemma StepsAtEnd(cs: seq<Bits>, c: Bits, d: nat)
    requires d < |c|
    ensures StepsTo(cs + [c], cs + [Flip(c, d)], |cs|, d)
  {
  }

  lemma CarryCells(n: nat, above: seq<Bits>, above': seq<Bits>, j: nat, d: nat)
    requires n >= 2 && Digits(n, above) && Digits(n, above') && j < |above| && d < n
    requires StepsTo(Cells(n, above), Cells(n, above'), j, d)
    requires Facing(Descent(n, above), Descent(n, above'), n, Cells(n, above)[j], d)
    ensures Digits(n, above + [Ones(n)]) && Digits(n, above' + [Zeros(n)]) && |Cells(n, above + [Ones(n)])| == |above| + 1
    ensures var ix, ix' := above + [Ones(n)], above' + [Zeros(n)];
      && StepsTo(Cells(n, ix), Cells(n, ix'), j, d)
      && Facing(Descent(n, ix), Descent(n, ix'), n, Cells(n, ix)[j], d)
  {
    ExitStays(Descent(n, above), n);
    EntryStays(Descent(n, above'), n);
    CellsSnoc(n, above, Ones(n));
    CellsSnoc(n, above', Zeros(n));
    var cs, cs' := Cells(n, above), Cells(n, above');
    StepsToSnoc(cs, cs', Exit(Descent(n, above), n), Entry(Descent(n, above'), n), j, d);
  }

  lemma StepsToSnoc(cs: seq<Bits>, cs': seq<Bits>, x: Bits, e: Bits, j: nat, d: nat)
    requires StepsTo(cs, cs', j, d) && d < |x| && e == Flip(x, d) && x[d] != cs[j][d]
    ensures StepsTo(cs + [x], cs' + [e], j, d)
  {
  }

  /**
   * Consecutive indices visit neighbouring points: only coordinate ChangedDim changes, in its bits
   * from the carry digit downwards.
   */
  lemma {:induction false} SuccessorCells(n: nat, ix: seq<Bits>)
    requires n >= 2 && Digits(n, ix) && !IsLast(n, ix)
    ensures StepsTo(Cells(n, ix), Cells(n, Successor(n, ix)), CarryAt(n, ix), ChangedDim(n, ix))
    ensures Facing(Descent(n, ix), Descent(n, Successor(n, ix)), n, Cells(n, ix)[CarryAt(n, ix)], ChangedDim(n, ix))
  {
    hide Cells, Descent, StepsTo, Facing, StepDim, Increment, FirstClear;
    var above, low := ix[..|ix| - 1], ix[|ix| - 1];
    assert ix == above + [low];
    if low != Ones(n) {
      NotOnes(low);
      StepCells(n, above, low);
    } else {
      assert !IsLast(n, above);
      SuccessorCells(n, above);
      assert ix[..CarryAt(n, above)] == above[..CarryAt(n, above)];
      CarryCells(n, above, Successor(n, above), CarryAt(n, above), ChangedDim(n, above));
    }
  }

  // ----- parity

  lemma GrayDigitParity(i: Bits, odd: bool)
    requires i != []
    ensures Parity(Gray(i, odd)) == (i[0] != !odd)
  {
    GrayParity(i, odd, 0);
    assert Gray(i, odd)[0..] == Gray(i, odd);
  }

  /** An index digit is odd exactly when the number of ones in its coordinate digit is. */
  lemma {:induction false} DigitParity(n: nat, ix: seq<Bits>)
    requires n >= 2 && Digits(n, ix) && ix != []
    ensures Parity(Cells(n, ix)[|ix| - 1]) == ix[|ix| - 1][0]
  {
    var above, low := ix[..|ix| - 1], ix[|ix| - 1];
    var s := Descent(n, above);
    var g := Gray(low, s.odd);
    ParityXor(RotateLeft(g, s.rot), s.refl);
    ParityRotate(g, s.rot);
    GrayDigitParity(low, s.odd);
    if above == [] {
      ParityZeros(n);
    } else {
      DigitParity(n, above);
      var s0 := Descent(n, above[..|above| - 1]);
      ParityXor(CellOf(s0, above[|above| - 1]), Unit(n, s0.rot));
      ParityUnit(n, s0.rot);
    }
  }
}
