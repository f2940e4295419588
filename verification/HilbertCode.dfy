/** hilbert_c2i and hilbert_i2c as loops over 64-bit words. */
module HilbertCode {
  import opened Arithmetic
  import opened BitStrings
  import opened MachineWords
  import opened Transposition
  import opened HilbertCurve
  import opened HilbertIndex

  // ----- macros

  function RotateLeftMacro(arg: Word, nRots: nat, nDims: nat): Word
    requires nRots < nDims < WIDTH
  {
    And(Or(ShiftLeft(arg, nRots), ShiftRight(arg, nDims - nRots)), OnesMacro(nDims))
  }

  function RotateRightMacro(arg: Word, nRots: nat, nDims: nat): Word
    requires nRots < nDims < WIDTH
  {
    And(Or(ShiftRight(arg, nRots), ShiftLeft(arg, nDims - nRots)), OnesMacro(nDims))
  }

  lemma RotateMacros(a: Bits, r: nat)
    requires r < |a| < WIDTH
    ensures RotateLeftMacro(Pad(a), r, |a|) == Pad(RotateLeft(a, r))
    ensures RotateRightMacro(Pad(a), r, |a|) == Pad(RotateRight(a, r))
  {
    OnesMacroValue(|a|);
  }

  predicate NonZero(w: Word) {
    FirstSet(w) < WIDTH
  }

  lemma UnitNonZero(left: nat)
    requires left <= WIDTH
    ensures NonZero(if left > 0 then Unit(WIDTH, left - 1) else Zeros(WIDTH)) <==> left > 0
  {
    if left > 0 {
      assert Unit(WIDTH, left - 1)[left - 1];
    }
  }

  /** The adjust_rotation macro: keep the lowest set bit unless it is the top one, and count it down. */
  method AdjustRotation(rotation0: nat, nDims: nat, bits0: Word) returns (rotation: nat)
    requires 2 <= nDims < WIDTH && rotation0 < nDims && FitsBelow(bits0, nDims)
    ensures rotation == Adjust(rotation0, bits0[..nDims])
  {
    hide Negate, OnesMacro, FirstSet, FitsBelow;
    var nd1Ones := ShiftRight(OnesMacro(nDims), 1);
    var bits := And(bits0, And(Negate(bits0), nd1Ones));
    ghost var f := FirstSet(bits0[..nDims]);
    LowestBit(bits0, nDims);
    assert bits == if f < nDims - 1 then Unit(WIDTH, f) else Zeros(WIDTH);
    rotation := rotation0;
    ghost var left := if f < nDims - 1 then f + 1 else 0;
    UnitNonZero(left);
    while NonZero(bits)
      invariant left >= 0 && bits == if left > 0 then Unit(WIDTH, left - 1) else Zeros(WIDTH)
      invariant NonZero(bits) <==> left > 0
      invariant left <= WIDTH && rotation + left == rotation0 + if f < nDims - 1 then f + 1 else 0
      decreases left
    {
      bits := ShiftRight(bits, 1);
      rotation := rotation + 1;
      left := left - 1;
      UnitNonZero(left);
    }
    rotation := rotation + 1;
    if rotation >= nDims {
      rotation := rotation - nDims;
    }
  }

  lemma LowestBit(w: Word, n: nat)
    requires 2 <= n < WIDTH && FitsBelow(w, n)
    ensures var f := FirstSet(w[..n]);
      And(w, And(Negate(w), ShiftRight(OnesMacro(n), 1))) == if f < n - 1 then Unit(WIDTH, f) else Zeros(WIDTH)
  {
    OnesMacroValue(n);
    var f := FirstSet(w[..n]);
    assert f < n ==> w[f] by {
      assert f < n ==> w[f] == w[..n][f];
    }
    assert forall i :: 0 <= i < f ==> w[i] == w[..n][i];
    assert FirstClear(Not(w)) == if f < n then f else WIDTH by {
      if f < n {
        assert !Not(w)[f];
      }
    }
  }

  // ----- digits of a word

  function Reverse(ds: seq<Bits>): (r: seq<Bits>)
    ensures |r| == |ds| && forall j {:trigger r[j]} :: 0 <= j < |ds| ==> r[j] == ds[|ds| - 1 - j]
  {
    seq(|ds|, j requires 0 <= j < |ds| => ds[|ds| - 1 - j])
  }

  lemma {:induction false} JoinReverse(ds: seq<Bits>)
    ensures Join(Reverse(ds)) == Pack(ds)
  {
    if ds != [] {
      assert Reverse(ds) == Reverse(ds[1..]) + [ds[0]];
      JoinSnoc(Reverse(ds[1..]), ds[0]);
      JoinReverse(ds[1..]);
    }
  }

  lemma {:induction false} JoinLength(n: nat, ds: seq<Bits>)
    requires Digits(n, ds)
    ensures |Join(ds)| == Times(|ds|, n)
  {
    if ds != [] {
      JoinLength(n, ds[..|ds| - 1]);
    }
  }

  lemma {:induction false} JoinConcat(a: seq<Bits>, b: seq<Bits>)
    ensures Join(a + b) == Join(b) + Join(a)
  {
    if b == [] {
      assert a + b == a;
    } else {
      var k := |b| - 1;
      assert a + b == (a + b[..k]) + [b[k]];
      JoinConcat(a, b[..k]);
      JoinSnoc(a + b[..k], b[k]);
    }
  }

  /** The coordinate fields of a point of the grid of side 2^m. */
  function FieldsOf(m: nat, p: Point): (fs: seq<Bits>)
    ensures |fs| == |p| && Fields(fs, m)
    ensures forall d :: 0 <= d < |p| ==> fs[d] == FromValue(p[d], m)
  {
    seq(|p|, d requires 0 <= d < |p| => FromValue(p[d], m))
  }

  /** The columns of the coordinate fields are the coordinate digits. */
  lemma NextBit(x: nat, m: nat, b: nat)
    requires b + 1 < m
    ensures FromValue(x, m)[b + 1] == FromValue(x / 2, m - 1)[b]
  {
    assert FromValue(x, m) == [x % 2 == 1] + FromValue(x / 2, m - 1);
  }

  lemma {:induction false} PointColumns(m: nat, p: Point)
    ensures Reverse(Columns(FieldsOf(m, p), m)) == PointDigits(m, p)
  {
    if m > 0 {
      PointColumns(m - 1, Half(p));
      var fs, hs := FieldsOf(m, p), FieldsOf(m - 1, Half(p));
      var cs, above := Columns(fs, m), Columns(hs, m - 1);
      assert cs[0] == LowBits(p);
      forall b | 0 <= b < m - 1
        ensures cs[b + 1] == above[b]
      {
        forall d | 0 <= d < |p|
          ensures fs[d][b + 1] == hs[d][b]
        {
          NextBit(p[d], m, b);
        }
      }
      assert cs[1..] == above;
      assert Reverse(cs) == Reverse(cs[1..]) + [cs[0]];
    }
  }

  lemma PackedDigits(m: nat, p: Point)
    ensures Pack(Columns(FieldsOf(m, p), m)) == Join(PointDigits(m, p))
  {
    PointColumns(m, p);
    JoinReverse(Columns(FieldsOf(m, p), m));
  }

  lemma {:induction false} FieldValue(x: nat, m: nat)
    requires x < Pow2(m)
    ensures Value(FromValue(x, m)) == x
  {
    if m > 0 {
      FieldValue(x / 2, m - 1);
    }
  }

  lemma {:induction false} ValueField(a: Bits)
    ensures FromValue(Value(a), |a|) == a
  {
    if a != [] {
      ValueField(a[1..]);
    }
  }

  lemma {:induction false} ValuePad(a: Bits)
    requires |a| <= WIDTH
    ensures Value(Pad(a)) == Value(a)
  {
    ValueConcat(a, Zeros(WIDTH - |a|));
    ValueZeros(WIDTH - |a|);
  }

  // ----- Gray digits

  /** The Gray forms of the digits of an index. */
  function GrayDigits(n: nat, ix: seq<Bits>): (gs: seq<Bits>)
    requires n >= 2 && Digits(n, ix)
    ensures |gs| == |ix| && Digits(n, gs)
  {
    if ix == [] then []
    else
      var above := ix[..|ix| - 1];
      GrayDigits(n, above) + [Gray(ix[|ix| - 1], Descent(n, above).odd)]
  }

  /** The word with the lowest bit of each of m digits set: all ones divided by one digit of ones. */
  function LowBitDigits(n: nat, m: nat): (ds: seq<Bits>)
    requires n >= 1
    ensures |ds| == m && Digits(n, ds)
  {
    seq(m, _ => Unit(n, 0))
  }

  lemma {:induction false} LowBitsQuotient(n: nat, m: nat)
    requires n >= 1
    ensures Times(Value(Join(LowBitDigits(n, m))), Pow2(n) - 1) == Size(n, m) - 1
  {
    if m > 0 {
      var ds, v := LowBitDigits(n, m - 1), Value(Join(LowBitDigits(n, m - 1)));
      assert LowBitDigits(n, m) == ds + [Unit(n, 0)];
      NumberSnoc(ds, Unit(n, 0));
      ValueUnit(n);
      LowBitsQuotient(n, m - 1);
      QuotientStep(v, Pow2(n), Size(n, m - 1));
    }
  }

  lemma QuotientStep(v: nat, b: nat, s: nat)
    requires b >= 1 && s >= 1 && Times(v, b - 1) == s - 1
    ensures Times(Times(v, b) + 1, b - 1) == Times(s, b) - 1
  {
    TimesAdd(Times(v, b), 1, b - 1);
    TimesAssociates(v, b, b - 1);
    TimesCommutes(b, b - 1);
    TimesAssociates(v, b - 1, b);
    TimesAdd(1, s - 1, b);
  }

  lemma ValueUnit(n: nat)
    requires n >= 1
    ensures Value(Unit(n, 0)) == 1
  {
    assert Unit(n, 0)[1..] == Zeros(n - 1);
    ValueZeros(n - 1);
  }

  /** Division of words. */
  function Quotient(a: Word, b: Word): Word
    requires Value(b) > 0
  {
    FromValue(Divide(Value(a), Value(b)), WIDTH)
  }

  function Divide(x: nat, b: nat): nat
    requires b > 0
  {
    x / b
  }

  /** The constant nthbits of the source. */
  lemma NthBits(n: nat, m: nat)
    requires 1 <= n && 1 <= m && 1 <= Times(m, n) <= WIDTH
    ensures Value(OnesMacro(n)) > 0 && |Join(LowBitDigits(n, m))| == Times(m, n)
    ensures Quotient(OnesMacro(Times(m, n)), OnesMacro(n)) == Pad(Join(LowBitDigits(n, m)))
  {
    hide Join, LowBitDigits, OnesMacro, Pad, Divide, Size;
    var j, k := Join(LowBitDigits(n, m)), Times(m, n);
    TimesMonotone(1, m, n);
    OnesMacroValue(n);
    OnesMacroValue(k);
    ValuePad(Ones(n));
    ValuePad(Ones(k));
    ValueOnes(n);
    ValueOnes(k);
    JoinLength(n, LowBitDigits(n, m));
    LowBitsQuotient(n, m);
    SizeIsTimes(n, m);
    assert Pow2(n) >= 2;
    ExactQuotient(Value(j), Pow2(n) - 1);
    ValuePad(j);
    ValueField(Pad(j));
  }

  lemma SizeIsTimes(n: nat, m: nat)
    ensures Size(n, m) == Pow2(Times(m, n))
  {
    TimesIsProduct(m, n);
    SizeIsPow2(n, m);
  }

  lemma ExactQuotient(q: nat, b: nat)
    requires b > 0
    ensures Divide(Times(q, b), b) == q
  {
    DivideTimes(Times(q, b), b);
    HighLowUnique(q, 0, Times(q, b) / b, Times(q, b) % b, b);
  }

  lemma DivideTimes(x: nat, b: nat)
    requires b > 0
    ensures x == Times(x / b, b) + x % b
  {
    TimesIsProduct(x / b, b);
  }

  /** index ^ ((index ^ nthbits) >> 1) on the bits of the digits. */
  function Encode(a: Bits, nth: Bits): (g: Bits)
    requires |a| == |nth|
    ensures |g| == |a|
    ensures forall p {:trigger g[p]} :: 0 <= p < |a| ==> g[p] == (a[p] != (p + 1 < |a| && a[p + 1] != nth[p + 1]))
  {
    seq(|a|, p requires 0 <= p < |a| => a[p] != (p + 1 < |a| && a[p + 1] != nth[p + 1]))
  }

  /** Across digit boundaries the word-wide Gray code, with the low bits of all digits flipped, codes each digit as entered from above. */
  lemma {:induction false} EncodeDigits(n: nat, ix: seq<Bits>)
    requires n >= 2 && Digits(n, ix)
    ensures |Join(ix)| == |Join(LowBitDigits(n, |ix|))|
    ensures Encode(Join(ix), Join(LowBitDigits(n, |ix|))) == Join(GrayDigits(n, ix))
  {
    JoinLength(n, ix);
    JoinLength(n, LowBitDigits(n, |ix|));
    if ix != [] {
      var above, low := ix[..|ix| - 1], ix[|ix| - 1];
      var ds := LowBitDigits(n, |ix| - 1);
      assert ix == above + [low];
      assert LowBitDigits(n, |ix|) == ds + [Unit(n, 0)];
      JoinSnoc(above, low);
      JoinSnoc(ds, Unit(n, 0));
      EncodeDigits(n, above);
      var odd := Descent(n, above).odd;
      LowestAbove(n, above);
      EncodeLow(low, odd, Join(above), Join(ds));
      JoinSnoc(GrayDigits(n, above), Gray(low, odd));
    }
  }

  /** The state says whether the digit above is odd, the lowest bit of the word above. */
  lemma LowestAbove(n: nat, above: seq<Bits>)
    requires n >= 2 && Digits(n, above)
    ensures above == [] ==> Join(above) == [] && Descent(n, above).odd
    ensures above != [] ==> Join(above) != [] && Descent(n, above).odd == Join(above)[0] && Join(LowBitDigits(n, |above|)) != [] && Join(LowBitDigits(n, |above|))[0]
  {
    if above != [] {
      var ds := LowBitDigits(n, |above|);
      assert Join(above) == above[|above| - 1] + Join(above[..|above| - 1]);
      assert Join(ds) == ds[|above| - 1] + Join(ds[..|above| - 1]);
    }
  }

  lemma EncodeLow(low: Bits, odd: bool, above: Bits, nth: Bits)
    requires |low| >= 1 && |above| == |nth|
    requires above == [] ==> odd
    requires above != [] ==> nth[0] && odd == above[0]
    ensures Encode(low + above, Unit(|low|, 0) + nth) == Gray(low, odd) + Encode(above, nth)
  {
    var a, b, n := low + above, Unit(|low|, 0) + nth, |low|;
    forall p | 0 <= p < |a|
      ensures Encode(a, b)[p] == (Gray(low, odd) + Encode(above, nth))[p]
    {
      if p + 1 < n {
        assert a[p + 1] == low[p + 1] && !b[p + 1];
      } else if p + 1 < |a| {
        assert a[p + 1] == above[p + 1 - n] && b[p + 1] == nth[p + 1 - n];
      }
    }
  }

  // ----- words of digits

  /** The word of a digit sequence. */
  function WordOf(ds: seq<Bits>): Word
    requires |Join(ds)| <= WIDTH
  {
    Pad(Join(ds))
  }

  /** coords ^ (coords >> t digits): every digit xor the one t places above it. */
  function Differences(cs: seq<Bits>, n: nat, t: nat): (es: seq<Bits>)
    requires Digits(n, cs)
    ensures |es| == |cs| && Digits(n, es)
    ensures forall j {:trigger es[j]} :: 0 <= j < |cs| ==> es[j] == if j < t then cs[j] else Xor(cs[j], cs[j - t])
  {
    seq(|cs|, j requires 0 <= j < |cs| => if j < t then cs[j] else Xor(cs[j], cs[j - t]))
  }

  /** Every digit xor the digit at the same place. */
  function XorDigits(n: nat, a: seq<Bits>, b: seq<Bits>): (r: seq<Bits>)
    requires |a| == |b| && Digits(n, a) && Digits(n, b)
    ensures |r| == |a| && Digits(n, r)
    ensures forall j {:trigger r[j]} :: 0 <= j < |a| ==> r[j] == Xor(a[j], b[j])
  {
    seq(|a|, j requires 0 <= j < |a| => Xor(a[j], b[j]))
  }

  lemma {:induction false} JoinXor(n: nat, a: seq<Bits>, b: seq<Bits>)
    requires |a| == |b| && Digits(n, a) && Digits(n, b)
    ensures |Join(a)| == |Join(b)| && Xor(Join(a), Join(b)) == Join(XorDigits(n, a, b))
  {
    JoinLength(n, a);
    JoinLength(n, b);
    if a != [] {
      var k := |a| - 1;
      JoinXor(n, a[..k], b[..k]);
      var r := XorDigits(n, a, b);
      assert r[..k] == XorDigits(n, a[..k], b[..k]);
      assert Join(r) == r[k] + Join(r[..k]);
    }
  }

  /** Shifting a word of digits right by t digits drops the t lowest and moves zero digits in. */
  lemma ShiftDigits(n: nat, cs: seq<Bits>, t: nat)
    requires Digits(n, cs) && Times(|cs|, n) <= WIDTH && t <= |cs| && Times(t, n) < WIDTH
    ensures var zs := seq(t, _ => Zeros(n)) + cs[..|cs| - t];
      && |Join(cs)| == |Join(zs)| == Times(|cs|, n) && Digits(n, zs)
      && ShiftRight(WordOf(cs), Times(t, n)) == WordOf(zs)
  {
    hide Join, Times;
    var k := |cs| - t;
    var zs := seq(t, _ => Zeros(n));
    assert cs == cs[..k] + cs[k..];
    JoinConcat(cs[..k], cs[k..]);
    JoinConcat(zs, cs[..k]);
    JoinLength(n, cs);
    JoinLength(n, cs[k..]);
    JoinLength(n, zs);
    JoinLength(n, zs + cs[..k]);
    JoinZeros(n, t);
    ShiftRightPad(Join(cs[k..]), Join(cs[..k]));
  }

  lemma {:induction false} JoinZeros(n: nat, t: nat)
    ensures Join(seq(t, _ => Zeros(n))) == Zeros(Times(t, n))
  {
    if t > 0 {
      JoinZeros(n, t - 1);
      assert seq(t, _ => Zeros(n)) == seq(t - 1, _ => Zeros(n)) + [Zeros(n)];
      JoinSnoc(seq(t - 1, _ => Zeros(n)), Zeros(n));
    }
  }

  lemma XorShiftedDigits(n: nat, cs: seq<Bits>, t: nat)
    requires Digits(n, cs) && Times(|cs|, n) <= WIDTH && t <= |cs| && Times(t, n) < WIDTH
    ensures |Join(cs)| == |Join(Differences(cs, n, t))| == Times(|cs|, n)
    ensures Xor(WordOf(cs), ShiftRight(WordOf(cs), Times(t, n))) == WordOf(Differences(cs, n, t))
  {
    var zs := seq(t, _ => Zeros(n)) + cs[..|cs| - t];
    hide Join, XorDigits, Differences;
    ShiftDigits(n, cs, t);
    XorMoved(n, cs, t);
    JoinXor(n, cs, zs);
    XorPad(Join(cs), Join(zs));
    JoinLength(n, Differences(cs, n, t));
  }

  lemma XorMoved(n: nat, cs: seq<Bits>, t: nat)
    requires Digits(n, cs) && t <= |cs|
    ensures var zs := seq(t, _ => Zeros(n)) + cs[..|cs| - t];
      Digits(n, zs) && XorDigits(n, cs, zs) == Differences(cs, n, t)
  {
    var zs := seq(t, _ => Zeros(n)) + cs[..|cs| - t];
    forall j | 0 <= j < |cs|
      ensures Xor(cs[j], zs[j]) == Differences(cs, n, t)[j]
    {
      if j < t {
        assert Xor(cs[j], Zeros(n)) == cs[j];
      }
    }
  }

  lemma DifferencesDouble(n: nat, cs: seq<Bits>, t: nat)
    requires Digits(n, cs)
    ensures Differences(Differences(cs, n, t), n, t) == Differences(cs, n, 2 * t)
  {
    hide Differences, Xor;
    forall j | 0 <= j < |cs|
      ensures Differences(Differences(cs, n, t), n, t)[j] == Differences(cs, n, 2 * t)[j]
    {
      DifferencesDoubleAt(n, cs, t, j);
    }
  }

  lemma DifferencesDoubleAt(n: nat, cs: seq<Bits>, t: nat, j: nat)
    requires Digits(n, cs) && j < |cs|
    ensures Differences(Differences(cs, n, t), n, t)[j] == Differences(cs, n, 2 * t)[j]
  {
    hide Differences, Xor;
    var es := Differences(cs, n, t);
    if j >= 2 * t {
      XorChain(cs[j], cs[j - t], cs[j - 2 * t]);
      assert es[j] == Xor(cs[j], cs[j - t]) && es[j - t] == if t == 0 then Xor(cs[j], cs[j]) else Xor(cs[j - t], cs[j - 2 * t]);
    } else if j >= t {
      XorChain(cs[j], cs[j - t], cs[j - t]);
      assert es[j] == Xor(cs[j], cs[j - t]) && es[j - t] == cs[j - t];
    }
  }

  lemma XorChain(a: Bits, b: Bits, c: Bits)
    requires |a| == |b| == |c|
    ensures Xor(Xor(a, b), Xor(b, c)) == Xor(a, c) && Xor(Xor(a, b), b) == a
  {
  }

  /** Undoing coords ^= coords >> nDims by doubling the shift. */
  method PrefixDigits(nDims: nat, nDimsBits: nat, coords0: Word, ghost cs: seq<Bits>) returns (coords: Word)
    requires nDims >= 2 && Digits(nDims, cs) && cs != [] && nDimsBits == Times(|cs|, nDims) <= WIDTH
    requires |Join(Differences(cs, nDims, 1))| <= WIDTH && coords0 == WordOf(Differences(cs, nDims, 1))
    ensures |Join(cs)| <= WIDTH && coords == WordOf(cs)
  {
    hide Join;
    coords := coords0;
    var b := nDims;
    ghost var t := 1;
    assert Times(1, nDims) == nDims;
    while b < nDimsBits
      invariant t >= 1 && b == Times(t, nDims)
      invariant |Join(Differences(cs, nDims, t))| <= WIDTH && coords == WordOf(Differences(cs, nDims, t))
      decreases nDimsBits - b
    {
      ghost var es := Differences(cs, nDims, t);
      HighLowOrder(t, 0, |cs|, nDims);
      XorShiftedDigits(nDims, es, t);
      DifferencesDouble(nDims, cs, t);
      coords := Xor(coords, ShiftRight(coords, b));
      TimesDouble(t, nDims);
      b := b * 2;
      t := t * 2;
    }
    HighLowOrder(t, 0, |cs|, nDims);
    assert Differences(cs, nDims, t) == cs;
  }

  /** Undoing index ^= index >> 1 by doubling the shift. */
  method PrefixBits(nDimsBits: nat, index0: Word, ghost target: Word) returns (index: Word)
    requires 2 <= nDimsBits <= WIDTH && FitsBelow(target, nDimsBits)
    requires index0 == Xor(target, ShiftRight(target, 1))
    ensures index == target
  {
    index := index0;
    var d := 1;
    while d < nDimsBits
      invariant d >= 1
      invariant forall p {:trigger index[p]} :: 0 <= p < WIDTH ==> index[p] == (target[p] != (p + d < WIDTH && target[p + d]))
      decreases nDimsBits - d
    {
      index := Xor(index, ShiftRight(index, d));
      d := d * 2;
    }
  }

  // ----- one turn of the digit loops

  /** flipBit on entry to the digit below ix. */
  function FlipOf(n: nat, ix: seq<Bits>): (f: Bits)
    requires n >= 2 && Digits(n, ix)
    ensures |f| == n
  {
    if ix == [] then Zeros(n) else Unit(n, Descent(n, ix[..|ix| - 1]).rot)
  }

  lemma GraySnoc(n: nat, above: seq<Bits>, low: Bits)
    requires n >= 2 && Digits(n, above) && |low| == n
    ensures Digits(n, above + [low])
    ensures GrayDigits(n, above + [low]) == GrayDigits(n, above) + [Gray(low, Descent(n, above).odd)]
  {
    assert (above + [low])[..|above|] == above;
  }

  lemma {:induction false} PrefixOfCells(n: nat, ix: seq<Bits>, j: nat)
    requires n >= 2 && Digits(n, ix) && j <= |ix|
    ensures Cells(n, ix[..j]) == Cells(n, ix)[..j] && GrayDigits(n, ix[..j]) == GrayDigits(n, ix)[..j]
    decreases |ix| - j
  {
    hide Cells, GrayDigits, CellOf, Gray, Descent;
    if j == |ix| {
      assert ix[..j] == ix;
    } else {
      PrefixOfCells(n, ix, j + 1);
      assert ix[..j + 1] == ix[..j] + [ix[j]];
      CellsSnoc(n, ix[..j], ix[j]);
      GraySnoc(n, ix[..j], ix[j]);
    }
  }

  lemma Reflection(n: nat, above: seq<Bits>)
    requires n >= 2 && Digits(n, above)
    ensures Descent(n, above).refl == if above == [] then FlipOf(n, above) else Xor(Cells(n, above)[|above| - 1], FlipOf(n, above))
  {
  }

  lemma XorTwice(a: Bits, f: Bits, c: Bits)
    requires |a| == |f| == |c|
    ensures Xor(Xor(a, Xor(c, f)), c) == Xor(a, f)
    ensures Xor(f, Xor(a, f)) == a
  {
  }

  /** The digits of cell and Gray form below ix[..j]. */
  lemma DigitAt(n: nat, ix: seq<Bits>, j: nat)
    requires n >= 2 && Digits(n, ix) && j < |ix|
    ensures Cells(n, ix)[j] == CellOf(Descent(n, ix[..j]), ix[j])
    ensures GrayDigits(n, ix)[j] == Gray(ix[j], Descent(n, ix[..j]).odd)
    ensures Descent(n, ix[..j + 1]) == Descend(Descent(n, ix[..j]), ix[j])
    ensures FlipOf(n, ix[..j + 1]) == Unit(n, Descent(n, ix[..j]).rot)
  {
    hide Cells, GrayDigits, CellOf, Gray, Descent;
    var above := ix[..j];
    assert ix[..j + 1] == above + [ix[j]] && (above + [ix[j]])[..j] == above;
    PrefixOfCells(n, ix, j + 1);
    CellsSnoc(n, above, ix[j]);
    GraySnoc(n, above, ix[j]);
  }

  /** One digit: the coordinate digit, xor the one above it, is the rotated Gray digit xor the flip bit. */
  lemma DigitDifference(n: nat, ix: seq<Bits>, j: nat)
    requires n >= 2 && Digits(n, ix) && j < |ix|
    ensures Differences(Cells(n, ix), n, 1)[j] == Xor(RotateLeft(GrayDigits(n, ix)[j], Descent(n, ix[..j]).rot), FlipOf(n, ix[..j]))
  {
    hide Cells, GrayDigits, Gray, Descent, FlipOf, Xor, RotateLeft, Differences;
    var cs, f := Cells(n, ix), FlipOf(n, ix[..j]);
    DigitAt(n, ix, j);
    ReflectionBefore(n, ix, j);
    CellDifference(n, cs, j, Descent(n, ix[..j]).refl, RotateLeft(GrayDigits(n, ix)[j], Descent(n, ix[..j]).rot), f);
  }

  lemma CellDifference(n: nat, cs: seq<Bits>, j: nat, refl: Bits, r: Bits, f: Bits)
    requires Digits(n, cs) && j < |cs| && |r| == |f| == |refl| == n
    requires cs[j] == Xor(r, refl) && refl == if j == 0 then f else Xor(cs[j - 1], f)
    ensures Differences(cs, n, 1)[j] == Xor(r, f)
  {
    hide Xor, Differences;
    if j > 0 {
      XorTwice(r, f, cs[j - 1]);
    }
  }

  lemma ReflectionBefore(n: nat, ix: seq<Bits>, j: nat)
    requires n >= 2 && Digits(n, ix) && j < |ix|
    ensures Descent(n, ix[..j]).refl == if j == 0 then FlipOf(n, ix[..j]) else Xor(Cells(n, ix)[j - 1], FlipOf(n, ix[..j]))
  {
    hide Cells, GrayDigits, Descent, FlipOf, Xor;
    Reflection(n, ix[..j]);
    PrefixOfCells(n, ix, j);
  }

  lemma DigitStep(n: nat, ix: seq<Bits>, j: nat)
    requires n >= 2 && Digits(n, ix) && j < |ix|
    ensures var s, f, g, e := Descent(n, ix[..j]), FlipOf(n, ix[..j]), GrayDigits(n, ix)[j], Differences(Cells(n, ix), n, 1)[j];
      && e == Xor(RotateLeft(g, s.rot), f) && RotateRight(Xor(f, e), s.rot) == g
      && Descent(n, ix[..j + 1]).rot == Adjust(s.rot, g) && FlipOf(n, ix[..j + 1]) == Unit(n, s.rot)
  {
    hide Cells, GrayDigits, Gray, Descent, FlipOf, Adjust, Xor, RotateLeft, RotateRight;
    var s, f, g := Descent(n, ix[..j]), FlipOf(n, ix[..j]), GrayDigits(n, ix)[j];
    DigitAt(n, ix, j);
    DigitDifference(n, ix, j);
    XorTwice(RotateLeft(g, s.rot), f, f);
    RotateRoundTrip(g, s.rot);
  }

  lemma ReadDigit(n: nat, ds: seq<Bits>, j: nat)
    requires n >= 1 && Digits(n, ds) && j < |ds| && Times(|ds|, n) <= WIDTH
    ensures Times(|ds| - 1 - j, n) + n <= Times(|ds|, n) && |Join(ds)| == Times(|ds|, n)
    ensures And(ShiftRight(WordOf(ds), Times(|ds| - 1 - j, n)), OnesMacro(n)) == Pad(ds[j])
  {
    hide Join, Times;
    var low, high := ds[j + 1..], ds[..j];
    assert ds == (high + [ds[j]]) + low;
    JoinConcat(high + [ds[j]], low);
    JoinSnoc(high, ds[j]);
    JoinLength(n, ds);
    JoinLength(n, low);
    TimesMonotone(|ds| - j, |ds|, n);
    OnesMacroValue(n);
    assert Join(ds) == Join(low) + ds[j] + Join(high);
    ExtractPad(Join(low), ds[j], Join(high));
  }

  lemma AppendDigit(n: nat, ds: seq<Bits>, j: nat)
    requires 1 <= n < WIDTH && Digits(n, ds) && j < |ds| && Times(|ds|, n) <= WIDTH
    ensures |Join(ds[..j])| + n <= WIDTH && |Join(ds[..j + 1])| <= WIDTH
    ensures Or(ShiftLeft(WordOf(ds[..j]), n), Pad(ds[j])) == WordOf(ds[..j + 1])
  {
    assert ds[..j + 1] == ds[..j] + [ds[j]];
    JoinSnoc(ds[..j], ds[j]);
    JoinLength(n, ds[..j]);
    TimesMonotone(j + 1, |ds|, n);
    AppendPad(ds[j], Join(ds[..j]));
  }

  lemma UnitWord(n: nat, r: nat)
    requires r < n <= WIDTH
    ensures ShiftLeft(Pad([true]), r) == Pad(Unit(n, r))
  {
  }

  /** One turn of the digit loop of hilbert_c2i recovers Gray digit j. */
  lemma GrayTurn(n: nat, ix: seq<Bits>, j: nat)
    requires 2 <= n < WIDTH && Digits(n, ix) && j < |ix| && Times(|ix|, n) <= WIDTH
    ensures var es, gs := Differences(Cells(n, ix), n, 1), GrayDigits(n, ix); var b := Times(|ix| - 1 - j, n);
      && b + n <= WIDTH && |Join(es)| <= WIDTH && |Join(gs[..j])| <= WIDTH && |Join(gs[..j + 1])| <= WIDTH
      && var bits := RotateRightMacro(Xor(Pad(FlipOf(n, ix[..j])), And(ShiftRight(WordOf(es), b), OnesMacro(n))),
                                      Descent(n, ix[..j]).rot, n);
         bits == Pad(gs[j]) && bits[..n] == gs[j] && Or(ShiftLeft(WordOf(gs[..j]), n), bits) == WordOf(gs[..j + 1])
  {
    hide Join, Cells, Descent, GrayDigits, Differences, FlipOf, Adjust, OnesMacro, WordOf, RotateRightMacro, RotateRight;
    var es, gs, f := Differences(Cells(n, ix), n, 1), GrayDigits(n, ix), FlipOf(n, ix[..j]);
    DigitStep(n, ix, j);
    ReadDigit(n, es, j);
    XorPad(f, es[j]);
    RotateMacros(Xor(f, es[j]), Descent(n, ix[..j]).rot);
    AppendDigit(n, gs, j);
    PadPrefix(gs[j]);
  }

  lemma PadPrefix(a: Bits)
    requires |a| <= WIDTH
    ensures Pad(a)[..|a|] == a && FitsBelow(Pad(a), |a|)
  {
  }

  /** The digit loop of hilbert_c2i. */
  method CoordsToGray(nDims: nat, nBits: nat, coords: Word, ghost ix: seq<Bits>) returns (index: Word)
    requires 2 <= nDims < WIDTH && nBits >= 1 && |ix| == nBits && Digits(nDims, ix) && Times(nBits, nDims) <= WIDTH
    requires |Join(Differences(Cells(nDims, ix), nDims, 1))| <= WIDTH
    requires coords == WordOf(Differences(Cells(nDims, ix), nDims, 1))
    ensures |Join(GrayDigits(nDims, ix))| <= WIDTH && index == WordOf(GrayDigits(nDims, ix))
  {
    hide Join, Cells, Descent, GrayDigits, Differences, FlipOf, Adjust, Times, OnesMacro, RotateLeftMacro, RotateRightMacro, WordOf, RotateRight, RotateLeft, Pad, CellOf, Descend, And, Or, ShiftLeft, ShiftRight, FitsBelow;
    var ndOnes := OnesMacro(nDims);
    var b := Times(nBits, nDims);
    var rotation := 0;
    var flipBit: Word := Zeros(WIDTH);
    index := Zeros(WIDTH);
    ghost var j := 0;
    ghost var es, gs := Differences(Cells(nDims, ix), nDims, 1), GrayDigits(nDims, ix);
    LoopStart(nDims, ix, gs);
    NextShift(nBits, nDims);
    while b != 0
      invariant 0 <= j <= nBits && b == Times(nBits - j, nDims) && (b != 0 <==> j < nBits)
      invariant rotation == Descent(nDims, ix[..j]).rot && flipBit == Pad(FlipOf(nDims, ix[..j]))
      invariant |Join(gs[..j])| <= WIDTH && index == WordOf(gs[..j])
    {
      NextShift(nBits - j, nDims);
      b := b - nDims;
      GrayTurn(nDims, ix, j);
      DigitStep(nDims, ix, j);
      var bits := And(ShiftRight(coords, b), ndOnes);
      bits := RotateRightMacro(Xor(flipBit, bits), rotation, nDims);
      index := Or(ShiftLeft(index, nDims), bits);
      UnitWord(nDims, rotation);
      flipBit := ShiftLeft(Pad([true]), rotation);
      PadPrefix(gs[j]);
      rotation := AdjustRotation(rotation, nDims, bits);
      j := j + 1;
      if j < nBits {
        NextShift(nBits - j, nDims);
      }
    }
    assert gs[..nBits] == gs;
  }

  lemma NextShift(k: nat, n: nat)
    requires k >= 1
    ensures Times(k, n) == n + Times(k - 1, n) && Times(0, n) == 0
  {
  }

  lemma LoopStart(n: nat, ix: seq<Bits>, gs: seq<Bits>)
    requires n >= 2 && Digits(n, ix)
    ensures Descent(n, ix[..0]).rot == 0 && FlipOf(n, ix[..0]) == Zeros(n) && Join(gs[..0]) == [] && WordOf(gs[..0]) == Zeros(WIDTH)
    ensures n <= WIDTH ==> Pad(Zeros(n)) == Zeros(WIDTH)
  {
  }

  // ----- the two conversions

  ghost function PointIn(coord: seq<Word>): (p: Point)
    ensures |p| == |coord| && forall d :: 0 <= d < |p| ==> p[d] == Value(coord[d])
  {
    seq(|coord|, d requires 0 <= d < |coord| => Value(coord[d]))
  }

  lemma WordIsField(w: Word, m: nat)
    requires m <= WIDTH && Value(w) < Pow2(m)
    ensures w == Pad(FromValue(Value(w), m))
  {
    var x := Value(w);
    ValueField(w);
    FieldValue(x, m);
    ValuePad(FromValue(x, m));
    ValueField(Pad(FromValue(x, m)));
  }

  /** Collecting the coordinates into one word, coordinate 0 lowest. */
  method Gather(nDims: nat, nBits: nat, coord: array<Word>) returns (coords: Word)
    requires nDims >= 2 && nBits >= 1 && coord.Length == nDims && Times(nDims, nBits) <= WIDTH
    requires InGrid(PointIn(coord[..]), nBits)
    ensures |Pack(FieldsOf(nBits, PointIn(coord[..])))| == Times(nDims, nBits)
    ensures coords == Pad(Pack(FieldsOf(nBits, PointIn(coord[..]))))
  {
    ghost var fs := FieldsOf(nBits, PointIn(coord[..]));
    TimesMonotone(2, nDims, nBits);
    assert Times(2, nBits) == nBits + Times(1, nBits);
    coords := Zeros(WIDTH);
    var d := nDims;
    while d != 0
      invariant 0 <= d <= nDims
      invariant |Pack(fs[d..])| == Times(nDims - d, nBits) <= WIDTH && coords == Pad(Pack(fs[d..]))
    {
      d := d - 1;
      assert fs[d..][1..] == fs[d + 1..];
      TimesMonotone(nDims - d, nDims, nBits);
      AppendPad(fs[d], Pack(fs[d + 1..]));
      WordIsField(coord[d], nBits);
      coords := ShiftLeft(coords, nBits);
      coords := Or(coords, coord[d]);
    }
    assert fs[0..] == fs;
  }

  /** The digits with the low bits of all digits flipped in and out again leave index ^ (index >> 1). */
  lemma GrayWord(n: nat, ix: seq<Bits>)
    requires n >= 2 && Digits(n, ix) && Times(|ix|, n) <= WIDTH
    ensures |Join(ix)| == |Join(GrayDigits(n, ix))| == |Join(LowBitDigits(n, |ix|))| == Times(|ix|, n)
    ensures var i, g, nth := WordOf(ix), WordOf(GrayDigits(n, ix)), WordOf(LowBitDigits(n, |ix|));
      && Xor(g, ShiftRight(nth, 1)) == Xor(i, ShiftRight(i, 1))
      && g == Xor(i, ShiftRight(Xor(i, nth), 1))
  {
    JoinLength(n, ix);
    JoinLength(n, GrayDigits(n, ix));
    JoinLength(n, LowBitDigits(n, |ix|));
    EncodeDigits(n, ix);
    EncodeWord(Join(ix), Join(LowBitDigits(n, |ix|)));
  }

  lemma EncodeWord(a: Bits, nth: Bits)
    requires |a| == |nth| <= WIDTH
    ensures var i, g, t := Pad(a), Pad(Encode(a, nth)), Pad(nth);
      && Xor(g, ShiftRight(t, 1)) == Xor(i, ShiftRight(i, 1))
      && g == Xor(i, ShiftRight(Xor(i, t), 1))
  {
  }

  lemma OneDigit(n: nat, m: nat, p: Point)
    requires n >= 2 && |p| == n && m == 1
    ensures var ix := Indices(n, PointDigits(m, p)); GrayDigits(n, ix) == PointDigits(m, p)
  {
    var cs := PointDigits(m, p);
    var ix := Indices(n, cs);
    CellsOfIndices(n, cs);
    DigitStep(n, ix, 0);
    var g := GrayDigits(n, ix)[0];
    assert RotateLeft(g, 0) == g && Xor(g, Zeros(n)) == g;
  }

  /** The branch of hilbert_c2i for more than one bit per coordinate, up to the closing Gray decoding. */
  method PlanesToIndex(nDims: nat, nBits: nat, coords0: Word, ghost p: Point) returns (index: Word)
    requires 2 <= nDims < 32 && nBits > 1 && Times(nDims, nBits) <= WIDTH && |p| == nDims
    requires |Pack(FieldsOf(nBits, p))| <= WIDTH && coords0 == Pad(Pack(FieldsOf(nBits, p)))
    ensures var ix := Indices(nDims, PointDigits(nBits, p));
      |Join(ix)| <= WIDTH && index == Xor(WordOf(ix), ShiftRight(WordOf(ix), 1))
  {
    hide *;
    ghost var cs := PointDigits(nBits, p);
    ghost var ix := Indices(nDims, cs);
    TimesCommutes(nDims, nBits);
    TimesMonotone(2, nBits, nDims);
    NextShift(1, nDims);
    NextShift(2, nDims);
    CellsOfIndices(nDims, cs);
    GrayWord(nDims, ix);
    NthBits(nDims, nBits);
    WordIs(LowBitDigits(nDims, nBits));
    var ndOnes := OnesMacro(nDims);
    var nthbits := Quotient(OnesMacro(Times(nBits, nDims)), ndOnes);
    TransposedPoint(nDims, nBits, p);
    var coords := BitTranspose(nDims, nBits, coords0);
    XorShiftedDigits(nDims, cs, 1);
    coords := Xor(coords, ShiftRight(coords, nDims));
    index := CoordsToGray(nDims, nBits, coords, ix);
    index := Xor(index, ShiftRight(nthbits, 1));
  }

  /** hilbert_c2i. */
  method HilbertC2I(nDims: nat, nBits: nat, coord: array<Word>) returns (index: Word)
    requires 1 <= nDims < 32 && nBits >= 1 && nDims * nBits <= WIDTH && coord.Length == nDims
    requires InGrid(PointIn(coord[..]), nBits)
    ensures Value(index) == Index(nDims, nBits, PointIn(coord[..]))
  {
    if nDims > 1 {
      hide *;
      ghost var p := PointIn(coord[..]);
      ghost var ix := Indices(nDims, PointDigits(nBits, p));
      TimesIsProduct(nDims, nBits);
      TimesCommutes(nDims, nBits);
      JoinLength(nDims, ix);
      var nDimsBits := nDims * nBits;
      var coords := Gather(nDims, nBits, coord);
      if nBits > 1 {
        index := PlanesToIndex(nDims, nBits, coords, p);
      } else {
        index := coords;
        SinglePlane(p);
        OneDigit(nDims, nBits, p);
        NoCarry(nDims, ix);
        WordIs(GrayDigits(nDims, ix));
      }
      WordBelow(ix);
      index := PrefixBits(nDimsBits, index, WordOf(ix));
      WordValue(ix);
      IndexIs(nDims, nBits, p);
    } else {
      index := coord[0];
    }
  }

  lemma WordIs(ds: seq<Bits>)
    requires |Join(ds)| <= WIDTH
    ensures WordOf(ds) == Pad(Join(ds))
  {
  }

  lemma IndexIs(n: nat, m: nat, p: Point)
    requires n >= 2 && |p| == n
    ensures Index(n, m, p) == Number(Indices(n, PointDigits(m, p)))
  {
  }

  lemma WordBelow(ds: seq<Bits>)
    requires |Join(ds)| <= WIDTH
    ensures FitsBelow(WordOf(ds), |Join(ds)|)
  {
  }

  lemma WordValue(ds: seq<Bits>)
    requires |Join(ds)| <= WIDTH
    ensures Value(WordOf(ds)) == Number(ds)
  {
    ValuePad(Join(ds));
  }

  /** Transposing the gathered coordinates gives the coordinate digits, and transposing these back the coordinates. */
  lemma TransposedPoint(n: nat, m: nat, p: Point)
    requires |p| == n && Times(n, m) <= WIDTH
    ensures Times(m, n) <= WIDTH && |Join(PointDigits(m, p))| == |Pack(FieldsOf(m, p))| == Times(n, m)
    ensures FitsBelow(Pad(Pack(FieldsOf(m, p))), Times(n, m)) && FitsBelow(WordOf(PointDigits(m, p)), Times(m, n))
    ensures Transpose(n, m, Pad(Pack(FieldsOf(m, p)))) == WordOf(PointDigits(m, p))
    ensures Transpose(m, n, WordOf(PointDigits(m, p))) == Pad(Pack(FieldsOf(m, p)))
  {
    var fs := FieldsOf(m, p);
    PackLength(fs, m);
    var w := Pad(Pack(fs));
    TimesCommutes(n, m);
    UnpackPack(fs, m);
    JoinLength(n, PointDigits(m, p));
    assert w[..Times(n, m)] == Pack(fs);
    PackedDigits(m, p);
    PadPrefix(Pack(fs));
    PadPrefix(Join(PointDigits(m, p)));
    TransposeInverse(n, m, w);
  }

  lemma {:induction false} PackBits(fs: seq<Bits>)
    requires Fields(fs, 1)
    ensures Pack(fs) == Column(fs, 1, 0)
  {
    if fs != [] {
      PackBits(fs[1..]);
      assert Column(fs, 1, 0) == fs[0] + Column(fs[1..], 1, 0);
    }
  }

  /** With one bit per coordinate the gathered word is the only digit. */
  lemma SinglePlane(p: Point)
    ensures Pack(FieldsOf(1, p)) == Join(PointDigits(1, p))
  {
    PackBits(FieldsOf(1, p));
    PackedDigits(1, p);
    var cs := Columns(FieldsOf(1, p), 1);
    assert cs == [cs[0]];
    assert Pack(cs) == cs[0] + Pack(cs[1..]);
  }

  lemma NoCarry(n: nat, ix: seq<Bits>)
    requires n >= 2 && Digits(n, ix) && |ix| == 1 && n <= WIDTH
    ensures |Join(ix)| == |Join(GrayDigits(n, ix))| == n
    ensures WordOf(GrayDigits(n, ix)) == Xor(WordOf(ix), ShiftRight(WordOf(ix), 1))
  {
    assert ix[..0] == [];
    var gs := GrayDigits(n, ix);
    assert gs == [Gray(ix[0], true)];
    assert Join(ix) == ix[0] && Join(gs) == gs[0];
    GrayOfWord(ix[0]);
  }

  lemma GrayOfWord(i: Bits)
    requires 1 <= |i| <= WIDTH
    ensures Pad(Gray(i, true)) == Xor(Pad(i), ShiftRight(Pad(i), 1))
  {
  }

  // ----- index to coordinates

  /** One turn of the digit loop of hilbert_i2c. */
  lemma CoordTurn(n: nat, ix: seq<Bits>, j: nat)
    requires 2 <= n < WIDTH && Digits(n, ix) && j < |ix| && Times(|ix|, n) <= WIDTH
    ensures var es, gs := Differences(Cells(n, ix), n, 1), GrayDigits(n, ix); var b := Times(|ix| - 1 - j, n);
      && b + n <= WIDTH && |Join(gs)| <= WIDTH && |Join(es[..j])| <= WIDTH && |Join(es[..j + 1])| <= WIDTH
      && var bits := And(ShiftRight(WordOf(gs), b), OnesMacro(n));
         && bits == Pad(gs[j]) && bits[..n] == gs[j]
         && Or(ShiftLeft(WordOf(es[..j]), n), Xor(RotateLeftMacro(bits, Descent(n, ix[..j]).rot, n), Pad(FlipOf(n, ix[..j]))))
            == WordOf(es[..j + 1])
  {
    hide Join, Cells, Descent, GrayDigits, Differences, FlipOf, Adjust, OnesMacro, WordOf, RotateLeftMacro, RotateLeft;
    var es, gs, f, r := Differences(Cells(n, ix), n, 1), GrayDigits(n, ix), FlipOf(n, ix[..j]), Descent(n, ix[..j]).rot;
    DigitStep(n, ix, j);
    ReadDigit(n, gs, j);
    RotateMacros(gs[j], r);
    XorPad(RotateLeft(gs[j], r), f);
    AppendDigit(n, es, j);
    PadPrefix(gs[j]);
  }

  /** The digit loop of hilbert_i2c. */
  method GrayToCoords(nDims: nat, nBits: nat, index: Word, ghost ix: seq<Bits>) returns (coords: Word)
    requires 2 <= nDims < WIDTH && nBits >= 1 && |ix| == nBits && Digits(nDims, ix) && Times(nBits, nDims) <= WIDTH
    requires |Join(GrayDigits(nDims, ix))| <= WIDTH && index == WordOf(GrayDigits(nDims, ix))
    ensures |Join(Differences(Cells(nDims, ix), nDims, 1))| <= WIDTH
    ensures coords == WordOf(Differences(Cells(nDims, ix), nDims, 1))
  {
    hide Join, Cells, Descent, GrayDigits, Differences, FlipOf, Adjust, Times, OnesMacro, RotateLeftMacro, RotateRightMacro, WordOf, RotateRight, RotateLeft, Pad, CellOf, Descend, And, Or, ShiftLeft, ShiftRight, FitsBelow;
    var ndOnes := OnesMacro(nDims);
    var b := Times(nBits, nDims);
    var rotation := 0;
    var flipBit: Word := Zeros(WIDTH);
    coords := Zeros(WIDTH);
    ghost var j := 0;
    ghost var es, gs := Differences(Cells(nDims, ix), nDims, 1), GrayDigits(nDims, ix);
    LoopStart(nDims, ix, es);
    NextShift(nBits, nDims);
    while b != 0
      invariant 0 <= j <= nBits && b == Times(nBits - j, nDims) && (b != 0 <==> j < nBits)
      invariant rotation == Descent(nDims, ix[..j]).rot && flipBit == Pad(FlipOf(nDims, ix[..j]))
      invariant |Join(es[..j])| <= WIDTH && coords == WordOf(es[..j])
    {
      NextShift(nBits - j, nDims);
      b := b - nDims;
      CoordTurn(nDims, ix, j);
      DigitStep(nDims, ix, j);
      var bits := And(ShiftRight(index, b), ndOnes);
      coords := Or(ShiftLeft(coords, nDims), Xor(RotateLeftMacro(bits, rotation, nDims), flipBit));
      UnitWord(nDims, rotation);
      flipBit := ShiftLeft(Pad([true]), rotation);
      PadPrefix(gs[j]);
      rotation := AdjustRotation(rotation, nDims, bits);
      j := j + 1;
      if j < nBits {
        NextShift(nBits - j, nDims);
      }
    }
    assert es[..nBits] == es;
  }

  lemma IndexWord(n: nat, m: nat, w: Word)
    requires Value(w) < Size(n, m) && Times(m, n) <= WIDTH
    ensures var ix := IndexDigits(n, m, Value(w)); |Join(ix)| == Times(m, n) && w == WordOf(ix)
  {
    var ix := IndexDigits(n, m, Value(w));
    JoinLength(n, ix);
    NumberOfDigits(n, m, Value(w));
    ValueField(Join(ix));
    SizeIsTimes(n, m);
    WordIsField(w, Times(m, n));
  }

  /** The branch of hilbert_i2c for more than one bit per coordinate. */
  method IndexToPlanes(nDims: nat, nBits: nat, index0: Word, ghost ix: seq<Bits>) returns (coords: Word)
    requires 2 <= nDims < 32 && nBits > 1 && Times(nBits, nDims) <= WIDTH && |ix| == nBits && Digits(nDims, ix)
    requires |Join(ix)| <= WIDTH && index0 == WordOf(ix)
    ensures var p := PointOf(nDims, Cells(nDims, ix));
      |Pack(FieldsOf(nBits, p))| <= WIDTH && coords == Pad(Pack(FieldsOf(nBits, p)))
  {
    hide *;
    ghost var cs := Cells(nDims, ix);
    ghost var p := PointOf(nDims, cs);
    TimesCommutes(nDims, nBits);
    TimesMonotone(2, nBits, nDims);
    NextShift(2, nDims);
    NextShift(1, nDims);
    GrayWord(nDims, ix);
    NthBits(nDims, nBits);
    WordIs(LowBitDigits(nDims, nBits));
    DigitsOfPoint(nDims, cs);
    TransposedPoint(nDims, nBits, p);
    var ndOnes := OnesMacro(nDims);
    var nthbits := Quotient(OnesMacro(Times(nBits, nDims)), ndOnes);
    var index := Xor(index0, ShiftRight(Xor(index0, nthbits), 1));
    coords := GrayToCoords(nDims, nBits, index, ix);
    coords := PrefixDigits(nDims, Times(nBits, nDims), coords, cs);
    coords := BitTranspose(nBits, nDims, coords);
  }

  lemma ScatterBits(nDims: nat, nBits: nat)
    requires nDims >= 2 && nBits >= 1 && Times(nDims, nBits) <= WIDTH
    ensures nBits < WIDTH && OnesMacro(nBits) == Pad(Ones(nBits))
  {
    hide Times, Pad;
    TimesMonotone(2, nDims, nBits);
    TimesAdd(1, 1, nBits);
    OneTimes(nBits);
    OnesMacroValue(nBits);
  }

  lemma ScatterStep(nBits: nat, p: Point, d: nat)
    requires 1 <= nBits < WIDTH && d < |p| && InGrid(p, nBits) && |Pack(FieldsOf(nBits, p)[d..])| <= WIDTH
    ensures var fs := FieldsOf(nBits, p);
      && |Pack(fs[d + 1..])| <= WIDTH
      && Value(And(Pad(Pack(fs[d..])), Pad(Ones(nBits)))) == p[d]
      && ShiftRight(Pad(Pack(fs[d..])), nBits) == Pad(Pack(fs[d + 1..]))
  {
    hide Value, And, ShiftRight, Pad;
    var fs := FieldsOf(nBits, p);
    assert fs[d..][1..] == fs[d + 1..];
    MaskPad(fs[d], Pack(fs[d + 1..]));
    ShiftRightPad(fs[d], Pack(fs[d + 1..]));
    FieldValue(p[d], nBits);
    ValuePad(fs[d]);
  }

  /** Dealing the fields of a word out to the coordinates. */
  method Scatter(nDims: nat, nBits: nat, coords0: Word, coord: array<Word>, ghost p: Point)
    requires nDims >= 2 && nBits >= 1 && coord.Length == nDims == |p| && Times(nDims, nBits) <= WIDTH && InGrid(p, nBits)
    requires |Pack(FieldsOf(nBits, p))| <= WIDTH && coords0 == Pad(Pack(FieldsOf(nBits, p)))
    modifies coord
    ensures PointIn(coord[..]) == p
  {
    hide Pack, FieldsOf, Value, OnesMacro, And, ShiftRight, Pad, InGrid;
    var coords := coords0;
    ghost var fs := FieldsOf(nBits, p);
    ScatterBits(nDims, nBits);
    var nbOnes := OnesMacro(nBits);
    assert fs[0..] == fs;
    for d := 0 to nDims
      invariant |Pack(fs[d..])| <= WIDTH && coords == Pad(Pack(fs[d..]))
      invariant forall e :: 0 <= e < d ==> Value(coord[e]) == p[e]
    {
      ScatterStep(nBits, p, d);
      coord[d] := And(coords, nbOnes);
      coords := ShiftRight(coords, nBits);
    }
  }

  /** hilbert_i2c. */
  method HilbertI2C(nDims: nat, nBits: nat, index: Word, coord: array<Word>)
    requires 1 <= nDims < 32 && nBits >= 1 && nDims * nBits <= WIDTH && coord.Length == nDims
    requires Value(index) < Size(nDims, nBits)
    modifies coord
    ensures PointIn(coord[..]) == PointAt(nDims, nBits, Value(index))
  {
    if nDims > 1 {
      hide *;
      ghost var ix := IndexDigits(nDims, nBits, Value(index));
      ghost var p := PointOf(nDims, Cells(nDims, ix));
      TimesIsProduct(nDims, nBits);
      TimesCommutes(nDims, nBits);
      IndexWord(nDims, nBits, index);
      DigitsOfPoint(nDims, Cells(nDims, ix));
      PointIs(nDims, nBits, Value(index));
      var coords: Word;
      if nBits > 1 {
        coords := IndexToPlanes(nDims, nBits, index, ix);
      } else {
        coords := Xor(index, ShiftRight(index, 1));
        IndicesOfCells(nDims, ix);
        SinglePlane(p);
        OneDigit(nDims, nBits, p);
        NoCarry(nDims, ix);
        WordIs(GrayDigits(nDims, ix));
      }
      Scatter(nDims, nBits, coords, coord, p);
    } else {
      coord[0] := index;
    }
  }

  lemma PointIs(n: nat, m: nat, x: nat)
    requires n >= 2
    ensures PointAt(n, m, x) == PointOf(n, Cells(n, IndexDigits(n, m, x)))
  {
  }
}
