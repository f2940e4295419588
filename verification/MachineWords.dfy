/**
 * 64-bit machine words as bit strings, lowest bit first, with the C operators the curve uses.
 * Every shift amount is required to be below the width, as C requires.
 */
module MachineWords {
  import opened BitStrings

  const WIDTH: nat := 64

  type Word = w: Bits | |w| == WIDTH witness Zeros(WIDTH)

  /** A short bit string as a word. */
  function Pad(a: Bits): (w: Word)
    requires |a| <= WIDTH
  {
    a + Zeros(WIDTH - |a|)
  }

  function ShiftLeft(w: Word, k: nat): (r: Word)
    requires k < WIDTH
    ensures forall i {:trigger r[i]} :: 0 <= i < WIDTH ==> r[i] == (i >= k && w[i - k])
  {
    Zeros(k) + w[..WIDTH - k]
  }

  function ShiftRight(w: Word, k: nat): (r: Word)
    requires k < WIDTH
    ensures forall i {:trigger r[i]} :: 0 <= i < WIDTH ==> r[i] == (i + k < WIDTH && w[i + k])
  {
    w[k..] + Zeros(k)
  }

  function And(a: Word, b: Word): (r: Word)
    ensures forall i :: 0 <= i < WIDTH ==> r[i] == (a[i] && b[i])
  {
    seq(WIDTH, i requires 0 <= i < WIDTH => a[i] && b[i])
  }

  function Or(a: Word, b: Word): (r: Word)
    ensures forall i :: 0 <= i < WIDTH ==> r[i] == (a[i] || b[i])
  {
    seq(WIDTH, i requires 0 <= i < WIDTH => a[i] || b[i])
  }

  function Not(a: Bits): (r: Bits)
    ensures |r| == |a| && forall i :: 0 <= i < |a| ==> r[i] == !a[i]
  {
    seq(|a|, i requires 0 <= i < |a| => !a[i])
  }

  /** Ripple-carry addition of equally long strings, dropping the carry out. */
  function AddCarry(a: Bits, b: Bits, carry: bool): (r: Bits)
    requires |a| == |b|
    ensures |r| == |a|
  {
    if a == [] then []
    else [(a[0] != b[0]) != carry] + AddCarry(a[1..], b[1..], Majority(a[0], b[0], carry))
  }

  predicate Majority(a: bool, b: bool, c: bool) {
    (a && b) || (c && (a || b))
  }

  function Subtract(a: Word, b: Word): (r: Word) {
    AddCarry(a, Not(b), true)
  }

  /** Two's complement. */
  function Negate(a: Word): (r: Word) {
    Increment(Not(a))
  }

  /** The constant 2 << (k - 1), minus one. */
  function OnesMacro(k: nat): (r: Word)
    requires 1 <= k <= WIDTH
  {
    Subtract(ShiftLeft(Pad([false, true]), k - 1), Pad([true]))
  }

  function CarryOut(a: Bits, b: Bits, carry: bool): bool
    requires |a| == |b|
  {
    if a == [] then carry else CarryOut(a[1..], b[1..], Majority(a[0], b[0], carry))
  }

  /** Addition is addition modulo 2^|a|. */
  lemma {:induction false} AddCarryValue(a: Bits, b: Bits, carry: bool)
    requires |a| == |b|
    ensures Value(AddCarry(a, b, carry)) + (if CarryOut(a, b, carry) then Pow2(|a|) else 0)
         == Value(a) + Value(b) + if carry then 1 else 0
  {
    if a != [] {
      AddCarryValue(a[1..], b[1..], Majority(a[0], b[0], carry));
    }
  }

  lemma {:induction false} NotValue(a: Bits)
    ensures Value(Not(a)) + Value(a) == Pow2(|a|) - 1
  {
    if a != [] {
      NotValue(a[1..]);
      assert Not(a)[1..] == Not(a[1..]);
    }
  }

  /** Subtraction of words is subtraction modulo 2^64. */
  lemma {:induction false} SubtractValue(a: Word, b: Word)
    ensures Value(Subtract(a, b)) + Value(b) == Value(a) + if Value(a) < Value(b) then Pow2(WIDTH) else 0
  {
    AddCarryValue(a, Not(b), true);
    NotValue(b);
    ValueBound(a);
    ValueBound(b);
    ValueBound(Subtract(a, b));
  }

  /** Negation is the additive inverse modulo 2^64. */
  lemma {:induction false} NegateValue(a: Word)
    ensures Value(Negate(a)) + Value(a) == if Value(a) == 0 then 0 else Pow2(WIDTH)
  {
    hide Value, Pow2, Increment, FirstClear;
    NotValue(a);
    ValueBound(a);
    if a == Zeros(WIDTH) {
      ValueZeros(WIDTH);
      assert Not(a) == Ones(WIDTH);
      IncrementOnes(WIDTH);
    } else {
      var i :| 0 <= i < WIDTH && a[i];
      assert !Not(a)[i];
      ValuePositive(a, i);
      ValueIncrement(Not(a));
    }
  }

  lemma {:induction false} IncrementOnes(n: nat)
    ensures Increment(Ones(n)) == Zeros(n)
  {
    if n > 0 {
      IncrementOnes(n - 1);
      assert Ones(n)[1..] == Ones(n - 1);
    }
  }

  lemma {:induction false} ValuePositive(a: Bits, i: nat)
    requires i < |a| && a[i]
    ensures Value(a) > 0
  {
    if i > 0 {
      ValuePositive(a[1..], i - 1);
    }
  }

  // ----- the macros of the source on padded strings

  lemma ShiftLeftPad(a: Bits, k: nat)
    requires |a| + k <= WIDTH && k < WIDTH
    ensures ShiftLeft(Pad(a), k) == Pad(Zeros(k) + a)
  {
  }

  lemma ShiftRightPad(low: Bits, a: Bits)
    requires |low| + |a| <= WIDTH && |low| < WIDTH
    ensures ShiftRight(Pad(low + a), |low|) == Pad(a)
  {
  }

  lemma OrPad(low: Bits, a: Bits)
    requires |low| + |a| <= WIDTH
    ensures Or(Pad(Zeros(|low|) + a), Pad(low)) == Pad(low + a)
  {
  }

  lemma XorPad(a: Bits, b: Bits)
    requires |a| == |b| <= WIDTH
    ensures Xor(Pad(a), Pad(b)) == Pad(Xor(a, b))
  {
  }

  lemma MaskPad(a: Bits, high: Bits)
    requires |a| + |high| <= WIDTH
    ensures And(Pad(a + high), Pad(Ones(|a|))) == Pad(a)
  {
  }

  /** Reading the digit above |low| bits: shift right, then mask. */
  lemma ExtractPad(low: Bits, a: Bits, high: Bits)
    requires |low| + |a| + |high| <= WIDTH && |low| < WIDTH
    ensures And(ShiftRight(Pad(low + a + high), |low|), Pad(Ones(|a|))) == Pad(a)
  {
    assert low + a + high == low + (a + high);
    ShiftRightPad(low, a + high);
    MaskPad(a, high);
  }

  /** Appending a digit: shift left, then or. */
  lemma AppendPad(low: Bits, a: Bits)
    requires |low| + |a| <= WIDTH && |low| < WIDTH
    ensures Or(ShiftLeft(Pad(a), |low|), Pad(low)) == Pad(low + a)
  {
    ShiftLeftPad(a, |low|);
    OrPad(low, a);
  }

  lemma {:induction false} OnesMacroValue(k: nat)
    requires 1 <= k <= WIDTH
    ensures OnesMacro(k) == Pad(Ones(k))
  {
    var two := Pad([false, true]);
    var a := ShiftLeft(two, k - 1);
    assert if k < WIDTH then a == Unit(WIDTH, k) else a == Zeros(WIDTH);
    BorrowRun(a, Not(Pad([true])), k);
  }

  /** Adding minus one borrows through the k low zeros. */
  lemma BorrowRun(a: Bits, b: Bits, k: nat)
    requires |a| == |b| >= 1 && 1 <= k <= |a|
    requires a == if k < |a| then Unit(|a|, k) else Zeros(|a|)
    requires !b[0] && forall i :: 1 <= i < |b| ==> b[i]
    ensures AddCarry(a, b, true) == Ones(k) + Zeros(|a| - k)
  {
    BorrowTail(a[1..], b[1..], k - 1);
    assert Majority(a[0], b[0], true) == false;
  }

  lemma {:induction false} BorrowTail(a: Bits, b: Bits, k: nat)
    requires |a| == |b| && k <= |a|
    requires a == if k < |a| then Unit(|a|, k) else Zeros(|a|)
    requires b == Ones(|b|)
    ensures AddCarry(a, b, false) == Ones(k) + Zeros(|a| - k)
  {
    if k > 0 {
      BorrowTail(a[1..], b[1..], k - 1);
    } else if a != [] {
      CarryTail(a[1..], b[1..]);
    }
  }

  lemma {:induction false} CarryTail(a: Bits, b: Bits)
    requires |a| == |b| && a == Zeros(|a|) && b == Ones(|b|)
    ensures AddCarry(a, b, true) == Zeros(|a|)
  {
    if a != [] {
      CarryTail(a[1..], b[1..]);
    }
  }
}
