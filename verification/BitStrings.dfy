/** Bit strings, lowest bit first: the digits of a Hilbert index and the fields of a machine word. */
module BitStrings {
  import opened Arithmetic

  type Bits = seq<bool>

  function Zeros(n: nat): (r: Bits)
    ensures |r| == n && forall k :: 0 <= k < n ==> !r[k]
  {
    seq(n, _ => false)
  }

  function Ones(n: nat): (r: Bits)
    ensures |r| == n && forall k :: 0 <= k < n ==> r[k]
  {
    seq(n, _ => true)
  }

  /** The string of length n whose only set bit is bit k. */
  function Unit(n: nat, k: nat): (r: Bits)
    ensures |r| == n && forall i :: 0 <= i < n ==> r[i] == (i == k)
  {
    seq(n, i => i == k)
  }

  function Xor(a: Bits, b: Bits): (r: Bits)
    requires |a| == |b|
    ensures |r| == |a| && forall i :: 0 <= i < |a| ==> r[i] == (a[i] != b[i])
  {
    seq(|a|, i requires 0 <= i < |a| => a[i] != b[i])
  }

  /** Rotation towards the high bits: bit i moves to bit (i + r) mod |a|. */
  function RotateLeft(a: Bits, r: nat): (b: Bits)
    requires r <= |a|
    ensures |b| == |a|
  {
    a[|a| - r..] + a[..|a| - r]
  }

  function RotateRight(a: Bits, r: nat): (b: Bits)
    requires r <= |a|
    ensures |b| == |a|
  {
    a[r..] + a[..r]
  }

  function Parity(a: Bits): bool {
    if a == [] then false else a[0] != Parity(a[1..])
  }

  /** Position of the lowest set bit, |a| if there is none. */
  function FirstSet(a: Bits): (f: nat)
    ensures f <= |a|
    ensures forall i :: 0 <= i < f ==> !a[i]
    ensures f < |a| ==> a[f]
  {
    if a == [] || a[0] then 0
    else
      var f := FirstSet(a[1..]);
      assert forall i :: 0 < i <= f ==> a[i] == a[1..][i - 1];
      1 + f
  }

  /** Position of the lowest clear bit, |a| if there is none. */
  function FirstClear(a: Bits): (f: nat)
    ensures f <= |a|
    ensures forall i :: 0 <= i < f ==> a[i]
    ensures f < |a| ==> !a[f]
  {
    if a == [] || !a[0] then 0
    else
      var f := FirstClear(a[1..]);
      assert forall i :: 0 < i <= f ==> a[i] == a[1..][i - 1];
      1 + f
  }

  /** The number a bit string denotes. */
  function Value(a: Bits): (v: nat) {
    if a == [] then 0 else (if a[0] then 1 else 0) + 2 * Value(a[1..])
  }

  function Pow2(k: nat): (p: nat)
    ensures p >= 1
  {
    if k == 0 then 1 else 2 * Pow2(k - 1)
  }

  /** The n lowest bits of x. */
  function FromValue(x: nat, n: nat): (r: Bits)
    ensures |r| == n
  {
    if n == 0 then [] else [x % 2 == 1] + FromValue(x / 2, n - 1)
  }

  /** x without its n lowest bits. */
  function Shift(x: nat, n: nat): (r: nat) {
    if n == 0 then x else Shift(x / 2, n - 1)
  }

  /** The successor of a bit string, wrapping from all ones to all zeros. */
  function Increment(a: Bits): (r: Bits)
    ensures |r| == |a|
    ensures forall i :: 0 <= i < |a| ==> r[i] == if i < FirstClear(a) then false else if i == FirstClear(a) then true else a[i]
  {
    if a == [] then []
    else if !a[0] then [true] + a[1..]
    else
      var r := Increment(a[1..]);
      assert forall i :: 0 < i < |a| ==> a[i] == a[1..][i - 1];
      [false] + r
  }

  // ----- parity

  lemma {:induction false} ParityConcat(a: Bits, b: Bits)
    ensures Parity(a + b) == (Parity(a) != Parity(b))
  {
    if a == [] {
      assert a + b == b;
    } else {
      ParityConcat(a[1..], b);
      assert (a + b)[1..] == a[1..] + b;
    }
  }

  lemma {:induction false} ParityXor(a: Bits, b: Bits)
    requires |a| == |b|
    ensures Parity(Xor(a, b)) == (Parity(a) != Parity(b))
  {
    if a != [] {
      ParityXor(a[1..], b[1..]);
      assert Xor(a, b)[1..] == Xor(a[1..], b[1..]);
    }
  }

  lemma {:induction false} ParityZeros(n: nat)
    ensures !Parity(Zeros(n))
  {
    if n > 0 {
      ParityZeros(n - 1);
      assert Zeros(n)[1..] == Zeros(n - 1);
    }
  }

  lemma {:induction false} ParityUnit(n: nat, k: nat)
    requires k < n
    ensures Parity(Unit(n, k))
  {
    if k == 0 {
      ParityZeros(n - 1);
      assert Unit(n, k)[1..] == Zeros(n - 1);
    } else {
      ParityUnit(n - 1, k - 1);
      assert Unit(n, k)[1..] == Unit(n - 1, k - 1);
    }
  }

  lemma ParityRotate(a: Bits, r: nat)
    requires r <= |a|
    ensures Parity(RotateLeft(a, r)) == Parity(a)
  {
    ParityConcat(a[|a| - r..], a[..|a| - r]);
    ParityConcat(a[..|a| - r], a[|a| - r..]);
    assert a == a[..|a| - r] + a[|a| - r..];
  }

  // ----- rotation

  /** x brought below n by at most one subtraction, as the source reduces a rotation. */
  function Wrap(x: nat, n: nat): (r: nat)
    requires x < 2 * n
    ensures r < n
  {
    if x >= n then x - n else x
  }

  lemma RotateRoundTrip(a: Bits, r: nat)
    requires r <= |a|
    ensures RotateRight(RotateLeft(a, r), r) == a
    ensures RotateLeft(RotateRight(a, r), r) == a
  {
    assert RotateLeft(a, r)[r..] == a[..|a| - r];
    assert RotateRight(a, r)[|a| - r..] == a[..r];
  }

  /** Two strings that differ in bit b only differ, once rotated, in bit b + r only. */
  lemma RotateDifference(a: Bits, a': Bits, r: nat, b: nat)
    requires r < |a| == |a'| && b < |a|
    requires a' == a[b := !a[b]]
    ensures RotateLeft(a', r) == RotateLeft(a, r)[Wrap(b + r, |a|) := !RotateLeft(a, r)[Wrap(b + r, |a|)]]
  {
  }

  // ----- values

  lemma {:induction false} ValueBound(a: Bits)
    ensures Value(a) < Pow2(|a|)
  {
    if a != [] {
      ValueBound(a[1..]);
    }
  }

  /** A number is its high part shifted up plus its low bits. */
  lemma {:induction false} ShiftSplit(x: nat, n: nat)
    ensures x == Times(Shift(x, n), Pow2(n)) + Value(FromValue(x, n))
  {
    if n == 0 {
      TimesZeroOne(x);
    } else {
      ShiftSplit(x / 2, n - 1);
      TimesDouble(Shift(x, n), Pow2(n - 1));
    }
  }

  lemma {:induction false} ShiftJoin(q: nat, a: Bits)
    ensures Shift(Times(q, Pow2(|a|)) + Value(a), |a|) == q
    ensures FromValue(Times(q, Pow2(|a|)) + Value(a), |a|) == a
  {
    hide Times, Shift, FromValue;
    if a == [] {
      TimesZeroOne(q);
      NothingJoined(q);
    } else {
      TimesDouble(q, Pow2(|a| - 1));
      ShiftJoin(q, a[1..]);
      JoinStep(Times(q, Pow2(|a| - 1)) + Value(a[1..]), a);
    }
  }

  lemma NothingJoined(q: nat)
    ensures Shift(q, 0) == q && FromValue(q, 0) == []
  {
  }

  lemma {:induction false} JoinStep(x: nat, a: Bits)
    requires a != []
    ensures var y := 2 * x + if a[0] then 1 else 0;
      Shift(y, |a|) == Shift(x, |a| - 1) && FromValue(y, |a|) == [a[0]] + FromValue(x, |a| - 1)
  {
    var y := 2 * x + if a[0] then 1 else 0;
    assert y / 2 == x;
  }

  lemma {:induction false} ValueConcat(a: Bits, b: Bits)
    ensures Value(a + b) == Times(Value(b), Pow2(|a|)) + Value(a)
  {
    if a == [] {
      assert a + b == b;
      TimesZeroOne(Value(b));
    } else {
      ValueConcat(a[1..], b);
      assert (a + b)[1..] == a[1..] + b;
      TimesDouble(Value(b), Pow2(|a| - 1));
    }
  }

  lemma {:induction false} ValueZeros(n: nat)
    ensures Value(Zeros(n)) == 0
  {
    if n > 0 {
      assert Zeros(n)[1..] == Zeros(n - 1);
      ValueZeros(n - 1);
    }
  }

  lemma {:induction false} ValueOnes(n: nat)
    ensures Value(Ones(n)) == Pow2(n) - 1
  {
    if n > 0 {
      assert Ones(n)[1..] == Ones(n - 1);
      ValueOnes(n - 1);
    }
  }

  lemma {:induction false} ValueIncrement(a: Bits)
    requires FirstClear(a) < |a|
    ensures Value(Increment(a)) == Value(a) + 1
  {
    if a[0] {
      ValueIncrement(a[1..]);
    }
  }

  lemma {:induction false} Pow2Add(a: nat, b: nat)
    ensures Pow2(a + b) == Times(Pow2(a), Pow2(b))
  {
    if a > 0 {
      Pow2Add(a - 1, b);
      TimesDouble(Pow2(a - 1), Pow2(b));
    }
  }

  lemma {:induction false} FromZero(w: nat)
    ensures FromValue(0, w) == Zeros(w)
  {
    if w > 0 {
      FromZero(w - 1);
    }
  }

  lemma {:induction false} BitOfValue(x: nat, n: nat, d: nat)
    requires d < n
    ensures FromValue(x, n)[d] == (x / Pow2(d) % 2 == 1)
  {
    if d > 0 {
      BitOfValue(x / 2, n - 1, d - 1);
      HalfQuotient(x, Pow2(d - 1));
    }
  }

  lemma HalfQuotient(x: nat, b: nat)
    requires b > 0
    ensures x / 2 / b == x / (2 * b)
  {
    var h := x / 2;
    var q, r := DivMod(h, b);
    var q', r' := DivMod(x, 2 * b);
    TimesDouble(q, b);
    assert x == Times(q, 2 * b) + (2 * r + x % 2);
    HighLowUnique(q, 2 * r + x % 2, q', r', 2 * b);
  }
}
