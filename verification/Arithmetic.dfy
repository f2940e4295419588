/**
 * Multiplication of variables, kept behind a recursive function so that the solver only meets it
 * where a lemma below is called.
 */
module Arithmetic {
  function Times(a: nat, b: nat): nat {
    if a == 0 then 0 else b + Times(a - 1, b)
  }

  lemma {:induction false} TimesIsProduct(a: nat, b: nat)
    ensures Times(a, b) == a * b
  {
    if a > 0 {
      TimesIsProduct(a - 1, b);
      assert (a - 1) * b + b == a * b;
    }
  }

  lemma TimesCommutes(a: nat, b: nat)
    ensures Times(a, b) == Times(b, a)
  {
    TimesIsProduct(a, b);
    TimesIsProduct(b, a);
  }

  lemma {:induction false} TimesAdd(a: nat, b: nat, c: nat)
    ensures Times(a + b, c) == Times(a, c) + Times(b, c)
  {
    if a > 0 {
      TimesAdd(a - 1, b, c);
    }
  }

  lemma TimesAddRight(a: nat, b: nat, c: nat)
    ensures Times(a, b + c) == Times(a, b) + Times(a, c)
  {
    TimesCommutes(a, b + c);
    TimesCommutes(a, b);
    TimesCommutes(a, c);
    TimesAdd(b, c, a);
  }

  lemma {:induction false} TimesAssociates(a: nat, b: nat, c: nat)
    ensures Times(Times(a, b), c) == Times(a, Times(b, c))
  {
    if a > 0 {
      TimesAssociates(a - 1, b, c);
      TimesAdd(b, Times(a - 1, b), c);
    }
  }

  lemma TimesMonotone(a: nat, b: nat, c: nat)
    requires a <= b
    ensures Times(a, c) <= Times(b, c)
  {
    TimesAdd(b - a, a, c);
  }

  lemma {:induction false} TimesZeroOne(a: nat)
    ensures Times(a, 0) == 0 && Times(a, 1) == a
  {
    if a > 0 {
      TimesZeroOne(a - 1);
    }
  }

  lemma OneTimes(n: nat)
    ensures Times(1, n) == n
  {
  }

  lemma TimesDouble(a: nat, b: nat)
    ensures Times(a, 2 * b) == 2 * Times(a, b) == Times(2 * a, b)
  {
    TimesAddRight(a, b, b);
    TimesAdd(a, a, b);
  }

  lemma TimesPositive(a: nat, b: nat)
    requires a > 0 && b > 0
    ensures Times(a, b) > 0
  {
  }

  /** Lexicographic order of (high, low) pairs with low < b is the order of high * b + low. */
  lemma HighLowOrder(q: nat, r: nat, s: nat, b: nat)
    requires r < b
    ensures q < s <==> Times(q, b) + r < Times(s, b)
  {
    if q < s {
      TimesMonotone(q + 1, s, b);
    } else {
      TimesMonotone(s, q, b);
    }
  }

  /** A number is high * b + low with low < b in one way only. */
  lemma HighLowUnique(q: nat, r: nat, q': nat, r': nat, b: nat)
    requires r < b && r' < b && Times(q, b) + r == Times(q', b) + r'
    ensures q == q' && r == r'
  {
    HighLowOrder(q, r, q', b);
    HighLowOrder(q', r', q, b);
  }

  lemma DivMod(x: nat, b: nat) returns (q: nat, r: nat)
    requires b > 0
    ensures x == Times(q, b) + r && q == x / b && r == x % b && r < b
  {
    q, r := x / b, x % b;
    TimesIsProduct(q, b);
  }
}
