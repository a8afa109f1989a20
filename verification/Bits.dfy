/** Masks and shifts of unsigned numbers, and what they come to for powers of two. */
module Bits {

  function Pow2(k: nat): (r: nat)
    ensures r > 0
  {
    if k == 0 then 1 else 2 * Pow2(k - 1)
  }

  /** a & b, bit by bit. */
  function And(a: nat, b: nat): (r: nat)
    ensures r <= b
    decreases a
  {
    if a == 0 then 0 else 2 * And(a / 2, b / 2) + if a % 2 == 1 && b % 2 == 1 then 1 else 0
  }

  /** a >> k, bit by bit. */
  function Shr(a: nat, k: nat): nat
    decreases k
  {
    if k == 0 then a else Shr(a / 2, k - 1)
  }

  lemma HalfMod(a: nat, m: nat)
    requires m > 0
    ensures a % (2 * m) == 2 * (a / 2 % m) + a % 2
    ensures a / (2 * m) == a / 2 / m
  {
    var q, r := a / 2 / m, a / 2 % m;
    QuotientRemainder(a / 2, m);
    assert Times(q, 2 * m) == 2 * Times(q, m);
    DivMod(a, 2 * m, q, 2 * r + a % 2);
  }

  /** Multiplication, kept apart from the solver's arithmetic. */
  function Times(a: int, m: int): int
  {
    a * m
  }

  lemma TimesLess(a: int, b: int, m: nat)
    requires a < b
    ensures Times(a, m) + m <= Times(b, m)
  {
    assert (b - a - 1) * m >= 0;
  }

  lemma TimesSteps(a: int, m: int)
    ensures Times(0, m) == 0 && Times(a, m) == Times(a - 1, m) + m
  {
  }

  lemma TimesClose(a: nat, m: int, m': int)
    requires m' <= m <= m' + 1
    ensures 0 <= Times(a, m) - Times(a, m') <= a
  {
    if m == m' + 1 {
      assert a * m == a * m' + a;
    }
  }

  lemma QuotientRemainder(a: nat, m: nat)
    requires m > 0
    ensures a == Times(a / m, m) + a % m && a % m < m
  {
  }

  lemma DivMod(a: nat, m: nat, q: nat, r: nat)
    requires m > 0 && r < m && a == Times(q, m) + r
    ensures a / m == q && a % m == r
  {
    QuotientRemainder(a, m);
    hide Times;
    var q' := a / m;
    if q < q' {
      TimesLess(q, q', m);
    } else if q' < q {
      TimesLess(q', q, m);
    }
  }

  lemma MaskBits(a: nat, m: nat)
    requires m > 0 && a != 0
    ensures And(a, 2 * m - 1) == 2 * And(a / 2, m - 1) + a % 2
  {
    assert (2 * m - 1) / 2 == m - 1 && (2 * m - 1) % 2 == 1;
  }

  lemma MaskStep(a: nat, m: nat)
    requires m > 0 && And(a / 2, m - 1) == a / 2 % m
    ensures And(a, 2 * m - 1) == a % (2 * m)
  {
    HalfMod(a, m);
    if a == 0 {
    } else {
      MaskBits(a, m);
    }
  }

  /** Masking with 2^k - 1 takes the remainder modulo 2^k. */
  lemma {:induction false} MaskIsRemainder(a: nat, k: nat)
    ensures And(a, Pow2(k) - 1) == a % Pow2(k)
    decreases k
  {
    if k == 0 {
      MaskZero(a);
    } else {
      hide And;
      MaskIsRemainder(a / 2, k - 1);
      MaskStep(a, Pow2(k - 1));
    }
  }

  lemma {:induction false} MaskZero(a: nat)
    ensures And(a, 0) == 0
  {
    if a != 0 {
      MaskZero(a / 2);
    }
  }

  /** Shifting right by k divides by 2^k. */
  lemma {:induction false} ShiftIsQuotient(a: nat, k: nat)
    ensures Shr(a, k) == a / Pow2(k)
    decreases k
  {
    if k > 0 {
      ShiftIsQuotient(a / 2, k - 1);
      HalfMod(a, Pow2(k - 1));
    }
  }

  /** The least number of which m copies cover a. */
  predicate IsCeiling(a: nat, m: nat, c: nat)
  {
    a <= Times(c, m) && (c == 0 || Times(c - 1, m) < a)
  }

  /** The quotient by shift, one more if the mask leaves a remainder, is the quotient rounded up. */
  lemma CeilingByShift(a: nat, k: nat)
    ensures IsCeiling(a, Pow2(k), Shr(a, k) + if And(a, Pow2(k) - 1) != 0 then 1 else 0)
  {
    var m := Pow2(k);
    MaskIsRemainder(a, k);
    ShiftIsQuotient(a, k);
    QuotientRemainder(a, m);
    TimesLess(a / m - 1, a / m, m);
    TimesLess(a / m, a / m + 1, m);
  }

  /** a | b, bit by bit. */
  function Or(a: nat, b: nat): nat
    decreases a, b
  {
    if a == 0 then b
    else if b == 0 then a
    else 2 * Or(a / 2, b / 2) + if a % 2 == 1 || b % 2 == 1 then 1 else 0
  }

  lemma OrHalf(a: nat, b: nat)
    ensures Or(a, b) / 2 == Or(a / 2, b / 2)
    ensures Or(a, b) % 2 == if a % 2 == 1 || b % 2 == 1 then 1 else 0
  {
  }

  lemma {:induction false} OrCommutes(a: nat, b: nat)
    ensures Or(a, b) == Or(b, a)
    decreases a
  {
    if a > 0 && b > 0 {
      OrCommutes(a / 2, b / 2);
    }
  }

  lemma AndHalf(a: nat, b: nat)
    ensures And(a, b) / 2 == And(a / 2, b / 2)
    ensures And(a, b) % 2 == if a % 2 == 1 && b % 2 == 1 then 1 else 0
  {
  }

  lemma TimesDouble(b: nat, m: nat)
    ensures Times(b, 2 * m) == 2 * Times(b, m)
  {
  }

  /** Setting bits from position k on in a number below 2^k adds them. */
  lemma {:induction false} OrAdds(a: nat, b: nat, k: nat)
    requires a < Pow2(k)
    ensures Times(b, Pow2(k)) >= 0 && Or(a, Times(b, Pow2(k))) == a + Times(b, Pow2(k))
    decreases k
  {
    TimesIsNat(b, Pow2(k));
    hide Times;
    if k == 0 {
    } else {
      hide Or;
      TimesDouble(b, Pow2(k - 1));
      OrAdds(a / 2, b, k - 1);
      OrHalf(a, Times(b, Pow2(k)));
    }
  }

  lemma TimesIsNat(b: nat, m: nat)
    ensures Times(b, m) >= 0
  {
  }

  lemma PeelBit(a: nat, mark: nat, mask: nat)
    requires mark % 2 == 0 && mask % 2 == 1
    ensures And(Or(a, mark), mask) == 2 * And(Or(a / 2, mark / 2), mask / 2) + a % 2
  {
    OrHalf(a, mark);
    AndHalf(Or(a, mark), mask);
  }

  /** The six low bits of a number behind the two bits of a UTF-8 continuation byte. */
  lemma LowSixMarked(a: nat)
    ensures And(Or(a, 0x80), 0xBF) == 0x80 + a % 64
  {
    hide And, Or;
    PeelBit(a, 0x80, 0xBF);
    PeelBit(a / 2, 0x40, 0x5F);
    PeelBit(a / 2 / 2, 0x20, 0x2F);
    PeelBit(a / 2 / 2 / 2, 0x10, 0x17);
    PeelBit(a / 2 / 2 / 2 / 2, 0x8, 0xB);
    PeelBit(a / 2 / 2 / 2 / 2 / 2, 0x4, 0x5);
    MarkStays(a / 2 / 2 / 2 / 2 / 2 / 2);
  }

  lemma MarkStays(y: nat)
    ensures And(Or(y, 2), 2) == 2
  {
    OrHalf(y, 2);
    AndHalf(Or(y, 2), 2);
    OrHalf(y / 2, 1);
    AndHalf(Or(y / 2, 1), 1);
    MaskZero(Or(y / 2 / 2, 0));
    MaskZero(Or(y / 2, 1) / 2);
  }
}
