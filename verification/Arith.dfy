/** Shifts and masks by a power of two, as quotient and remainder.

    `Times`, `Quot` and `Rem` are multiplication, division and remainder, written by repeated
    addition and subtraction: every proof about them is linear, and `TimesIs` and `QuotRemIs`
    say that they are the usual operators. */
module Arith {

  function Times(i: nat, s: nat): (r: nat) {
    if i == 0 then 0 else Times(i - 1, s) + s
  }

  function Quot(y: nat, s: nat): (r: nat)
    requires s > 0
  {
    if y < s then 0 else 1 + Quot(y - s, s)
  }

  function Rem(y: nat, s: nat): (r: nat)
    requires s > 0
    ensures r < s && r <= y
  {
    if y < s then y else Rem(y - s, s)
  }

  lemma {:induction false} TimesIs(i: nat, s: nat)
    ensures Times(i, s) == i * s
  {
    if i > 0 { TimesIs(i - 1, s); }
  }

  lemma {:induction false} QuotRem(y: nat, s: nat)
    requires s > 0
    ensures y == Times(Quot(y, s), s) + Rem(y, s)
  {
    if y >= s { QuotRem(y - s, s); }
  }

  lemma {:induction false} TimesLess(i: nat, j: nat, s: nat)
    requires i < j
    ensures Times(i, s) + s <= Times(j, s)
  {
    if i + 1 < j { TimesLess(i, j - 1, s); }
  }

  lemma {:induction false} TimesSum(i: nat, j: nat, s: nat)
    ensures Times(i + j, s) == Times(i, s) + Times(j, s)
  {
    if j > 0 { TimesSum(i, j - 1, s); }
  }

  lemma {:induction false} TimesAssoc(k: nat, n: nat, s: nat)
    ensures Times(Times(k, n), s) == Times(k, Times(n, s))
  {
    if k > 0 {
      TimesAssoc(k - 1, n, s);
      TimesSum(Times(k - 1, n), n, s);
    }
  }

  lemma QuotUnique(y: nat, s: nat, q: nat)
    requires s > 0 && Times(q, s) <= y < Times(q, s) + s
    ensures Quot(y, s) == q && Rem(y, s) == y - Times(q, s)
  {
    QuotRem(y, s);
    if Quot(y, s) < q { TimesLess(Quot(y, s), q, s); }
    if q < Quot(y, s) { TimesLess(q, Quot(y, s), s); }
  }

  lemma QuotRemIs(y: nat, s: nat)
    requires s > 0
    ensures Quot(y, s) == y / s && Rem(y, s) == y % s
  {
    TimesIs(y / s, s);
    QuotUnique(y, s, y / s);
  }

  lemma QuotBelow(y: nat, n: nat, s: nat)
    requires s > 0 && y < Times(n, s)
    ensures Quot(y, s) < n
  {
    QuotRem(y, s);
    if n < Quot(y, s) { TimesLess(n, Quot(y, s), s); }
  }

  // Adding a multiple of s keeps the remainder and adds to the quotient.
  lemma AddTimes(k: nat, s: nat, c: nat)
    requires s > 0
    ensures Rem(Times(k, s) + c, s) == Rem(c, s) && Quot(Times(k, s) + c, s) == k + Quot(c, s)
  {
    QuotRem(c, s);
    TimesSum(k, Quot(c, s), s);
    QuotUnique(Times(k, s) + c, s, k + Quot(c, s));
  }

  lemma RemTimes(k: nat, s: nat)
    requires s > 0
    ensures Rem(Times(k, s), s) == 0 && Quot(Times(k, s), s) == k
  {
    AddTimes(k, s, 0);
  }

  lemma RemSelf(s: nat)
    requires s > 0
    ensures Rem(s, s) == 0
  {
    RemTimes(1, s);
  }

  lemma AddMultiple(x: nat, c: nat, s: nat)
    requires s > 0 && Rem(x, s) == 0
    ensures Rem(x + c, s) == Rem(c, s)
  {
    QuotRem(x, s);
    AddTimes(Quot(x, s), s, c);
  }

  lemma SubMultiple(x: nat, c: nat, s: nat)
    requires s > 0 && Rem(c, s) == 0 && c <= x
    ensures Rem(x - c, s) == Rem(x, s)
  {
    AddMultiple(c, x - c, s);
  }

  lemma MultiplesApart(a: nat, b: nat, s: nat)
    requires s > 0 && Rem(a, s) == 0 && Rem(b, s) == 0 && a < b
    ensures a + s <= b
  {
    SubMultiple(b, a, s);
  }

  // A multiple of a multiple of s is a multiple of s.
  lemma MultipleOfMultiple(x: nat, u: nat, s: nat)
    requires u > 0 && s > 0 && Rem(x, u) == 0 && Rem(u, s) == 0
    ensures Rem(x, s) == 0
  {
    QuotRem(x, u);
    QuotRem(u, s);
    TimesAssoc(Quot(x, u), Quot(u, s), s);
    RemTimes(Times(Quot(x, u), Quot(u, s)), s);
  }

  // One base-n digit of y, in units of s, locates y inside an aligned range of n units.
  lemma Digit(base: nat, y: nat, n: nat, s: nat)
    requires n > 0 && s > 0 && Times(n, s) > 0 && Rem(base, Times(n, s)) == 0 && base <= y < base + Times(n, s)
    ensures var i := Rem(Quot(y, s), n); base + Times(i, s) <= y < base + Times(i, s) + s
    ensures Rem(y, s) == y - base - Times(Rem(Quot(y, s), n), s)
  {
    var k, d := Quot(base, Times(n, s)), y - base;
    QuotRem(base, Times(n, s));
    DigitPeriod(k, n, s, d);
    assert Times(k, Times(n, s)) + d == y;
    QuotBelow(d, n, s);
    assert Rem(Quot(d, s), n) == Quot(d, s);
    QuotRem(d, s);
  }

  // Adding a multiple of n units changes neither the digit nor the remainder.
  lemma DigitPeriod(k: nat, n: nat, s: nat, c: nat)
    requires n > 0 && s > 0
    ensures Rem(Times(k, Times(n, s)) + c, s) == Rem(c, s)
    ensures Rem(Quot(Times(k, Times(n, s)) + c, s), n) == Rem(Quot(c, s), n)
  {
    TimesAssoc(k, n, s);
    AddTimes(Times(k, n), s, c);
    AddTimes(k, n, Quot(c, s));
  }

  function RoundUp(x: nat, p: nat): (r: nat)
    requires p > 0
    ensures x <= r < x + p
  {
    if Rem(x, p) == 0 then x else x - Rem(x, p) + p
  }

  lemma RoundUpMultiple(x: nat, p: nat)
    requires p > 0
    ensures Rem(RoundUp(x, p), p) == 0
  {
    RemFloor(x, p);
    RemTimes(1, p);
    AddMultiple(x - Rem(x, p), p, p);
  }

  lemma RemFloor(x: nat, p: nat)
    requires p > 0
    ensures Rem(x - Rem(x, p), p) == 0
  {
    QuotRem(x, p);
    RemTimes(Quot(x, p), p);
  }

  lemma RoundUpUnique(x: nat, r: nat, p: nat)
    requires p > 0 && Rem(r, p) == 0 && x <= r < x + p
    ensures RoundUp(x, p) == r
  {
    RoundUpMultiple(x, p);
    var u := RoundUp(x, p);
    if u < r { MultiplesApart(u, r, p); }
    if r < u { MultiplesApart(r, u, p); }
  }

  function Pow2(k: nat): (r: nat)
    ensures r > 0
  {
    if k == 0 then 1 else 2 * Pow2(k - 1)
  }

  lemma {:induction false} Pow2Sum(a: nat, b: nat)
    ensures Pow2(a + b) == Times(Pow2(a), Pow2(b))
  {
    if a > 0 {
      Pow2Sum(a - 1, b);
      TimesSum(Pow2(a - 1), Pow2(a - 1), Pow2(b));
    } else {
      assert Times(1, Pow2(b)) == Times(0, Pow2(b)) + Pow2(b);
    }
  }
}
