/** Bitwise operations on natural numbers. */
module Bits {
  /** Bitwise or of two numbers. */
  function NatOr(a: nat, b: nat): (r: nat)
    decreases a
  {
    if a == 0 then b else if b == 0 then a
    else (if a % 2 == 1 || b % 2 == 1 then 1 else 0) + 2 * NatOr(a / 2, b / 2)
  }

  /** Every bit of b is a bit of a. */
  predicate BitsWithin(b: nat, a: nat)
    decreases b
  {
    b == 0 || ((b % 2 == 1 ==> a % 2 == 1) && BitsWithin(b / 2, a / 2))
  }

  lemma {:induction false} OrWithin(a: nat, b: nat)
    ensures NatOr(a, b) == a <==> BitsWithin(b, a)
    decreases a + b
  {
    if a == 0 {
      if b != 0 { OrWithin(0, b / 2); }
    } else if b != 0 {
      OrWithin(a / 2, b / 2);
    }
  }

  lemma {:induction false} OrAtLeast(a: nat, b: nat)
    ensures NatOr(a, b) >= a
    decreases a + b
  {
    if a != 0 && b != 0 { OrAtLeast(a / 2, b / 2); }
  }

  /** The bits of x that m lacks. */
  function AndNot(x: nat, m: nat): (r: nat) {
    if x == 0 then 0 else 2 * AndNot(x / 2, m / 2) + (if x % 2 == 1 && m % 2 == 0 then 1 else 0)
  }

  lemma {:induction false} SelfWithin(a: nat)
    ensures BitsWithin(a, a)
  {
    if a != 0 { SelfWithin(a / 2); }
  }

  // Single bits of a word.

  predicate TestBit(w: nat, b: nat) {
    if b == 0 then w % 2 == 1 else TestBit(w / 2, b - 1)
  }

  /** w | 1 << b */
  function SetBit(w: nat, b: nat): (r: nat) {
    if b == 0 then w / 2 * 2 + 1 else SetBit(w / 2, b - 1) * 2 + w % 2
  }

  /** w & ~(1 << b) */
  function ClearBit(w: nat, b: nat): (r: nat) {
    if b == 0 then w / 2 * 2 else ClearBit(w / 2, b - 1) * 2 + w % 2
  }

  lemma {:induction false} BitChanged(w: nat, b: nat, c: nat)
    ensures TestBit(SetBit(w, b), c) <==> b == c || TestBit(w, c)
    ensures TestBit(ClearBit(w, b), c) <==> b != c && TestBit(w, c)
  {
    if b > 0 && c > 0 {
      BitChanged(w / 2, b - 1, c - 1);
    }
  }

  /** A word of n bits stays one. */
  lemma {:induction false} BitBounds(w: nat, b: nat, n: nat)
    requires b < n && w < Pow2(n)
    ensures SetBit(w, b) < Pow2(n) && ClearBit(w, b) < Pow2(n)
  {
    if b > 0 {
      BitBounds(w / 2, b - 1, n - 1);
    }
  }

  lemma {:induction false} AllOnes(n: nat, b: nat)
    requires b < n
    ensures TestBit(Pow2(n) - 1, b)
  {
    if b > 0 {
      assert (Pow2(n) - 1) / 2 == Pow2(n - 1) - 1;
      AllOnes(n - 1, b - 1);
    }
  }

  function Pow2(n: nat): (r: nat)
    ensures r > 0
  {
    if n == 0 then 1 else 2 * Pow2(n - 1)
  }
}
