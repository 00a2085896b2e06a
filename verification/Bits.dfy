/** Single bits of machine words, the words being natural numbers. */
module Bits {
  import opened Arithmetic

  function Pow2(n: nat): (p: nat)
    ensures p > 0
  {
    if n == 0 then 1 else 2 * Pow2(n - 1)
  }

  predicate Bit(w: nat, b: nat) {
    if b == 0 then w % 2 == 1 else Bit(w / 2, b - 1)
  }

  /** `w | 1 << b` */
  function SetBit(w: nat, b: nat): nat {
    if b == 0 then w - w % 2 + 1 else 2 * SetBit(w / 2, b - 1) + w % 2
  }

  /** `w & ~(1 << b)` */
  function ClearBit(w: nat, b: nat): nat {
    if b == 0 then w - w % 2 else 2 * ClearBit(w / 2, b - 1) + w % 2
  }

  /** `w >> b` */
  function ShiftRight(w: nat, b: nat): nat {
    if b == 0 then w else ShiftRight(w / 2, b - 1)
  }

  /** The word with exactly the `k` lowest bits set. */
  function Ones(k: nat): nat {
    if k == 0 then 0 else 2 * Ones(k - 1) + 1
  }

  lemma {:induction false} BitsOfSet(w: nat, b: nat, c: nat)
    ensures Bit(SetBit(w, b), c) <==> b == c || Bit(w, c)
  {
    if b > 0 && c > 0 { BitsOfSet(w / 2, b - 1, c - 1); }
    if b > 0 { assert SetBit(w, b) / 2 == SetBit(w / 2, b - 1); } else { assert SetBit(w, b) / 2 == w / 2; }
  }

  lemma {:induction false} BitsOfClear(w: nat, b: nat, c: nat)
    ensures Bit(ClearBit(w, b), c) <==> b != c && Bit(w, c)
  {
    if b > 0 && c > 0 { BitsOfClear(w / 2, b - 1, c - 1); }
    if b > 0 { assert ClearBit(w, b) / 2 == ClearBit(w / 2, b - 1); } else { assert ClearBit(w, b) / 2 == w / 2; }
  }

  lemma {:induction false} WidthOfSet(w: nat, b: nat, n: nat)
    requires w < Pow2(n) && b < n
    ensures SetBit(w, b) < Pow2(n)
  {
    if b > 0 { WidthOfSet(w / 2, b - 1, n - 1); }
  }

  lemma {:induction false} WidthOfClear(w: nat, b: nat)
    ensures ClearBit(w, b) <= w
  {
    if b > 0 { WidthOfClear(w / 2, b - 1); }
  }

  /** A word that is zero from bit `b` on has no bit set there. */
  lemma {:induction false} ShiftedOut(w: nat, b: nat, c: nat)
    requires ShiftRight(w, b) == 0 && b <= c
    ensures !Bit(w, c)
  {
    if b > 0 { ShiftedOut(w / 2, b - 1, c - 1); } else { NoBits(c); }
  }

  /** A word that is not has some bit set there. */
  lemma {:induction false} StillThere(w: nat, b: nat, n: nat) returns (c: nat)
    requires w < Pow2(n) && ShiftRight(w, b) != 0
    ensures b <= c < n && Bit(w, c)
    decreases n
  {
    if b == 0 {
      c := SomeBit(w, n);
    } else if n == 0 {
      ShiftZero(b);
    } else {
      c := StillThere(w / 2, b - 1, n - 1);
      c := c + 1;
    }
  }

  lemma {:induction false} ShiftZero(b: nat)
    ensures ShiftRight(0, b) == 0
  {
    if b > 0 { ShiftZero(b - 1); }
  }

  lemma {:induction false} NoBits(c: nat)
    ensures !Bit(0, c)
  {
    if c > 0 { NoBits(c - 1); }
  }

  lemma {:induction false} SomeBit(w: nat, n: nat) returns (c: nat)
    requires 0 < w < Pow2(n)
    ensures c < n && Bit(w, c)
  {
    if w % 2 == 1 { c := 0; } else { c := SomeBit(w / 2, n - 1); c := c + 1; }
  }

  lemma {:induction false} BitsOfOnes(k: nat, c: nat)
    ensures Bit(Ones(k), c) <==> c < k
  {
    if k > 0 && c > 0 { BitsOfOnes(k - 1, c - 1); }
    if k == 0 { NoBits(c); } else { assert Ones(k) / 2 == Ones(k - 1); }
  }

  lemma {:induction false} NextOne(k: nat)
    ensures SetBit(Ones(k), k) == Ones(k + 1)
  {
    if k > 0 { NextOne(k - 1); }
  }

  lemma {:induction false} WidthOfOnes(k: nat, n: nat)
    requires k <= n
    ensures Ones(k) < Pow2(n)
  {
    if k > 0 { WidthOfOnes(k - 1, n - 1); }
  }

  // ----- The same in numbers ---------------------------------------------------------------------------------

  lemma {:induction false} HalfQuotient(w: nat, b: nat)
    requires b > 0
    ensures w / Pow2(b) == w / 2 / Pow2(b - 1)
  {
    DivideTwice(w, 2, Pow2(b - 1));
  }

  lemma DivideTwice(w: nat, c: nat, d: nat)
    requires c > 0 && d > 0
    ensures c * d > 0 && w / (c * d) == w / c / d
  {
    var q, r, s := w / c / d, w / c % d, w % c;
    assert w == (q * d + r) * c + s && (q * d + r) * c + s == q * (c * d) + (r * c + s);
    MulMonotone(r + 1, d, c);
    DivModUnique(q, r * c + s, c * d);
  }

  /** Bit `b` of a word, and what is left of the word behind it, in numbers. */
  lemma {:induction false} BitInNumbers(w: nat, b: nat)
    ensures ShiftRight(w, b) == w / Pow2(b)
    ensures Bit(w, b) <==> w / Pow2(b) % 2 == 1
    decreases b
  {
    if b > 0 {
      HalfQuotient(w, b);
      BitInNumbers(w / 2, b - 1);
    }
  }

  /** Setting a bit adds its value, unless it was set, and clearing one takes it away. */
  lemma {:induction false} SetInNumbers(w: nat, b: nat)
    ensures SetBit(w, b) == if w / Pow2(b) % 2 == 1 then w else w + Pow2(b)
    ensures ClearBit(w, b) == if w / Pow2(b) % 2 == 1 then w - Pow2(b) else w
    decreases b
  {
    if b > 0 {
      HalfQuotient(w, b);
      SetInNumbers(w / 2, b - 1);
    }
  }

  lemma {:induction false} PowerIsProduct(a: nat, b: nat)
    ensures Pow2(a + b) == Pow2(a) * Pow2(b)
    decreases a
  {
    if a > 0 {
      PowerIsProduct(a - 1, b);
      Associate(2, Pow2(a - 1), Pow2(b));
    }
  }

  lemma WordOf32()
    ensures Pow2(32) == 0x1_0000_0000
  {
    assert Pow2(4) == 2 * Pow2(3) == 4 * Pow2(2) == 8 * Pow2(1) == 16;
    PowerIsProduct(4, 4);
    PowerIsProduct(8, 8);
    PowerIsProduct(16, 16);
  }
}
