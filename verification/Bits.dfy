/**
  Unsigned binary arithmetic on natural numbers, one bit at a time: shifts, and bitwise operators when one operand is
  a contiguous mask.
*/
module Bits {

  function And(a: nat, b: nat): nat {
    if a == 0 || b == 0 then 0 else (if a % 2 == 1 && b % 2 == 1 then 1 else 0) + 2 * And(a / 2, b / 2)
  }

  function Or(a: nat, b: nat): nat {
    if a == 0 then b else if b == 0 then a
    else (if a % 2 == 1 || b % 2 == 1 then 1 else 0) + 2 * Or(a / 2, b / 2)
  }

  function Xor(a: nat, b: nat): nat {
    if a == 0 then b else if b == 0 then a
    else (if a % 2 != b % 2 then 1 else 0) + 2 * Xor(a / 2, b / 2)
  }

  /** A left shift of an unbounded number. */
  function Shl(x: nat, n: nat): nat {
    if n == 0 then x else 2 * Shl(x, n - 1)
  }

  function Pow2(n: nat): nat {
    Shl(1, n)
  }

  /** A right shift. */
  function High(x: nat, n: nat): nat {
    if n == 0 then x else High(x / 2, n - 1)
  }

  /** The n low bits of x. */
  function Low(x: nat, n: nat): nat {
    if n == 0 then 0 else x % 2 + 2 * Low(x / 2, n - 1)
  }

  /** A left shift of a word of w bits: what is shifted out is lost. */
  function ShiftLeft(w: nat, x: nat, n: nat): nat {
    Low(Shl(x, n), w)
  }

  // ---------------------------------------------------------------- shifts

  lemma {:induction false} ShlPlus(a: nat, b: nat, n: nat)
    ensures Shl(a + b, n) == Shl(a, n) + Shl(b, n)
  {
    if n > 0 {
      ShlPlus(a, b, n - 1);
    }
  }

  lemma {:induction false} ShlShl(a: nat, m: nat, n: nat)
    ensures Shl(Shl(a, m), n) == Shl(a, m + n)
  {
    if n > 0 {
      ShlShl(a, m, n - 1);
    }
  }

  lemma {:induction false} ShlMono(a: nat, b: nat, n: nat)
    requires a <= b
    ensures Shl(a, n) <= Shl(b, n)
    ensures a < b ==> Shl(a, n) + Pow2(n) <= Shl(b, n)
  {
    if n > 0 {
      ShlMono(a, b, n - 1);
    }
  }

  lemma {:induction false} ShlDouble(a: nat, n: nat)
    ensures Shl(2 * a, n) == 2 * Shl(a, n)
  {
    if n > 0 {
      ShlDouble(a, n - 1);
    }
  }

  lemma {:induction false} Pow2Positive(n: nat)
    ensures Pow2(n) >= 1
  {
    if n > 0 {
      Pow2Positive(n - 1);
    }
  }

  lemma {:induction false} Pow2Mono(a: nat, b: nat)
    requires a <= b
    ensures 1 <= Pow2(a) <= Pow2(b)
  {
    Pow2Positive(a);
    if a < b {
      Pow2Mono(a, b - 1);
    }
  }

  /** A number is its high part, shifted back, and its low part. */
  lemma {:induction false} Split(x: nat, n: nat)
    ensures x == Shl(High(x, n), n) + Low(x, n)
    ensures Low(x, n) < Pow2(n)
  {
    if n > 0 {
      Split(x / 2, n - 1);
    }
  }

  /** And the parts are determined by it. */
  lemma {:induction false} Parts(q: nat, r: nat, n: nat)
    requires r < Pow2(n)
    ensures High(Shl(q, n) + r, n) == q && Low(Shl(q, n) + r, n) == r
  {
    if n > 0 {
      var x := Shl(q, n) + r;
      assert x / 2 == Shl(q, n - 1) + r / 2 && x % 2 == r % 2;
      Parts(q, r / 2, n - 1);
    }
  }

  lemma {:induction false} HighLowOfSmall(x: nat, n: nat)
    requires x < Pow2(n)
    ensures High(x, n) == 0 && Low(x, n) == x
  {
    if n > 0 {
      HighLowOfSmall(x / 2, n - 1);
    }
  }

  lemma {:induction false} HighHigh(x: nat, m: nat, n: nat)
    ensures High(High(x, m), n) == High(x, m + n)
  {
    if m > 0 {
      HighHigh(x / 2, m - 1, n);
    }
  }

  lemma {:induction false} HighIsZero(x: nat, s: nat)
    ensures High(x, s) == 0 <==> x == Low(x, s)
  {
    if s > 0 {
      HighIsZero(x / 2, s - 1);
    }
  }

  // In the usual notation: a shift multiplies by a power of two, High is the quotient and Low the remainder.

  lemma {:induction false} ShlIsTimes(a: nat, n: nat)
    ensures Shl(a, n) == a * Pow2(n)
  {
    if n > 0 {
      ShlIsTimes(a, n - 1);
      Twice(a, Pow2(n - 1));
    }
  }

  lemma Twice(a: nat, p: nat)
    ensures a * (2 * p) == 2 * (a * p)
  {
  }

  lemma {:induction false} HighLowAreDivMod(x: nat, n: nat)
    ensures Pow2(n) >= 1
    ensures High(x, n) == x / Pow2(n) && Low(x, n) == x % Pow2(n)
  {
    Pow2Positive(n);
    Split(x, n);
    ShlIsTimes(High(x, n), n);
    QuotientIs(x, Pow2(n), High(x, n), Low(x, n));
  }

  lemma QuotientIs(x: nat, d: nat, q: nat, r: nat)
    requires r < d && x == q * d + r
    ensures x / d == q && x % d == r
  {
    var q', r' := x / d, x % d;
    Euclid(x, d);
    SameQuotient(d, q, r, q', r');
  }

  lemma Euclid(x: nat, d: nat)
    requires d > 0
    ensures x == x / d * d + x % d
  {
  }

  lemma SameQuotient(d: nat, q: nat, r: nat, q': nat, r': nat)
    requires r < d && r' < d && q * d + r == q' * d + r'
    ensures q == q' && r == r'
  {
    if q' > q {
      Times(q + 1, q', d);
    } else if q' < q {
      Times(q' + 1, q, d);
    }
  }

  lemma {:induction false} Times(a: nat, b: nat, d: nat)
    requires 0 < a <= b
    ensures a * d <= b * d && a * d == (a - 1) * d + d
  {
    if a < b {
      Times(a, b - 1, d);
      assert b * d == (b - 1) * d + d;
    }
  }

  // ---------------------------------------------------------------- numbers made of a top word t and a rest v of m bits

  /** A cut inside the rest. */
  lemma CutBelow(t: nat, v: nat, m: nat, e: nat)
    requires e <= m
    ensures Shl(High(Shl(t, m) + v, e), e) == Shl(t, m) + Shl(High(v, e), e)
    ensures Low(Shl(t, m) + v, e) == Low(v, e)
  {
    var h, l := High(v, e), Low(v, e);
    Split(v, e);
    ShlShl(t, m - e, e);
    ShlPlus(Shl(t, m - e), h, e);
    Parts(Shl(t, m - e) + h, l, e);
  }

  /** A cut inside the top word. */
  lemma CutWithin(t: nat, v: nat, m: nat, s: nat)
    requires v < Pow2(m)
    ensures Low(t, s) <= t
    ensures Shl(High(Shl(t, m) + v, m + s), m + s) == Shl(t - Low(t, s), m)
    ensures Low(Shl(t, m) + v, m + s) == Shl(Low(t, s), m) + v
  {
    var h, l := High(t, s), Low(t, s);
    Split(t, s);
    ShlPlus(Shl(h, s), l, m);
    ShlShl(h, s, m);
    ShlShl(1, s, m);
    ShlMono(l, Pow2(s), m);
    Parts(h, Shl(l, m) + v, m + s);
  }

  // ---------------------------------------------------------------- masks

  /** Testing one bit. */
  lemma {:induction false} AndBit(x: nat, i: nat)
    ensures And(x, Pow2(i)) != 0 <==> High(x, i) % 2 == 1
  {
    Pow2Positive(i);
    if i > 0 {
      AndBit(x / 2, i - 1);
      if x == 0 {
        HighLowOfSmall(0, i);
      }
    }
  }

  lemma {:induction false} AndLowMask(x: nat, s: nat)
    ensures Pow2(s) >= 1 && And(x, Pow2(s) - 1) == Low(x, s)
  {
    Pow2Positive(s);
    if s > 0 {
      AndLowMask(x / 2, s - 1);
      if x == 0 {
        HighLowOfSmall(0, s);
      }
    }
  }

  /** Masking with ones from bit s up drops the s low bits. */
  lemma {:induction false} AndHighMask(x: nat, w: nat, s: nat)
    requires s <= w && x < Pow2(w)
    ensures Pow2(s) <= Pow2(w)
    ensures And(x, Pow2(w) - Pow2(s)) == x - Low(x, s)
  {
    Pow2Mono(s, w);
    if s == 0 {
      AndLowMask(x, w);
      HighLowOfSmall(x, w);
    } else if x == 0 {
      HighLowOfSmall(0, s);
    } else {
      AndHighMask(x / 2, w - 1, s - 1);
      HalfMask(w, s);
    }
  }

  lemma HalfMask(w: nat, s: nat)
    requires 0 < s <= w
    ensures Pow2(s) <= Pow2(w) && Pow2(s - 1) <= Pow2(w - 1)
    ensures (Pow2(w) - Pow2(s)) % 2 == 0 && (Pow2(w) - Pow2(s)) / 2 == Pow2(w - 1) - Pow2(s - 1)
  {
    Pow2Mono(s, w);
    Pow2Mono(s - 1, w - 1);
  }

  /** Or adds when the operands have no bit in common. */
  lemma {:induction false} OrAdds(a: nat, b: nat, s: nat)
    requires Low(a, s) == 0 && b < Pow2(s)
    ensures Or(a, b) == a + b && Or(b, a) == a + b
  {
    if s > 0 && a > 0 && b > 0 {
      OrAdds(a / 2, b / 2, s - 1);
    }
  }

  lemma {:induction false} AndBound(a: nat, b: nat)
    ensures And(a, b) <= a && And(a, b) <= b
  {
    if a > 0 && b > 0 {
      AndBound(a / 2, b / 2);
    }
  }

  lemma {:induction false} OrBound(a: nat, b: nat, w: nat)
    requires a < Pow2(w) && b < Pow2(w)
    ensures Or(a, b) < Pow2(w)
  {
    if a > 0 && b > 0 {
      OrBound(a / 2, b / 2, w - 1);
    }
  }

  lemma {:induction false} XorBound(a: nat, b: nat, w: nat)
    requires a < Pow2(w) && b < Pow2(w)
    ensures Xor(a, b) < Pow2(w)
  {
    if a > 0 && b > 0 {
      XorBound(a / 2, b / 2, w - 1);
    }
  }

  lemma {:induction false} XorIsZero(a: nat, b: nat)
    ensures Xor(a, b) == 0 <==> a == b
  {
    if a > 0 && b > 0 {
      XorIsZero(a / 2, b / 2);
    }
  }

  lemma {:induction false} XorHalf(a: nat, b: nat)
    ensures Xor(a, b) / 2 == Xor(a / 2, b / 2)
  {
  }

  lemma {:induction false} XorHigh(a: nat, b: nat, s: nat)
    ensures High(Xor(a, b), s) == Xor(High(a, s), High(b, s))
  {
    if s > 0 {
      XorHalf(a, b);
      XorHigh(a / 2, b / 2, s - 1);
    }
  }

  /** Two words agree from bit s up exactly when their difference vanishes under the mask. */
  lemma {:induction false} XorUnderHighMask(a: nat, b: nat, w: nat, s: nat)
    requires a < Pow2(w) && b < Pow2(w) && s <= w
    ensures Pow2(s) <= Pow2(w)
    ensures And(Xor(a, b), Pow2(w) - Pow2(s)) == 0 <==> High(a, s) == High(b, s)
  {
    XorBound(a, b, w);
    AndHighMask(Xor(a, b), w, s);
    XorHigh(a, b, s);
    XorIsZero(High(a, s), High(b, s));
    HighIsZero(Xor(a, b), s);
  }

  lemma {:induction false} OrIsZero(a: nat, b: nat)
    ensures Or(a, b) == 0 <==> a == 0 && b == 0
  {
    if a > 0 && b > 0 {
      OrIsZero(a / 2, b / 2);
    }
  }

  lemma {:induction false} LowOfOnes(w: nat, s: nat)
    requires s <= w
    ensures Pow2(w) >= 1 && Pow2(s) >= 1 && Low(Pow2(w) - 1, s) == Pow2(s) - 1
  {
    Pow2Positive(w);
    Pow2Positive(s);
    if s > 0 {
      LowOfOnes(w - 1, s - 1);
    }
  }

  /** All ones, shifted right by n places in a word of w bits. */
  lemma {:induction false} ShiftOnesRight(w: nat, n: nat)
    requires n <= w
    ensures Pow2(w) >= 1 && Pow2(w - n) >= 1 && High(Pow2(w) - 1, n) == Pow2(w - n) - 1
  {
    Pow2Positive(w);
    Pow2Positive(w - n);
    if n > 0 {
      ShiftOnesRight(w - 1, n - 1);
    }
  }

  /** All ones, shifted left by s places in a word of w bits. */
  lemma {:induction false} ShiftOnesLeft(w: nat, s: nat)
    requires s <= w
    ensures 1 <= Pow2(s) <= Pow2(w)
    ensures ShiftLeft(w, Pow2(w) - 1, s) == Pow2(w) - Pow2(s)
  {
    Pow2Mono(s, w);
    if s == 0 {
      HighLowOfSmall(Pow2(w) - 1, w);
    } else {
      ShiftOnesLeft(w - 1, s - 1);
      LowOfShl(Pow2(w) - 1, s, w);
      LowOfShl(Pow2(w - 1) - 1, s - 1, w - 1);
      LowOfOnes(w, w - s);
      LowOfOnes(w - 1, w - s);
    }
  }

  /** A shift loses the top bits and fills with zeros. */
  lemma {:induction false} LowOfShl(x: nat, s: nat, w: nat)
    requires s <= w
    ensures Low(Shl(x, s), w) == Shl(Low(x, w - s), s)
  {
    if s > 0 {
      LowOfShl(x, s - 1, w - 1);
    }
  }

  /** Thirty-two bits. */
  lemma WordRange()
    ensures Pow2(32) == 0x1_0000_0000
  {
    assert Pow2(8) == 0x100;
    ShlShl(1, 8, 8);
    assert Shl(0x100, 8) == 0x1_0000;
    ShlShl(1, 16, 8);
    assert Shl(0x1_0000, 8) == 0x100_0000;
    ShlShl(1, 24, 8);
    assert Shl(0x100_0000, 8) == 0x1_0000_0000;
  }
}
