/** C's bit operators on unsigned words, each defined bit by bit on numbers. */
module Bits {
  import opened Machine

  const ONES: nat := 0xFFFF_FFFF

  predicate HasBit(w: nat, k: nat) {
    if k == 0 then w % 2 == 1 else HasBit(w / 2, k - 1)
  }

  /** a | b */
  function Or(a: nat, b: nat): nat
    decreases a + b
  {
    if a == 0 && b == 0 then 0
    else 2 * Or(a / 2, b / 2) + (if a % 2 == 1 || b % 2 == 1 then 1 else 0)
  }

  /** a & b */
  function And(a: nat, b: nat): nat {
    if a == 0 then 0 else 2 * And(a / 2, b / 2) + (if a % 2 == 1 && b % 2 == 1 then 1 else 0)
  }

  /** ~a in a word of `width` bits */
  function Not(a: nat, width: nat): nat {
    if width == 0 then 0 else 2 * Not(a / 2, width - 1) + 1 - a % 2
  }

  /** 1 << j */
  function Shl1(j: nat): (r: nat)
    ensures r >= 1
  {
    if j == 0 then 1 else 2 * Shl1(j - 1)
  }

  lemma {:induction false} ZeroHasNoBit(k: nat)
    ensures !HasBit(0, k)
  {
    if k > 0 { ZeroHasNoBit(k - 1); }
  }

  lemma {:induction false} OrBits(a: nat, b: nat, k: nat)
    ensures HasBit(Or(a, b), k) <==> HasBit(a, k) || HasBit(b, k)
  {
    if a == 0 && b == 0 {
      ZeroHasNoBit(k);
    } else if k > 0 {
      OrBits(a / 2, b / 2, k - 1);
    }
  }

  lemma {:induction false} AndBits(a: nat, b: nat, k: nat)
    ensures HasBit(And(a, b), k) <==> HasBit(a, k) && HasBit(b, k)
  {
    if a == 0 {
      ZeroHasNoBit(k);
    } else if k > 0 {
      AndBits(a / 2, b / 2, k - 1);
    }
  }

  lemma {:induction false} NotBits(a: nat, width: nat, k: nat)
    ensures HasBit(Not(a, width), k) <==> k < width && !HasBit(a, k)
  {
    if width == 0 {
      ZeroHasNoBit(k);
    } else if k > 0 {
      NotBits(a / 2, width - 1, k - 1);
    }
  }

  lemma {:induction false} Shl1Bits(j: nat, k: nat)
    ensures HasBit(Shl1(j), k) <==> k == j
  {
    if j == 0 {
      if k > 0 { ZeroHasNoBit(k - 1); }
    } else if k > 0 {
      Shl1Bits(j - 1, k - 1);
    }
  }

  lemma {:induction false} OrRange(a: nat, b: nat, n: nat)
    requires a < Shl1(n) && b < Shl1(n)
    ensures Or(a, b) < Shl1(n)
  {
    if n > 0 { OrRange(a / 2, b / 2, n - 1); }
  }

  lemma {:induction false} AndRange(a: nat, b: nat)
    ensures And(a, b) <= a
  {
    if a > 0 { AndRange(a / 2, b / 2); }
  }

  lemma {:induction false} NonZeroHasBit(w: nat, n: nat) returns (k: nat)
    requires 0 < w < Shl1(n)
    ensures k < n && HasBit(w, k)
  {
    if w % 2 == 1 {
      k := 0;
    } else {
      k := NonZeroHasBit(w / 2, n - 1);
      k := k + 1;
    }
  }

  lemma {:induction false} OnesHaveBit(n: nat, k: nat)
    requires k < n
    ensures HasBit(Shl1(n) - 1, k)
  {
    assert (Shl1(n) - 1) / 2 == Shl1(n - 1) - 1;
    if k > 0 { OnesHaveBit(n - 1, k - 1); }
  }

  lemma {:induction false} SmallerLacksBit(w: nat, n: nat) returns (k: nat)
    requires w < Shl1(n) - 1
    ensures k < n && !HasBit(w, k)
  {
    if w % 2 == 0 {
      k := 0;
    } else {
      k := SmallerLacksBit(w / 2, n - 1);
      k := k + 1;
    }
  }

  /** The two tests the bitmap code makes on a word: `w & (1 << j)` is non-zero
      exactly when bit j is set, and only 0xFFFFFFFF has all 32 bits. */
  lemma {:induction false} WordTests(w: nat, j: nat)
    requires w < TWO32
    ensures And(w, Shl1(j)) != 0 <==> HasBit(w, j)
    ensures w == ONES <==> forall k :: 0 <= k < 32 ==> HasBit(w, k)
  {
    WordSize();
    AndBits(w, Shl1(j), j);
    Shl1Bits(j, j);
    if And(w, Shl1(j)) == 0 {
      ZeroHasNoBit(j);
    } else {
      AndRange(w, Shl1(j));
      var k := NonZeroHasBit(And(w, Shl1(j)), 32);
      AndBits(w, Shl1(j), k);
      Shl1Bits(j, k);
    }
    if w == ONES {
      forall k | 0 <= k < 32 ensures HasBit(w, k) { OnesHaveBit(32, k); }
    } else {
      var k := SmallerLacksBit(w, 32);
    }
  }

  /** `w |= 1 << j` sets bit j and no other, `w &= ~(1 << j)` clears it and no
      other, and both stay within a word. */
  lemma SetAndClear(w: nat, j: nat, k: nat)
    requires w < TWO32 && j < 32 && k < 32
    ensures Or(w, Shl1(j)) < TWO32 && And(w, Not(Shl1(j), 32)) < TWO32
    ensures HasBit(Or(w, Shl1(j)), k) <==> k == j || HasBit(w, k)
    ensures HasBit(And(w, Not(Shl1(j), 32)), k) <==> k != j && HasBit(w, k)
  {
    WordSize();
    Shl1Below(j, 32);
    OrRange(w, Shl1(j), 32);
    AndRange(w, Not(Shl1(j), 32));
    OrBits(w, Shl1(j), k);
    AndBits(w, Not(Shl1(j), 32), k);
    NotBits(Shl1(j), 32, k);
    Shl1Bits(j, k);
  }

  lemma {:induction false} Shl1Below(j: nat, n: nat)
    requires j < n
    ensures 1 <= Shl1(j) < Shl1(n)
  {
    if j + 1 < n { Shl1Below(j, n - 1); }
  }

  lemma WordSize()
    ensures Shl1(32) == TWO32
  {
    assert Shl1(8) == 256;
    FourMore(8);
    FourMore(12);
    FourMore(16);
    FourMore(20);
    FourMore(24);
    FourMore(28);
  }

  lemma FourMore(n: nat)
    ensures Shl1(n + 4) == 16 * Shl1(n)
  {
    assert Shl1(n + 2) == 2 * Shl1(n + 1) == 4 * Shl1(n);
    assert Shl1(n + 3) == 2 * Shl1(n + 2);
  }

  // ------------------------------------- the masks of the page-table code

  lemma {:induction false} AndZero(x: nat)
    ensures And(x, 0) == 0
  {
    if x > 0 { AndZero(x / 2); }
  }

  lemma AndOdd(x: nat, m: nat)
    ensures And(x, 2 * m + 1) == 2 * And(x / 2, m) + x % 2
  {
    assert (2 * m + 1) / 2 == m;
  }

  lemma AndPair(x: nat, m: nat)
    ensures And(x, 4 * m + 3) == 4 * And(x / 4, m) + x % 4
  {
    AndOdd(x, 2 * m + 1);
    AndOdd(x / 2, m);
    assert x / 2 / 2 == x / 4;
  }

  lemma AndNibble(x: nat, m: nat)
    ensures And(x, 16 * m + 15) == 16 * And(x / 16, m) + x % 16
  {
    AndPair(x, 4 * m + 3);
    AndPair(x / 4, m);
    assert x / 4 / 4 == x / 16;
  }

  lemma AndTen(x: nat)
    ensures And(x, 0x3FF) == x % 1024
  {
    AndNibble(x, 0x3F);
    AndNibble(x / 16, 3);
    AndOdd(x / 256, 1);
    AndOdd(x / 512, 0);
    AndZero(x / 1024);
    assert x / 16 / 16 == x / 256 && x / 256 / 2 == x / 512 && x / 512 / 2 == x / 1024;
  }

  lemma AndTwelve(x: nat)
    ensures And(x, 0xFFF) == x % PAGE
  {
    AndNibble(x, 0xFF);
    AndNibble(x / 16, 0xF);
    AndNibble(x / 256, 0);
    AndZero(x / 4096);
    assert x / 16 / 16 == x / 256 && x / 256 / 16 == x / 4096;
  }

  lemma {:induction false} AndNot(x: nat, m: nat, width: nat)
    requires x < Shl1(width)
    ensures And(x, Not(m, width)) + And(x, m) == x
  {
    if x > 0 { AndNot(x / 2, m / 2, width - 1); }
  }

  /** `x | 3` sets the two low bits. */
  lemma OrThree(x: nat)
    ensures Or(x, 3) == x - x % 4 + 3
  {
    assert Or(x, 3) == 2 * Or(x / 2, 1) + 1;
    assert Or(x / 2, 1) == 2 * Or(x / 4, 0) + 1 by { assert x / 2 / 2 == x / 4; }
    OrZero(x / 4);
  }

  lemma {:induction false} OrZero(x: nat)
    ensures Or(x, 0) == x
  {
    if x > 0 { OrZero(x / 2); }
  }

  /** What the page-table code reads out of a word: `x & ~0xFFF`, `x & 1` and
      `x & 0x03FF`. */
  lemma EntryMasks(x: nat)
    requires x < TWO32
    ensures And(x, Not(0xFFF, 32)) == x - x % PAGE
    ensures And(x, 1) == x % 2
    ensures And(x, 0x3FF) == x % 1024
  {
    WordSize();
    AndNot(x, 0xFFF, 32);
    AndTwelve(x);
    AndTen(x);
    AndOdd(x, 0);
    AndZero(x / 2);
  }
}
