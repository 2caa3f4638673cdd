/** Unsigned 64-bit machine words as natural numbers.

    The bitwise operators are defined bit by bit, the shifts and the sums wrap at 2^64, so the
    macros of the kernel can be written down with the operators the C source uses. The lemmas
    give each masking idiom of the source its arithmetic meaning.
  */
module Words {

  const WORD: nat := 0x1_0000_0000_0000_0000

  type u64 = x: nat | x < WORD

  function Pow2(k: nat): (p: nat)
    ensures p > 0
  {
    if k == 0 then 1 else 2 * Pow2(k - 1)
  }

  function And(x: nat, y: nat): (r: nat)
    ensures r <= x && r <= y
  {
    if x == 0 || y == 0 then 0
    else 2 * And(x / 2, y / 2) + (if x % 2 == 1 && y % 2 == 1 then 1 else 0)
  }

  function Or(x: nat, y: nat): (r: nat)
    ensures x <= r && y <= r <= x + y
    decreases x + y
  {
    if x == 0 then y
    else if y == 0 then x
    else 2 * Or(x / 2, y / 2) + (if x % 2 == 1 || y % 2 == 1 then 1 else 0)
  }

  function Not(x: u64): u64 {
    WORD - 1 - x
  }

  function Add(x: nat, y: nat): u64 {
    (x + y) % WORD
  }

  /** The difference of two words, wrapping below zero. */
  function Sub(x: u64, y: u64): u64 {
    (x + WORD - y) % WORD
  }

  /** `x >> k`, one halving a bit. */
  function Shr(x: nat, k: nat): (r: nat)
    ensures r <= x
  {
    if k == 0 then x else Shr(x / 2, k - 1)
  }

  /** `x << k` before it is cut off at 64 bits. */
  function Scale(x: nat, k: nat): (r: nat)
    ensures r >= x
  {
    if k == 0 then x else 2 * Scale(x, k - 1)
  }

  function Shl(x: nat, k: nat): u64 {
    Scale(x, k) % WORD
  }

  // --- the macros of include/kzadhbat/bitmacros.h -------------------------------------------

  function AlignDown(x: u64, alignment: u64): u64
    requires alignment > 0
  {
    And(x, Not(alignment - 1))
  }

  function AlignUp(x: u64, alignment: u64): u64
    requires alignment > 0
  {
    And(Add(x, alignment - 1), Not(alignment - 1))
  }

  ghost predicate IsPow2(a: nat) {
    exists k: nat :: a == Pow2(k)
  }

  // --- arithmetic ----------------------------------------------------------------------------

  lemma PowPositive(a: nat)
    requires IsPow2(a)
    ensures a > 0
  {
  }

  lemma MulMonotone(a: int, b: int, d: nat)
    requires a <= b
    ensures a * d <= b * d
  {
  }

  lemma MulDistributes(a: int, b: int, d: int)
    ensures (a - b) * d == a * d - b * d
    ensures (a + b) * d == a * d + b * d
  {
  }

  lemma DivModUnique(x: int, d: int, q: int, r: int)
    requires d > 0 && 0 <= r < d && x == q * d + r
    ensures x / d == q && x % d == r
  {
    var q' := x / d;
    assert x == q' * d + x % d;
    MulDistributes(q, q', d);
    if q > q' {
      MulMonotone(1, q - q', d);
    } else if q < q' {
      MulMonotone(q - q', -1, d);
    }
  }

  /** Splitting off the lowest bit of a remainder and of a quotient. */
  lemma HalveDivMod(x: nat, p: nat)
    requires p > 0
    ensures x % (2 * p) == 2 * ((x / 2) % p) + x % 2
    ensures x / (2 * p) == (x / 2) / p
  {
    var q, r := (x / 2) / p, (x / 2) % p;
    assert x / 2 == q * p + r;
    assert x == q * (2 * p) + (2 * r + x % 2);
    DivModUnique(x, 2 * p, q, 2 * r + x % 2);
  }

  /** Dividing in two steps, and the two-digit form of a remainder. */
  lemma DivTwice(x: nat, a: nat, b: nat)
    requires a > 0 && b > 0
    ensures a * b > 0
    ensures (x / a) / b == x / (a * b)
    ensures x % (a * b) == ((x / a) % b) * a + x % a
  {
    var q, r := x / a, x % a;
    var s, t := q / b, q % b;
    MulMonotone(1, a, b);
    MulMonotone(0, t, a);
    TwoDigits(x, a, b, q, r, s, t);
    DivModUnique(x, a * b, s, t * a + r);
  }

  lemma TwoDigits(x: nat, a: nat, b: nat, q: nat, r: nat, s: nat, t: nat)
    requires x == q * a + r && r < a && q == s * b + t && t < b
    ensures x == s * (a * b) + (t * a + r) && t * a + r < a * b
  {
    MulDistributes(s * b, t, a);
    MulSwap(s, b, a);
    MulMonotone(t + 1, b, a);
    MulDistributes(t, 1, a);
  }

  lemma MulSwap(s: int, b: int, a: int)
    ensures (s * b) * a == s * (a * b) && b * a == a * b
  {
  }

  lemma MultipleMod(q: nat, d: nat)
    requires d > 0
    ensures (q * d) % d == 0 && (q * d) / d == q
  {
    DivModUnique(q * d, d, q, 0);
  }

  lemma {:induction false} Pow2Add(a: nat, b: nat)
    ensures Pow2(a + b) == Pow2(a) * Pow2(b)
  {
    if a > 0 {
      Pow2Add(a - 1, b);
    }
  }

  /** The powers of two that occur in the source. */
  lemma Pow2Values()
    ensures Pow2(1) == 2 && Pow2(2) == 4 && Pow2(3) == 8 && Pow2(8) == 0x100 && Pow2(9) == 0x200
    ensures Pow2(10) == 0x400 && Pow2(11) == 0x800 && Pow2(12) == 0x1000 && Pow2(16) == 0x1_0000 && Pow2(18) == 0x4_0000
    ensures Pow2(19) == 0x8_0000 && Pow2(21) == 0x20_0000 && Pow2(24) == 0x100_0000
    ensures Pow2(26) == 0x400_0000 && Pow2(28) == 0x1000_0000 && Pow2(30) == 0x4000_0000
    ensures Pow2(44) == 0x1000_0000_0000 && Pow2(64) == WORD
  {
    assert Pow2(10) == 0x400;
    Pow2Add(10, 10);
    Pow2Add(20, 10);
    Pow2Add(20, 20);
    Pow2Add(40, 4);
    Pow2Add(44, 20);
    Pow2Add(20, 8);
    Pow2Add(20, 6);
    Pow2Add(20, 4);
    Pow2Add(20, 1);
    Pow2Add(10, 1);
    Pow2Add(10, 9);
    Pow2Add(10, 8);
    Pow2Add(10, 6);
  }

  // --- what the masks mean -------------------------------------------------------------------

  /** The low k bits. */
  function Low(x: nat, k: nat): nat {
    if k == 0 then 0 else 2 * Low(x / 2, k - 1) + x % 2
  }

  lemma {:induction false} LowMod(x: nat, k: nat)
    ensures Low(x, k) == x % Pow2(k)
  {
    if k > 0 {
      LowMod(x / 2, k - 1);
      HalveDivMod(x, Pow2(k - 1));
    }
  }

  lemma {:induction false} AndLow(x: nat, k: nat)
    ensures And(x, Pow2(k) - 1) == Low(x, k)
  {
    if k > 0 {
      AndLow(x / 2, k - 1);
      assert (Pow2(k) - 1) / 2 == Pow2(k - 1) - 1;
    }
  }

  /** Masking with 2^k - 1 keeps the remainder modulo 2^k. */
  lemma AndMask(x: nat, k: nat)
    ensures And(x, Pow2(k) - 1) == x % Pow2(k)
  {
    AndLow(x, k);
    LowMod(x, k);
  }

  /** A shift down by k divides by 2^k. */
  lemma {:induction false} ShrDivides(x: nat, k: nat)
    ensures Shr(x, k) == x / Pow2(k)
  {
    if k > 0 {
      ShrDivides(x / 2, k - 1);
      HalveDivMod(x, Pow2(k - 1));
    }
  }

  /** A shift up by k multiplies by 2^k. */
  lemma {:induction false} ScaleMultiplies(x: nat, k: nat)
    ensures Scale(x, k) == x * Pow2(k)
  {
    if k > 0 {
      ScaleMultiplies(x, k - 1);
    }
  }

  /** A mask shifted up by k selects from the word shifted down by k. */
  lemma {:induction false} AndShifted(x: nat, m: nat, k: nat)
    ensures And(x, Scale(m, k)) == Scale(And(Shr(x, k), m), k)
  {
    hide And;
    if k > 0 {
      AndShifted(x / 2, m, k - 1);
      AndDouble(x, Scale(m, k - 1));
    }
  }

  lemma AndDouble(x: nat, m: nat)
    ensures And(x, 2 * m) == 2 * And(x / 2, m)
  {
    AndStep(x, 2 * m, m);
  }

  lemma AndStep(x: nat, y: nat, m: nat)
    requires y == 2 * m
    ensures And(x, y) == 2 * And(x / 2, m)
  {
    var q, r := y / 2, y % 2;
    assert q == m && r == 0;
  }

  lemma Complement(k: nat)
    requires k <= 64
    ensures Pow2(k) <= WORD
    ensures Not(Pow2(k) - 1) == Scale(Pow2(64 - k) - 1, k)
  {
    Pow2Values();
    Pow2Add(64 - k, k);
    ScaleMultiplies(Pow2(64 - k) - 1, k);
    MulDistributes(Pow2(64 - k), 1, Pow2(k));
    MulMonotone(1, Pow2(64 - k), Pow2(k));
  }

  /** Masking with the complement of 2^k - 1 rounds down to a multiple of 2^k. */
  lemma AndNotMask(x: u64, k: nat)
    requires k <= 64
    ensures Pow2(k) <= WORD
    ensures And(x, Not(Pow2(k) - 1)) == (x / Pow2(k)) * Pow2(k)
  {
    hide And, Pow2, Scale, Shr, Not;
    var p, h := Pow2(k), Pow2(64 - k);
    Complement(k);
    AndShifted(x, h - 1, k);
    ShrDivides(x, k);
    AndMask(x / p, 64 - k);
    Pow2Values();
    Pow2Add(64 - k, k);
    QuotientBound(x, p, h);
    ScaleMultiplies(x / p, k);
  }

  lemma QuotientBound(x: nat, p: nat, h: nat)
    requires p > 0 && x < h * p
    ensures x / p < h && (x / p) % h == x / p
    ensures x == (x / p) * p + x % p
  {
    if x / p >= h {
      MulMonotone(h, x / p, p);
    }
    DivModUnique(x / p, h, 0, x / p);
  }

  /** Combining a multiple of 2^k with a word below 2^k adds them. */
  lemma {:induction false} OrDisjoint(x: nat, y: nat, k: nat)
    requires x % Pow2(k) == 0 && y < Pow2(k)
    ensures Or(x, y) == x + y
    decreases k
  {
    if k > 0 && x > 0 && y > 0 {
      HalveDivMod(x, Pow2(k - 1));
      OrDisjoint(x / 2, y / 2, k - 1);
    }
  }

  lemma {:induction false} OrCommutes(x: nat, y: nat)
    ensures Or(x, y) == Or(y, x)
    decreases x + y
  {
    if x > 0 && y > 0 {
      OrCommutes(x / 2, y / 2);
    }
  }

  lemma OrOne(x: nat)
    ensures Or(x, 1) == x + 1 - x % 2
  {
    if x > 0 {
      assert Or(x, 1) == 2 * Or(x / 2, 0) + 1;
    }
  }

  lemma AndOne(x: nat)
    ensures And(x, 1) == x % 2
  {
    AndMask(x, 1);
    assert Pow2(1) == 2;
  }

  /** The test `a & (a - 1)` of the allocator recognises exactly the powers of two. */
  lemma {:induction false} PowerOfTwoTest(a: nat)
    requires a > 0
    ensures And(a, a - 1) == 0 <==> IsPow2(a)
  {
    if a == 1 {
      assert a == Pow2(0);
    } else if a % 2 == 1 {
      assert And(a, a - 1) == 2 * And(a / 2, a / 2);
      AndSelf(a / 2);
      forall k: nat ensures a != Pow2(k) {}
    } else {
      PowerOfTwoTest(a / 2);
      assert (a - 1) / 2 == a / 2 - 1;
      assert And(a, a - 1) == 2 * And(a / 2, a / 2 - 1);
      if IsPow2(a / 2) {
        var k: nat :| a / 2 == Pow2(k);
        assert a == Pow2(k + 1);
      }
      if IsPow2(a) {
        var k: nat :| a == Pow2(k);
        assert a / 2 == Pow2(k - 1);
      }
    }
  }

  lemma {:induction false} AndSelf(x: nat)
    ensures And(x, x) == x
  {
    if x > 0 {
      AndSelf(x / 2);
    }
  }

  lemma {:induction false} Pow2Monotone(a: nat, b: nat)
    requires a <= b
    ensures Pow2(a) <= Pow2(b)
  {
    if a < b {
      Pow2Monotone(a, b - 1);
    }
  }

  /** A power of two below 2^64 has an exponent below 64. */
  lemma Exponent(a: u64) returns (k: nat)
    requires IsPow2(a)
    ensures k < 64 && a == Pow2(k)
  {
    k :| a == Pow2(k);
    Pow2Values();
    if k >= 64 {
      Pow2Monotone(64, k);
    }
  }

  lemma RoundDown(y: nat, a: nat)
    requires a > 0
    ensures (y / a) * a <= y < (y / a) * a + a
    ensures ((y / a) * a) % a == 0
  {
    MultipleMod(y / a, a);
  }

  lemma MaskRounds(y: u64, a: u64)
    requires IsPow2(a)
    ensures var r := And(y, Not(a - 1)); r <= y < r + a && r % a == 0
  {
    var k := Exponent(a);
    AndNotMask(y, k);
    RoundDown(y, a);
  }

  /** ALIGN_DOWN gives the multiple of a power of two that is not above the word and less than one
      step below it. */
  lemma AlignDownMeaning(x: u64, a: u64)
    requires IsPow2(a)
    ensures AlignDown(x, a) <= x < AlignDown(x, a) + a && AlignDown(x, a) % a == 0
  {
    MaskRounds(x, a);
  }

  /** ALIGN_UP gives a multiple of a power of two that is not below the word and less than one
      step above it, unless the rounding carries out of 64 bits. */
  lemma AlignUpMeaning(x: u64, a: u64)
    requires IsPow2(a) && x + a - 1 < WORD
    ensures x <= AlignUp(x, a) < x + a && AlignUp(x, a) % a == 0
  {
    assert a > 0;
    hide And, IsPow2;
    assert Add(x, a - 1) == x + a - 1;
    MaskRounds(Add(x, a - 1), a);
  }

  /** For any alignment the result is not below the word, unless the rounding carries out of 64 bits. */
  lemma AlignUpAbove(x: u64, a: u64)
    requires a > 0 && x + a - 1 < WORD
    ensures x <= AlignUp(x, a)
  {
    hide And;
    assert Add(x, a - 1) == x + a - 1;
    ClearLow(x + a - 1, a - 1);
  }

  lemma ClearLow(y: u64, m: u64)
    ensures And(y, Not(m)) + m >= y
  {
    hide And, Pow2;
    Pow2Values();
    AndComplement(y, m, 64);
    assert And(y, m) <= m;
  }

  lemma {:induction false} AndComplement(y: nat, m: nat, k: nat)
    requires y < Pow2(k) && m < Pow2(k)
    ensures And(y, Pow2(k) - 1 - m) + And(y, m) == y
    decreases k
  {
    hide And;
    if k > 0 {
      var p := Pow2(k - 1);
      AndComplement(y / 2, m / 2, k - 1);
      ComplementDigits(p, m);
      AndDigits(y, 2 * p - 1 - m);
      AndDigits(y, m);
    } else {
      AndDigits(y, m);
    }
  }

  lemma ComplementDigits(p: nat, m: nat)
    requires m < 2 * p
    ensures (2 * p - 1 - m) / 2 == p - 1 - m / 2 && (2 * p - 1 - m) % 2 == 1 - m % 2
  {
  }

  lemma AndDigits(x: nat, y: nat)
    ensures And(x, y) == 2 * And(x / 2, y / 2) + (if x % 2 == 1 && y % 2 == 1 then 1 else 0)
  {
    if x == 0 || y == 0 {
      assert And(x / 2, y / 2) == 0;
    }
  }

  /** No smaller multiple is as high as the word. */
  lemma AlignUpLeast(x: u64, a: u64, y: nat)
    requires IsPow2(a) && x + a - 1 < WORD
    requires x <= y && y % a == 0
    ensures AlignUp(x, a) <= y
  {
    AlignUpMeaning(x, a);
    NoMultipleBetween(x, a, AlignUp(x, a), y);
  }

  lemma NoMultipleBetween(x: nat, a: nat, r: nat, y: nat)
    requires a > 0 && r % a == 0 && y % a == 0 && r < x + a && x <= y
    ensures r <= y
  {
    MultipleOf(r, a);
    MultipleOf(y, a);
    LeastMultiple(x, a, r / a, y / a);
  }

  lemma MultipleOf(y: nat, a: nat)
    requires a > 0 && y % a == 0
    ensures y == (y / a) * a
  {
  }

  lemma LeastMultiple(x: nat, a: nat, q: nat, t: nat)
    requires a > 0 && q * a < x + a && x <= t * a
    ensures q * a <= t * a
  {
    if t < q {
      MulMonotone(t + 1, q, a);
      MulDistributes(t, 1, a);
    } else {
      MulMonotone(q, t, a);
    }
  }

  lemma AlignUpExact(x: u64, a: u64)
    requires IsPow2(a) && x + a - 1 < WORD && x % a == 0
    ensures AlignUp(x, a) == x
  {
    AlignUpMeaning(x, a);
    AlignUpLeast(x, a, x);
  }
}
