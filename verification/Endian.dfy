/** Reading big-endian integers on a little-endian machine (include/kzadhbat/bitmacros.h:18-36, 61-67):
    a little-endian load followed by the byte-swapping macros.
  */
module Endian {
  import opened Words

  type byte = x: nat | x < 256

  /** A text in its bytes. */
  function Ascii(s: string): (b: seq<byte>)
    ensures |b| == |s|
  {
    seq(|s|, i requires 0 <= i < |s| => s[i] as nat % 256)
  }

  /** The value of bytes in memory order, as a little-endian machine loads them. */
  function Little(b: seq<byte>): nat {
    if b == [] then 0 else b[0] + 256 * Little(b[1..])
  }

  /** The value of bytes in big-endian order. */
  function Big(b: seq<byte>): nat {
    if b == [] then 0 else Big(b[..|b| - 1]) * 256 + b[|b| - 1]
  }

  /** The big-endian bytes of a value. */
  function BigBytes(x: nat, n: nat): (b: seq<byte>)
    ensures |b| == n
  {
    if n == 0 then [] else BigBytes(x / 256, n - 1) + [x % 256]
  }

  lemma {:induction false} BigRoundTrip(b: seq<byte>)
    ensures BigBytes(Big(b), |b|) == b
  {
    if b != [] {
      BigRoundTrip(b[..|b| - 1]);
      assert b == b[..|b| - 1] + [b[|b| - 1]];
    }
  }

  lemma {:induction false} BytesRoundTrip(x: nat, n: nat)
    requires x < Pow2(8 * n)
    ensures Big(BigBytes(x, n)) == x
  {
    if n > 0 {
      assert Pow2(8 * n) == 256 * Pow2(8 * (n - 1)) by {
        Pow2Add(8, 8 * (n - 1));
        assert Pow2(8) == 256;
      }
      BytesRoundTrip(x / 256, n - 1);
      var b := BigBytes(x, n);
      assert b[..n - 1] == BigBytes(x / 256, n - 1);
    }
  }

  // --- the macros ----------------------------------------------------------------------------

  function Shl32(x: nat, k: nat): nat {
    Scale(x, k) % 0x1_0000_0000
  }

  /** ENDIANNESS_FLIP_U32 */
  function Flip32(x: nat): nat {
    Or(Or(Or(And(Shr(x, 24), 0x0000_00FF),
             And(Shr(x, 8), 0x0000_FF00)),
          And(Shl32(x, 8), 0x00FF_0000)),
       And(Shl32(x, 24), 0xFF00_0000))
  }

  /** ENDIANNESS_FLIP_U64 */
  function Flip64(x: nat): nat {
    Or(Or(Or(Or(Or(Or(Or(And(Shr(x, 56), 0x0000_0000_0000_00FF),
                         And(Shr(x, 40), 0x0000_0000_0000_FF00)),
                      And(Shr(x, 24), 0x0000_0000_00FF_0000)),
                   And(Shr(x, 8), 0x0000_0000_FF00_0000)),
                And(Shl(x, 8), 0x0000_00FF_0000_0000)),
             And(Shl(x, 24), 0x0000_FF00_0000_0000)),
          And(Shl(x, 40), 0x00FF_0000_0000_0000)),
       And(Shl(x, 56), 0xFF00_0000_0000_0000))
  }

  /** Byte i of a word, counted from the low end. */
  function Byte(x: nat, i: nat): byte {
    (x / Pow2(8 * i)) % 256
  }

  lemma ByteNext(x: nat, i: nat)
    ensures Byte(x, i + 1) == Byte(x / 256, i)
  {
    Pow2Add(8, 8 * i);
    assert Pow2(8) == 256;
    DivTwice(x, 256, Pow2(8 * i));
    MulSwap(1, 256, Pow2(8 * i));
  }

  /** A loaded word has the bytes it was loaded from. */
  lemma {:induction false} LittleByte(b: seq<byte>, i: nat)
    requires i < |b|
    ensures Byte(Little(b), i) == b[i]
    decreases i
  {
    var x := Little(b);
    DivModUnique(x, 256, Little(b[1..]), b[0]);
    if i == 0 {
      assert Pow2(8 * 0) == 1;
    } else {
      LittleByte(b[1..], i - 1);
      ByteNext(x, i - 1);
    }
  }

  /** Masking out byte j. */
  lemma FieldOf(y: nat, j: nat)
    ensures And(y, Scale(0xFF, 8 * j)) == Scale(Byte(y, j), 8 * j)
  {
    AndShifted(y, 0xFF, 8 * j);
    ShrDivides(y, 8 * j);
    assert Pow2(8) == 256;
    AndMask(y / Pow2(8 * j), 8);
  }

  /** A shift down by whole bytes. */
  lemma ByteShr(x: nat, d: nat, j: nat)
    ensures Byte(Shr(x, 8 * d), j) == Byte(x, d + j)
  {
    ShrDivides(x, 8 * d);
    DivTwice(x, Pow2(8 * d), Pow2(8 * j));
    Pow2Add(8 * d, 8 * j);
  }

  /** A shift up by whole bytes, cut off at n bytes. */
  lemma ByteShl(x: nat, d: nat, j: nat, n: nat)
    requires d <= j < n
    ensures Byte(Scale(x, 8 * d) % Pow2(8 * n), j) == Byte(x, j - d)
  {
    var y := Scale(x, 8 * d);
    ByteMod(y, j, n);
    ScaleMultiplies(x, 8 * d);
    Pow2Add(8 * d, 8 * (j - d));
    MultipleMod(x, Pow2(8 * d));
    DivTwice(y, Pow2(8 * d), Pow2(8 * (j - d)));
  }

  /** Cutting off the high bytes leaves the low ones. */
  lemma ByteMod(y: nat, j: nat, n: nat)
    requires j < n
    ensures Byte(y % Pow2(8 * n), j) == Byte(y, j)
  {
    hide Pow2;
    var p, q := Pow2(8 * j), Pow2(8 * (n - j - 1));
    Pow2Add(8 * j, 8 * (n - j));
    Pow2Add(8, 8 * (n - j - 1));
    BytePowers();
    DivTwice(y, p, 256 * q);
    ModKeepsDigit(y / p, y % p, p, q);
  }

  lemma ModKeepsDigit(z: nat, r: nat, p: nat, q: nat)
    requires q > 0 && r < p
    ensures (((z % (256 * q)) * p + r) / p) % 256 == z % 256
  {
    var w := z % (256 * q);
    DivModUnique(w * p + r, p, w, r);
    ModOfMod(z, 256, q);
  }

  lemma ModOfMod(x: nat, a: nat, b: nat)
    requires a > 0 && b > 0
    ensures a * b > 0 && (x % (a * b)) % a == x % a
  {
    DivTwice(x, a, b);
    DivModUnique(((x / a) % b) * a + x % a, a, (x / a) % b, x % a);
  }

  /** Adding the next higher byte to a field of lower bytes. */
  lemma OrField(low: nat, b: byte, j: nat)
    requires low < Pow2(8 * j)
    ensures Or(low, Scale(b, 8 * j)) == low + b * Pow2(8 * j) < Pow2(8 * (j + 1))
  {
    ScaleMultiplies(b, 8 * j);
    MultipleMod(b, Pow2(8 * j));
    OrCommutes(low, b * Pow2(8 * j));
    OrDisjoint(b * Pow2(8 * j), low, 8 * j);
    Pow2Add(8, 8 * j);
    assert Pow2(8) == 256;
    MulMonotone(b + 1, 256, Pow2(8 * j));
    MulDistributes(b, 1, Pow2(8 * j));
  }

  /** The two kinds of terms of the macros. */
  lemma TermDown(x: nat, d: nat, j: nat)
    ensures And(Shr(x, 8 * d), Scale(0xFF, 8 * j)) == Scale(Byte(x, d + j), 8 * j)
  {
    FieldOf(Shr(x, 8 * d), j);
    ByteShr(x, d, j);
  }

  lemma TermUp(x: nat, d: nat, j: nat, n: nat)
    requires d <= j < n
    ensures And(Scale(x, 8 * d) % Pow2(8 * n), Scale(0xFF, 8 * j)) == Scale(Byte(x, j - d), 8 * j)
  {
    FieldOf(Scale(x, 8 * d) % Pow2(8 * n), j);
    ByteShl(x, d, j, n);
  }

  lemma BytePowers()
    ensures Pow2(8) == 0x100 && Pow2(16) == 0x1_0000 && Pow2(24) == 0x100_0000 && Pow2(32) == 0x1_0000_0000
    ensures Pow2(40) == 0x100_0000_0000 && Pow2(48) == 0x1_0000_0000_0000 && Pow2(56) == 0x100_0000_0000_0000
    ensures Pow2(64) == WORD && Pow2(0) == 1
  {
    Pow2Values();
    Pow2Add(16, 16);
    Pow2Add(24, 16);
    Pow2Add(24, 24);
    Pow2Add(32, 24);
  }

  lemma Masks()
    ensures Scale(0xFF, 8) == 0xFF00 && Scale(0xFF, 16) == 0xFF_0000 && Scale(0xFF, 24) == 0xFF00_0000
    ensures Scale(0xFF, 32) == 0xFF_0000_0000 && Scale(0xFF, 40) == 0xFF00_0000_0000
    ensures Scale(0xFF, 48) == 0xFF_0000_0000_0000 && Scale(0xFF, 56) == 0xFF00_0000_0000_0000
    ensures Scale(0xFF, 0) == 0xFF
  {
    hide Pow2, Scale;
    BytePowers();
    ScaleMultiplies(0xFF, 0);
    ScaleMultiplies(0xFF, 8);
    ScaleMultiplies(0xFF, 16);
    ScaleMultiplies(0xFF, 24);
    ScaleMultiplies(0xFF, 32);
    ScaleMultiplies(0xFF, 40);
    ScaleMultiplies(0xFF, 48);
    ScaleMultiplies(0xFF, 56);
  }

  /** The swapped word of four loaded bytes, term by term. */
  lemma Terms32(b: seq<byte>)
    requires |b| == 4
    ensures var x := Little(b);
            && And(Shr(x, 24), 0xFF) == Scale(b[3], 0)
            && And(Shr(x, 8), 0xFF00) == Scale(b[2], 8)
            && And(Shl32(x, 8), 0xFF_0000) == Scale(b[1], 16)
            && And(Shl32(x, 24), 0xFF00_0000) == Scale(b[0], 24)
  {
    hide Pow2, Scale, And, Shr, Little, Byte;
    var x := Little(b);
    BytePowers();
    Masks();
    TermDown(x, 3, 0);
    TermDown(x, 1, 1);
    TermUp(x, 1, 2, 4);
    TermUp(x, 3, 3, 4);
    LittleByte(b, 0);
    LittleByte(b, 1);
    LittleByte(b, 2);
    LittleByte(b, 3);
  }

  lemma Terms64(b: seq<byte>)
    requires |b| == 8
    ensures var x := Little(b);
            && And(Shr(x, 56), 0xFF) == Scale(b[7], 0)
            && And(Shr(x, 40), 0xFF00) == Scale(b[6], 8)
            && And(Shr(x, 24), 0xFF_0000) == Scale(b[5], 16)
            && And(Shr(x, 8), 0xFF00_0000) == Scale(b[4], 24)
            && And(Shl(x, 8), 0xFF_0000_0000) == Scale(b[3], 32)
            && And(Shl(x, 24), 0xFF00_0000_0000) == Scale(b[2], 40)
            && And(Shl(x, 40), 0xFF_0000_0000_0000) == Scale(b[1], 48)
            && And(Shl(x, 56), 0xFF00_0000_0000_0000) == Scale(b[0], 56)
  {
    hide Pow2, Scale, And, Shr, Little, Byte;
    var x := Little(b);
    BytePowers();
    Masks();
    TermDown(x, 7, 0);
    TermDown(x, 5, 1);
    TermDown(x, 3, 2);
    TermDown(x, 1, 3);
    TermUp(x, 1, 4, 8);
    TermUp(x, 3, 5, 8);
    TermUp(x, 5, 6, 8);
    TermUp(x, 7, 7, 8);
    LittleByte(b, 0);
    LittleByte(b, 1);
    LittleByte(b, 2);
    LittleByte(b, 3);
    LittleByte(b, 4);
    LittleByte(b, 5);
    LittleByte(b, 6);
    LittleByte(b, 7);
  }

  lemma BigLast(b: seq<byte>, front: seq<byte>, last: byte)
    requires b != [] && front == b[..|b| - 1] && last == b[|b| - 1]
    ensures Big(b) == Big(front) * 256 + last
  {
  }

  lemma BigOf4(b: seq<byte>)
    requires |b| == 4
    ensures Big(b) == b[3] as nat + b[2] as nat * 0x100 + b[1] as nat * 0x1_0000 + b[0] as nat * 0x100_0000
  {
    var c := b[..3];
    var d := c[..2];
    var e := d[..1];
    assert e[..0] == [];
    assert Big(e) == b[0];
    BigLast(d, e, b[1]);
    BigLast(c, d, b[2]);
    BigLast(b, c, b[3]);
  }

  lemma BigOf8(b: seq<byte>)
    requires |b| == 8
    ensures Big(b) == b[7] as nat + b[6] as nat * 0x100 + b[5] as nat * 0x1_0000 + b[4] as nat * 0x100_0000
                    + b[3] as nat * 0x1_0000_0000 + b[2] as nat * 0x100_0000_0000
                    + b[1] as nat * 0x1_0000_0000_0000 + b[0] as nat * 0x100_0000_0000_0000
  {
    var c := b[..7];
    var d := c[..6];
    var e := d[..5];
    var f := e[..4];
    BigOf4(f);
    BigLast(e, f, b[4]);
    BigLast(d, e, b[5]);
    BigLast(c, d, b[6]);
    BigLast(b, c, b[7]);
  }

  /** A little-endian load of four bytes, swapped, is their big-endian value. */
  lemma Flip32Load(b: seq<byte>)
    requires |b| == 4
    ensures Flip32(Little(b)) == Big(b) < 0x1_0000_0000
  {
    hide Pow2, Scale, And, Shr, Or, Little, Big, Shl32;
    BytePowers();
    Terms32(b);
    ScaleMultiplies(b[3], 0);
    OrField(b[3], b[2], 1);
    OrField(b[3] as nat + b[2] as nat * 0x100, b[1], 2);
    OrField(b[3] as nat + b[2] as nat * 0x100 + b[1] as nat * 0x1_0000, b[0], 3);
    BigOf4(b);
  }

  lemma Flip64Load(b: seq<byte>)
    requires |b| == 8
    ensures Flip64(Little(b)) == Big(b) < WORD
  {
    hide Pow2, Scale, And, Shr, Or, Little, Big, Shl;
    BytePowers();
    Terms64(b);
    ScaleMultiplies(b[7], 0);
    var s1: nat := b[7] as nat + b[6] as nat * 0x100;
    var s2: nat := s1 + b[5] as nat * 0x1_0000;
    var s3: nat := s2 + b[4] as nat * 0x100_0000;
    var s4: nat := s3 + b[3] as nat * 0x1_0000_0000;
    var s5: nat := s4 + b[2] as nat * 0x100_0000_0000;
    var s6: nat := s5 + b[1] as nat * 0x1_0000_0000_0000;
    OrField(b[7], b[6], 1);
    OrField(s1, b[5], 2);
    OrField(s2, b[4], 3);
    OrField(s3, b[3], 4);
    OrField(s4, b[2], 5);
    OrField(s5, b[1], 6);
    OrField(s6, b[0], 7);
    BigOf8(b);
  }
}
