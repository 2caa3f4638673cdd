/** The integer printer (src/kzadhbat/fmtprint.c:27-59): a static buffer filled from the right. */
module Printing {
  import opened Words

  const BUFFER: nat := 67  // MAX_INT_BUF_SIZE

  const DIGITS: string := "0123456789ABCDEFGHIJKLMNOPQRSTUVWXYZ"

  predicate BaseOk(base: nat) {
    2 <= base <= 36
  }

  function Digit(d: nat): (c: char)
    requires d < 36
    ensures c != '\0'
  {
    DIGITS[d]
  }

  /** The value of a digit character. */
  function DigitValue(c: char): nat {
    if '0' <= c <= '9' then c as nat - '0' as nat
    else if 'A' <= c <= 'Z' then c as nat - 'A' as nat + 10
    else 0
  }

  /** The digits of a number, most significant first; none for zero. */
  function Digits(val: nat, base: nat): string
    requires BaseOk(base)
  {
    if val == 0 then "" else Digits(val / base, base) + [Digit(val % base)]
  }

  function Numeral(val: nat, base: nat): string
    requires BaseOk(base)
  {
    if val == 0 then "0" else Digits(val, base)
  }

  function Prefix(base: nat): string {
    if base == 16 then "0x" else if base == 8 then "0o" else if base == 2 then "0b" else ""
  }

  /** Reading a numeral back. */
  function Read(s: string, base: nat): nat {
    if s == "" then 0 else Read(s[..|s| - 1], base) * base + DigitValue(s[|s| - 1])
  }

  lemma DigitRoundTrip(d: nat)
    requires d < 36
    ensures DigitValue(Digit(d)) == d
    ensures Digit(d) == '0' <==> d == 0
  {
    assert DIGITS[d] == if d < 10 then ('0' as nat + d) as char else ('A' as nat + (d - 10)) as char;
  }

  lemma ReadAppend(s: string, c: char, base: nat)
    ensures Read(s + [c], base) == Read(s, base) * base + DigitValue(c)
  {
    assert (s + [c])[..|s|] == s;
  }

  lemma {:induction false} DigitsRead(val: nat, base: nat)
    requires BaseOk(base)
    ensures Read(Digits(val, base), base) == val
    ensures val > 0 ==> Digits(val, base) != "" && Digits(val, base)[0] != '0'
    ensures forall c :: c in Digits(val, base) ==> c != '\0'
  {
    hide Read, Digit, DigitValue;
    if val > 0 {
      DigitsRead(val / base, base);
      DigitRoundTrip(val % base);
      ReadAppend(Digits(val / base, base), Digit(val % base), base);
      DivMod(val, base);
    } else {
      ReadEmpty(base);
    }
  }

  lemma ReadEmpty(base: nat)
    ensures Read("", base) == 0
  {
  }

  lemma DivMod(val: nat, base: nat)
    requires base > 0
    ensures val == (val / base) * base + val % base
    ensures val > 0 && val / base == 0 ==> val % base != 0
  {
  }

  /** What is printed holds no NUL. */
  lemma NoNul(val: nat, base: nat)
    requires BaseOk(base)
    ensures forall c :: c in Prefix(base) + Numeral(val, base) ==> c != '\0'
  {
    hide Read, Digits;
    DigitsRead(val, base);
  }

  /** Printing is invertible: the numeral reads back as the number and has no superfluous leading zero. */
  lemma NumeralRoundTrip(val: nat, base: nat)
    requires BaseOk(base)
    ensures Read(Numeral(val, base), base) == val
    ensures Numeral(val, base) != "" && (Numeral(val, base)[0] == '0' ==> Numeral(val, base) == "0" && val == 0)
  {
    DigitsRead(val, base);
    DigitRoundTrip(0);
    if val == 0 {
      assert "0"[..0] == "";
    }
  }

  /** Different numbers print differently. */
  lemma PrintInjective(a: nat, b: nat, base: nat)
    requires BaseOk(base) && Prefix(base) + Numeral(a, base) == Prefix(base) + Numeral(b, base)
    ensures a == b
  {
    assert Numeral(a, base) == (Prefix(base) + Numeral(a, base))[|Prefix(base)|..];
    assert Numeral(b, base) == (Prefix(base) + Numeral(b, base))[|Prefix(base)|..];
    NumeralRoundTrip(a, base);
    NumeralRoundTrip(b, base);
  }

  // --- reading the output back ---------------------------------------------------------------

  /** Base and value of an integer literal: "0x", "0o" and "0b" announce a base, without them it is ten. */
  function ReadLiteral(s: string): (nat, nat) {
    if "0x" <= s then (16, Read(s[2..], 16))
    else if "0o" <= s then (8, Read(s[2..], 8))
    else if "0b" <= s then (2, Read(s[2..], 2))
    else (10, Read(s, 10))
  }

  /** What is printed reads back as the base and the value it was printed for. */
  lemma LiteralRoundTrip(val: nat, base: nat)
    requires base == 2 || base == 8 || base == 10 || base == 16
    ensures ReadLiteral(Prefix(base) + Numeral(val, base)) == (base, val)
  {
    hide Read, Numeral;
    NumeralRoundTrip(val, base);
    var s := Prefix(base) + Numeral(val, base);
    if base == 10 {
      NoLetters(val);
      assert s == Numeral(val, base);
    } else {
      assert s[..2] == Prefix(base) && s[2..] == Numeral(val, base);
      assert s[1] == Prefix(base)[1];
    }
  }

  /** Decimal numerals are made of decimal digits. */
  lemma NoLetters(val: nat)
    ensures forall c :: c in Numeral(val, 10) ==> '0' <= c <= '9'
  {
    hide Digits;
    DecimalDigits(val);
  }

  lemma {:induction false} DecimalDigits(val: nat)
    ensures forall c :: c in Digits(val, 10) ==> '0' <= c <= '9'
  {
    if val > 0 {
      DecimalDigits(val / 10);
      var d := val % 10;
      assert DIGITS[d] == ('0' as nat + d) as char;
    }
  }

  lemma DigitIs(d: nat)
    requires d < 36
    ensures |DIGITS| == 36 && DIGITS[d] == Digit(d)
  {
  }

  lemma Halved(val: nat, base: nat, k: nat)
    requires BaseOk(base) && 0 < val < Pow2(k)
    ensures k > 0 && val / base < Pow2(k - 1) && 0 <= val / base < val
  {
    QuotientShrinks(val, base);
  }

  lemma QuotientShrinks(val: nat, base: nat)
    requires base >= 2
    ensures val / base <= val / 2
  {
    var q := val / base;
    assert val == q * base + val % base;
    MulMonotone(2, base, q);
    MulSwap(1, q, base);
  }

  class Printer {
    const buf: array<char>

    constructor ()
      ensures Valid() && fresh(buf)
    {
      buf := new char[BUFFER](_ => '\0');
    }

    /** The last byte is the terminating NUL; the rest may be anything. */
    ghost predicate Valid()
      reads buf
    {
      buf.Length == BUFFER && buf[BUFFER - 1] == '\0'
    }

    /** The digits of strlib_print_int, from the right; returns the index left of them. The guard on `i`
        never cuts a number short. */
    method FillDigits(val: u64, base: nat) returns (i: u64)
      requires Valid() && BaseOk(base)
      modifies buf
      ensures Valid() && 1 <= i <= BUFFER - 2
      ensures buf[i + 1..BUFFER - 1] == Numeral(val, base)
    {
      hide Pow2, DIGITS;
      Pow2Values();
      i := BUFFER - 2;
      var v: nat := val;
      if v == 0 {
        buf[i] := '0';
        i := i - 1;
      }
      while v != 0 && i != 0
        invariant 1 <= i <= BUFFER - 2 && buf[BUFFER - 1] == '\0'
        invariant v != 0 ==> v < Pow2(i - 1)
        invariant Numeral(val, base) == Digits(v, base) + buf[i + 1..BUFFER - 1]
        decreases v
      {
        Halved(v, base, i - 1);
        DigitIs(v % base);
        ghost var done := buf[i + 1..BUFFER - 1];
        buf[i] := DIGITS[v % base];
        assert buf[i..BUFFER - 1] == [Digit(v % base)] + done;
        assert Digits(v, base) + done == Digits(v / base, base) + ([Digit(v % base)] + done);
        i := i - 1;
        v := v / base;
      }
    }

    /** strlib_print_int: every write is inside the buffer, and the terminating NUL is never overwritten.
        `i` wraps below zero when the prefix fills the buffer. */
    method PrintInt(val: u64, base: nat) returns (out: string)
      requires Valid() && BaseOk(base)
      modifies buf
      ensures Valid()
      ensures out == Prefix(base) + Numeral(val, base)
      ensures base == 2 || base == 8 || base == 10 || base == 16 ==> ReadLiteral(out) == (base, val as nat)
    {
      hide Digits, ReadLiteral;
      if base == 2 || base == 8 || base == 10 || base == 16 {
        LiteralRoundTrip(val, base);
      }
      var i := FillDigits(val, base);
      ghost var numeral := buf[i + 1..BUFFER - 1];
      if base == 16 {
        i := PrependTwo(i, 'x');
      } else if base == 8 {
        i := PrependTwo(i, 'o');
      } else if base == 2 {
        i := PrependTwo(i, 'b');
      }
      var start := Add(i, 1);
      assert buf[start..BUFFER - 1] == Prefix(base) + numeral;
      NoNulBehind(start, val, base);
      out := PrintStr(start);
    }

    lemma NoNulBehind(start: nat, val: nat, base: nat)
      requires Valid() && BaseOk(base) && start < BUFFER
      requires buf[start..BUFFER - 1] == Prefix(base) + Numeral(val, base)
      ensures forall k :: start <= k < BUFFER - 1 ==> buf[k] != '\0'
    {
      hide Digits, Numeral, Prefix;
      NoNul(val, base);
      var text := buf[start..BUFFER - 1];
      forall k | start <= k < BUFFER - 1
        ensures buf[k] != '\0'
      {
        assert buf[k] == text[k - start] && text[k - start] in text;
      }
    }

    /** `buf[i--] = c; buf[i--] = '0';` */
    method PrependTwo(i: u64, c: char) returns (i': u64)
      requires Valid() && 1 <= i <= BUFFER - 2 && c != '\0'
      modifies buf
      ensures Valid() && Add(i', 1) == i - 1
      ensures buf[i - 1..BUFFER - 1] == ['0', c] + old(buf[i + 1..BUFFER - 1])
    {
      buf[i] := c;
      i' := Sub(i, 1);
      buf[i'] := '0';
      i' := Sub(i', 1);
    }

    /** strlib_print_str from an index of the buffer: everything up to the first NUL. */
    method PrintStr(start: nat) returns (out: string)
      requires Valid() && start < BUFFER
      requires forall k :: start <= k < BUFFER - 1 ==> buf[k] != '\0'
      ensures out == buf[start..BUFFER - 1]
    {
      out := "";
      var p := start;
      while buf[p] != '\0'
        invariant start <= p < BUFFER && out == buf[start..p]
        decreases BUFFER - p
      {
        out := out + [buf[p]];
        p := p + 1;
      }
    }
  }
}
