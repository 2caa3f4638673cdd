/** Sv39 virtual addresses and page table entries (src/octiron/paging.c:5-24, 66-75, 86-104, 147-213;
    section 4.4 of the RISC-V Privileged Architecture, version 1.12), with the operators of the source
    and with their arithmetic meaning.
  */
module Ptes {
  import opened Words
  import opened Extents

  /** The three table indices of a virtual address: its 27-bit page number. */
  datatype Vpn = Vpn(i2: nat, i1: nat, i0: nat)

  function VpnOf(va: u64): Vpn {
    Vpn(And(Shr(va, 30), 0x1FF), And(Shr(va, 21), 0x1FF), And(Shr(va, 12), 0x1FF))
  }

  predicate IsAligned(x: u64) {
    And(x, PAGE - 1) == 0
  }

  // --- entries -------------------------------------------------------------------------------

  predicate IsValid(pte: nat) {
    And(pte, 0x1) != 0
  }

  predicate IsLeaf(pte: nat) {
    And(pte, 0x2) != 0 || And(pte, 0x4) != 0 || And(pte, 0x8) != 0
  }

  function Ppn(pte: nat): nat {
    And(Shr(pte, 10), 0xFFF_FFFF_FFFF)
  }

  /** SV39_PTE_PPN_TO_PADDR */
  function Paddr(pte: nat): u64 {
    Shl(Ppn(pte), 12)
  }

  /** The decoding of a level-1 entry in sv39_map_small_page, without the mask. */
  function PaddrUnmasked(pte: nat): u64 {
    Shl(Shr(pte, 10), 12)
  }

  /** The entry for a table page. */
  function TableEntry(page: nat): nat {
    Or(Shr(page, 2), 0x1)
  }

  /** The entry for a mapped page, put together from the three parts of its page number. */
  function LeafEntry(pa: nat, flags: nat): nat {
    var ppn0, ppn1, ppn2 := And(Shr(pa, 12), 0x1FF), And(Shr(pa, 21), 0x1FF), And(Shr(pa, 30), 0x3FF_FFFF);
    Or(Or(Or(Or(Shl(ppn0, 10), Shl(ppn1, 19)), Shl(ppn2, 28)), flags), 0x1)
  }

  /** The flags a caller may pass: those of the entry format, with one of read, write, execute. */
  predicate FlagsOk(flags: nat) {
    flags < 256 && (flags / 2) % 8 != 0
  }

  predicate FrameOk(pa: nat) {
    Aligned(pa) && pa < LIMIT
  }

  // --- what the shifts and masks compute -----------------------------------------------------

  lemma Mask9(x: nat)
    ensures And(x, 0x1FF) == x % 512
  {
    Pow2Values();
    AndMask(x, 9);
  }

  lemma Mask26(x: nat)
    requires x < 0x400_0000
    ensures And(x, 0x3FF_FFFF) == x
  {
    hide And, Pow2;
    Pow2Values();
    AndMask(x, 26);
    DivModUnique(x, 0x400_0000, 0, x);
  }

  lemma Mask44(x: nat)
    requires x < 0x1000_0000_0000
    ensures And(x, 0xFFF_FFFF_FFFF) == x
  {
    hide And, Pow2;
    Pow2Values();
    AndMask(x, 44);
    DivModUnique(x, 0x1000_0000_0000, 0, x);
  }

  lemma Shifts(x: nat)
    ensures Shr(x, 2) == x / 4 && Shr(x, 10) == x / 0x400 && Shr(x, 12) == x / PAGE
    ensures Shr(x, 21) == x / 0x20_0000 && Shr(x, 30) == x / 0x4000_0000
  {
    Pow2Values();
    ShrDivides(x, 2);
    ShrDivides(x, 10);
    ShrDivides(x, 12);
    ShrDivides(x, 21);
    ShrDivides(x, 30);
  }

  lemma ShiftsUp(x: nat)
    requires x < 0x1000_0000_0000
    ensures Shl(x, 10) == x * 0x400 && Shl(x, 12) == x * PAGE
    ensures x < 0x10_0000_0000 ==> Shl(x, 19) == x * 0x8_0000 && Shl(x, 28) == x * 0x1000_0000
  {
    hide Scale;
    Pow2Values();
    ScaleMultiplies(x, 10);
    ScaleMultiplies(x, 12);
    ScaleMultiplies(x, 19);
    ScaleMultiplies(x, 28);
  }

  lemma AlignedTest(x: u64)
    ensures IsAligned(x) <==> Aligned(x)
  {
    Pow2Values();
    AndMask(x, 12);
  }

  lemma VpnMeaning(va: u64)
    ensures VpnOf(va) == Vpn((va / 0x4000_0000) % 512, (va / 0x20_0000) % 512, (va / PAGE) % 512)
  {
    hide And, Shr;
    Shifts(va);
    Mask9(va / 0x4000_0000);
    Mask9(va / 0x20_0000);
    Mask9(va / PAGE);
  }

  /** Two addresses have the same indices exactly when bits 12 to 38 agree. */
  lemma SameVpn(va: u64, vb: u64)
    ensures VpnOf(va) == VpnOf(vb) <==> (va / PAGE) % 0x800_0000 == (vb / PAGE) % 0x800_0000
  {
    hide VpnOf;
    VpnMeaning(va);
    VpnMeaning(vb);
    Digits(va);
    Digits(vb);
  }

  lemma Digits(va: nat)
    ensures var n := va / PAGE;
            && va / 0x20_0000 == n / 512 && va / 0x4000_0000 == n / 0x4_0000 == n / 512 / 512
            && n % 0x800_0000 == ((n / 0x4_0000) % 512) * 0x4_0000 + ((n / 512) % 512) * 512 + n % 512
  {
    var n := va / PAGE;
    DivTwice(va, PAGE, 512);
    DivTwice(va, PAGE, 0x4_0000);
    DivTwice(n, 512, 512);
    DivTwice(n, 0x4_0000, 512);
  }

  /** The low bits of a word, one at a time. */
  lemma LowBits(x: nat)
    ensures And(x, 0x1) == x % 2
    ensures And(x, 0x2) == 2 * ((x / 2) % 2) && And(x, 0x4) == 4 * ((x / 4) % 2) && And(x, 0x8) == 8 * ((x / 8) % 2)
  {
    hide And;
    AndOne(x);
    SecondBit(x);
    SecondBit(x / 2);
    AndDouble(x, 2);
    ThirdBit(x / 2);
    AndDouble(x, 4);
    DivTwice(x, 2, 2);
    DivTwice(x, 2, 4);
  }

  lemma SecondBit(x: nat)
    ensures And(x, 0x2) == 2 * ((x / 2) % 2)
  {
    hide And;
    AndDouble(x, 1);
    AndOne(x / 2);
  }

  lemma ThirdBit(x: nat)
    ensures And(x, 0x4) == 4 * ((x / 4) % 2)
  {
    hide And;
    AndDouble(x, 2);
    SecondBit(x / 2);
    DivTwice(x, 2, 2);
  }

  /** Validity and leaf bits by arithmetic. */
  lemma EntryBits(pte: nat)
    ensures IsValid(pte) <==> pte % 2 == 1
    ensures IsLeaf(pte) <==> (pte / 2) % 8 != 0
  {
    hide And;
    LowBits(pte);
    ThreeBits(pte);
  }

  lemma ThreeBits(x: nat)
    ensures (x / 2) % 8 == (x / 2) % 2 + 2 * ((x / 4) % 2) + 4 * ((x / 8) % 2)
  {
    var y := x / 2;
    DivTwice(x, 2, 2);
    DivTwice(x, 2, 4);
    DivTwice(y, 2, 4);
    DivTwice(y / 2, 2, 2);
    DivTwice(y, 2, 2);
  }

  // --- encode, decode ------------------------------------------------------------------------

  /** Decoding splits an entry into page number and flag bits. */
  lemma Decode(pte: nat, frame: nat, low: nat)
    requires FrameOk(frame) && low < 0x400 && pte == frame / 4 + low
    ensures Ppn(pte) == frame / PAGE && Paddr(pte) == frame && PaddrUnmasked(pte) == frame
    ensures pte < WORD && pte % 0x400 == low
  {
    hide And, Shr, Shl;
    var n := frame / PAGE;
    assert frame == n * PAGE;
    Quarter(frame);
    DivModUnique(pte, 0x400, n, low);
    Shifts(pte);
    Mask44(n);
    ShiftsUp(n);
  }

  /** A table entry is valid, is not a leaf, and names its page under both decoders. */
  lemma TableRoundTrip(page: nat)
    requires FrameOk(page)
    ensures var e := TableEntry(page); IsValid(e) && !IsLeaf(e) && e < WORD
    ensures var e := TableEntry(page); Ppn(e) == page / PAGE && Paddr(e) == page && PaddrUnmasked(e) == page
  {
    hide TableEntry, IsValid, IsLeaf, Ppn, Paddr, PaddrUnmasked;
    TableSum(page);
    var e := TableEntry(page);
    Decode(e, page, 1);
    EntryBits(e);
    Quarter(page);
  }

  /** A quarter of a page address is a multiple of 1024. */
  lemma Quarter(page: nat)
    requires Aligned(page)
    ensures page / 4 == (page / PAGE) * 0x400 && (page / 4) % 0x400 == 0 && (page / 4) % 256 == 0
    ensures (page / 4) % 2 == 0 && (page / 4 + 1) % 2 == 1 && ((page / 4 + 1) / 2) % 8 == 0
  {
    var n := page / PAGE;
    assert page == n * PAGE;
    DivModUnique(page, 4, n * 0x400, 0);
    DivModUnique(n * 0x400, 0x400, n, 0);
    DivModUnique(n * 0x400, 256, n * 4, 0);
    DivModUnique(n * 0x400, 2, n * 0x200, 0);
    DivModUnique(n * 0x400 + 1, 2, n * 0x200, 1);
    DivModUnique(n * 0x200, 8, n * 64, 0);
  }

  lemma TableSum(page: nat)
    requires Aligned(page)
    ensures TableEntry(page) == page / 4 + 1
  {
    hide And, Or, Shr;
    Shifts(page);
    OrOne(page / 4);
    Quarter(page);
  }

  /** The three parts of a page number, shifted into place, add up to the page number. */
  lemma LeafParts(pa: nat)
    requires FrameOk(pa)
    ensures var ppn0, ppn1, ppn2 := And(Shr(pa, 12), 0x1FF), And(Shr(pa, 21), 0x1FF), And(Shr(pa, 30), 0x3FF_FFFF);
            Or(Or(Shl(ppn0, 10), Shl(ppn1, 19)), Shl(ppn2, 28)) == pa / 4
  {
    hide And, Or, Shr, Shl;
    var n := pa / PAGE;
    var a, b, c := n % 512, (n / 512) % 512, n / 0x4_0000;
    PartsOf(pa);
    Shifts(pa);
    Mask9(n);
    Mask9(n / 512);
    Mask26(c);
    ShiftsUp(a);
    ShiftsUp(b);
    ShiftsUp(c);
    OrParts(a, b, c);
  }

  lemma PartsOf(pa: nat)
    requires FrameOk(pa)
    ensures var n := pa / PAGE;
            && pa / 0x20_0000 == n / 512 && pa / 0x4000_0000 == n / 0x4_0000 < 0x400_0000
            && pa / 4 == (n % 512) * 0x400 + ((n / 512) % 512) * 0x8_0000 + (n / 0x4_0000) * 0x1000_0000
  {
    Digits(pa);
    Quarter(pa);
    var n := pa / PAGE;
    DivTwice(n, 512, 512);
    assert n == (n / 0x4_0000) * 0x4_0000 + n % 0x4_0000;
  }

  lemma OrParts(a: nat, b: nat, c: nat)
    requires a < 512 && b < 512
    ensures Or(Or(a * 0x400, b * 0x8_0000), c * 0x1000_0000) == a * 0x400 + b * 0x8_0000 + c * 0x1000_0000
  {
    hide Or;
    Pow2Values();
    OrCommutes(a * 0x400, b * 0x8_0000);
    OrDisjoint(b * 0x8_0000, a * 0x400, 19);
    var low := b * 0x8_0000 + a * 0x400;
    OrCommutes(low, c * 0x1000_0000);
    OrDisjoint(c * 0x1000_0000, low, 28);
  }

  lemma LeafSum(pa: nat, flags: nat)
    requires FrameOk(pa) && flags < 256
    ensures LeafEntry(pa, flags) == pa / 4 + (flags + 1 - flags % 2)
  {
    hide And, Or, Shr, Shl;
    LeafParts(pa);
    LowFlags(pa, flags);
  }

  lemma LowFlags(pa: nat, flags: nat)
    requires FrameOk(pa) && flags < 256
    ensures Or(Or(pa / 4, flags), 0x1) == pa / 4 + (flags + 1 - flags % 2)
  {
    hide Or, Pow2;
    Quarter(pa);
    Pow2Values();
    OrDisjoint(pa / 4, flags, 8);
    OrOne(pa / 4 + flags);
    var n := pa / PAGE;
    DivModUnique(pa / 4 + flags, 2, n * 0x200 + flags / 2, flags % 2);
  }

  /** The low bits of a leaf entry. */
  lemma LeafLow(pa: nat, flags: nat)
    requires Aligned(pa) && flags < 256
    ensures var low := flags + 1 - flags % 2;
            && low < 0x400 && (pa / 4 + low) % 2 == 1 && ((pa / 4 + low) / 2) % 8 == (flags / 2) % 8
  {
    var n, h := pa / PAGE, flags / 2;
    Quarter(pa);
    assert flags + 1 - flags % 2 == 2 * h + 1;
    DivModUnique(pa / 4 + 2 * h + 1, 2, n * 0x200 + h, 1);
    DivModUnique(n * 0x200 + h, 8, n * 64 + h / 8, h % 8);
  }

  /** A leaf entry is valid, is a leaf exactly when its flags ask for it, names its frame under both
      decoders, and keeps its flags. */
  lemma LeafRoundTrip(pa: nat, flags: nat)
    requires FrameOk(pa) && flags < 256
    ensures var e := LeafEntry(pa, flags); IsValid(e) && (IsLeaf(e) <==> FlagsOk(flags)) && e < WORD
    ensures var e := LeafEntry(pa, flags); Ppn(e) == pa / PAGE && Paddr(e) == pa && PaddrUnmasked(e) == pa
    ensures LeafEntry(pa, flags) % 0x400 == flags + 1 - flags % 2
  {
    hide LeafEntry, IsValid, IsLeaf, Ppn, Paddr, PaddrUnmasked;
    LeafSum(pa, flags);
    LeafLow(pa, flags);
    var e := LeafEntry(pa, flags);
    Decode(e, pa, flags + 1 - flags % 2);
    EntryBits(e);
  }

  lemma ZeroEntry()
    ensures !IsValid(0)
  {
  }

  // --- the offset of the walk ----------------------------------------------------------------

  /** The walk keeps bit 12 of the address, not bits 0 to 11. */
  function PageOffset(va: u64): nat {
    And(va, PAGE)
  }

  lemma PageOffsetMeaning(va: u64)
    ensures PageOffset(va) == if (va / PAGE) % 2 == 1 then PAGE else 0
  {
    Pow2Values();
    AndShifted(va, 1, 12);
    ShrDivides(va, 12);
    ScaleMultiplies(1, 12);
    AndOne(va / PAGE);
    ScaleMultiplies((va / PAGE) % 2, 12);
  }

  /** What the walk answers for an address whose page is mapped to `frame`. */
  function Answer(frame: nat, va: u64): nat {
    Or(frame, PageOffset(va))
  }

  lemma AnswerMeaning(frame: nat, va: u64)
    requires FrameOk(frame)
    ensures Answer(frame, va) == if (va / PAGE) % 2 == 1 && (frame / PAGE) % 2 == 0 then frame + PAGE else frame
  {
    hide And, Or;
    PageOffsetMeaning(va);
    if (va / PAGE) % 2 == 1 {
      OrPageBit(frame);
    } else {
      OrCommutes(frame, 0);
      OrNothing(frame);
    }
  }

  lemma OrNothing(x: nat)
    ensures Or(0, x) == x
  {
  }

  lemma {:induction false} OrScaled(x: nat, k: nat)
    ensures Or(Scale(x, k), Scale(1, k)) == Scale(x + 1 - x % 2, k)
    decreases k
  {
    if k == 0 {
      OrOne(x);
    } else {
      OrScaled(x, k - 1);
    }
  }

  lemma OrPageBit(frame: nat)
    requires FrameOk(frame)
    ensures Or(frame, PAGE) == if (frame / PAGE) % 2 == 0 then frame + PAGE else frame
  {
    hide Or;
    Pow2Values();
    var n := frame / PAGE;
    OrScaled(n, 12);
    ScaleMultiplies(n, 12);
    ScaleMultiplies(1, 12);
    ScaleMultiplies(n + 1 - n % 2, 12);
  }

  /** The answer is the mapped byte address exactly when the address is page-aligned and either lies
      in an even page or is mapped to an odd frame. */
  lemma AnswerExactIff(frame: nat, va: u64)
    requires FrameOk(frame)
    ensures Answer(frame, va) == frame + va % PAGE <==>
            Aligned(va) && ((va / PAGE) % 2 == 0 || (frame / PAGE) % 2 == 1)
  {
    hide Answer;
    AnswerMeaning(frame, va);
  }

  /** For an identity mapping a page-aligned address is answered exactly. */
  lemma AnswerIdentity(va: u64)
    requires FrameOk(va)
    ensures Answer(va, va) == va
  {
    hide Answer;
    AnswerMeaning(va, va);
  }
}
