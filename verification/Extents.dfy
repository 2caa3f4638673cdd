/** Free lists as sequences of extents, and first fit on them (the inner loop of
    pmm_alloc_aligned, src/octiron/pmm.c:251-311, seen without its pointers).
  */
module Extents {
  import opened Words

  const PAGE: nat := 4096                   // BASE_PAGE_SIZE
  const LIMIT: nat := 0x100_0000_0000_0000  // physical addresses have 56 bits

  datatype Option<+T> = None | Some(value: T) {
    function GetOr(default: T): T {
      if Some? then value else default
    }
  }

  datatype Extent = Extent(base: nat, size: nat) {
    function End(): nat {
      base + size
    }

    predicate Holds(x: nat) {
      base <= x < base + size
    }
  }

  /** What a first-fit search did: the address it took and the blocks it left. */
  datatype Taken = Taken(addr: nat, rest: seq<Extent>)

  /** The number of extents that hold byte x. */
  function Count(blocks: seq<Extent>, x: nat): nat {
    if blocks == [] then 0 else (if blocks[0].Holds(x) then 1 else 0) + Count(blocks[1..], x)
  }

  function Sum(blocks: seq<Extent>): nat {
    if blocks == [] then 0 else blocks[0].size + Sum(blocks[1..])
  }

  predicate Aligned(x: nat) {
    x % PAGE == 0
  }

  lemma PageApart(p: nat, q: nat, x: nat)
    requires Aligned(p) && Aligned(q) && p != q && p <= x < p + PAGE
    ensures !(q <= x < q + PAGE)
  {
  }

  lemma NextPage(p: nat, end: nat)
    requires Aligned(p) && Aligned(end) && p < end
    ensures Aligned(p + PAGE) && p + PAGE <= end
  {
  }

  lemma AlignedSum(a: nat, b: nat)
    requires Aligned(a) && Aligned(b)
    ensures Aligned(a + b)
    ensures a <= b ==> Aligned(b - a)
  {
    var m, n := a / PAGE, b / PAGE;
    assert a == PAGE * m && b == PAGE * n;
    assert a + b == PAGE * (m + n) && b - a == PAGE * (n - m);
  }

  /** Ascending, non-empty, page-aligned blocks between lo and hi. */
  predicate Sorted(blocks: seq<Extent>, lo: nat, hi: nat) {
    if blocks == [] then lo <= hi
    else
      && lo <= blocks[0].base
      && blocks[0].size > 0
      && Aligned(blocks[0].base) && Aligned(blocks[0].size)
      && Sorted(blocks[1..], blocks[0].End(), hi)
  }

  /** No block touches the next. */
  predicate Gapped(blocks: seq<Extent>) {
    |blocks| < 2 || (blocks[0].End() < blocks[1].base && Gapped(blocks[1..]))
  }

  /** What is left of a block after [a, a + size) is cut out of it. */
  function Pieces(e: Extent, a: nat, size: nat): seq<Extent>
    requires e.base <= a && a + size <= e.End()
  {
    (if e.base < a then [Extent(e.base, a - e.base)] else [])
    + (if a + size < e.End() then [Extent(a + size, e.End() - (a + size))] else [])
  }

  predicate Fits(e: Extent, size: nat, alignment: u64)
    requires alignment > 0
  {
    e.base < WORD && e.base <= AlignUp(e.base, alignment) && AlignUp(e.base, alignment) + size <= e.End()
  }

  /** First fit: cut the request out of the first block that has room for it at an aligned address. */
  function Take(blocks: seq<Extent>, size: nat, alignment: u64): Option<Taken>
    requires alignment > 0
  {
    if blocks == [] then None
    else if Fits(blocks[0], size, alignment) then
      var a := AlignUp(blocks[0].base, alignment);
      Some(Taken(a, Pieces(blocks[0], a, size) + blocks[1..]))
    else
      match Take(blocks[1..], size, alignment)
      case None => None
      case Some(t) => Some(Taken(t.addr, [blocks[0]] + t.rest))
  }

  // --- the list algebra ----------------------------------------------------------------------

  lemma {:induction false} CountConcat(a: seq<Extent>, b: seq<Extent>, x: nat)
    ensures Count(a + b, x) == Count(a, x) + Count(b, x)
  {
    if a == [] {
      assert a + b == b;
    } else {
      assert (a + b)[1..] == a[1..] + b;
      CountConcat(a[1..], b, x);
    }
  }

  lemma {:induction false} SumConcat(a: seq<Extent>, b: seq<Extent>)
    ensures Sum(a + b) == Sum(a) + Sum(b)
  {
    if a == [] {
      assert a + b == b;
    } else {
      assert (a + b)[1..] == a[1..] + b;
      SumConcat(a[1..], b);
    }
  }

  lemma PiecesCount(e: Extent, a: nat, size: nat, x: nat)
    requires e.base <= a && a + size <= e.End()
    ensures Count(Pieces(e, a, size), x) + (if Extent(a, size).Holds(x) then 1 else 0) == if e.Holds(x) then 1 else 0
    ensures Sum(Pieces(e, a, size)) + size == e.size
  {
    var front := if e.base < a then [Extent(e.base, a - e.base)] else [];
    var back := if a + size < e.End() then [Extent(a + size, e.End() - (a + size))] else [];
    CountConcat(front, back, x);
    SumConcat(front, back);
  }

  /** Conservation: what was taken and what is left are together what was there, byte for byte. */
  lemma {:induction false} TakeConserves(blocks: seq<Extent>, size: nat, alignment: u64, x: nat)
    requires alignment > 0 && Take(blocks, size, alignment).Some?
    ensures var t := Take(blocks, size, alignment).value;
            && Count(t.rest, x) + (if Extent(t.addr, size).Holds(x) then 1 else 0) == Count(blocks, x)
            && Sum(t.rest) + size == Sum(blocks)
  {
    var t := Take(blocks, size, alignment).value;
    if Fits(blocks[0], size, alignment) {
      var p := Pieces(blocks[0], t.addr, size);
      PiecesCount(blocks[0], t.addr, size, x);
      CountConcat(p, blocks[1..], x);
      SumConcat(p, blocks[1..]);
    } else {
      TakeConserves(blocks[1..], size, alignment, x);
      assert t.rest[1..] == Take(blocks[1..], size, alignment).value.rest;
    }
  }

  /** A sorted list holds no byte below lo, none from hi on, and none twice. */
  lemma {:induction false} SortedCount(blocks: seq<Extent>, lo: nat, hi: nat, x: nat)
    requires Sorted(blocks, lo, hi)
    ensures lo <= hi
    ensures Count(blocks, x) <= 1
    ensures Count(blocks, x) == 1 ==> lo <= x < hi
    ensures Sum(blocks) <= hi - lo
  {
    if blocks != [] {
      SortedCount(blocks[1..], blocks[0].End(), hi, x);
    }
  }

  lemma {:induction false} SortedAt(blocks: seq<Extent>, lo: nat, hi: nat, k: nat)
    requires Sorted(blocks, lo, hi) && k < |blocks|
    ensures lo <= blocks[k].base && blocks[k].size > 0 && blocks[k].End() <= hi && Aligned(blocks[k].base)
  {
    SortedCount(blocks[1..], blocks[0].End(), hi, 0);
    if k > 0 {
      SortedAt(blocks[1..], blocks[0].End(), hi, k - 1);
    }
  }

  lemma {:induction false} SortedLower(blocks: seq<Extent>, lo: nat, lo': nat, hi: nat)
    requires Sorted(blocks, lo, hi) && lo' <= lo
    ensures Sorted(blocks, lo', hi)
  {
  }

  /** Page-aligned cuts out of a page-aligned block leave page-aligned pieces. */
  lemma TakeAligned(e: Extent, size: nat, alignment: u64)
    requires IsPow2(alignment) && alignment >= PAGE && e.base + alignment <= WORD && Fits(e, size, alignment)
    requires Aligned(e.base) && Aligned(e.size) && Aligned(size)
    ensures var a := AlignUp(e.base, alignment);
            Aligned(a) && Aligned(a + size) && Aligned(a - e.base) && Aligned(e.End() - (a + size))
  {
    hide AlignUp, IsPow2, Aligned;
    AlignedToPage(e.base, alignment);
    var a := AlignUp(e.base, alignment);
    AlignedSum(a, size);
    AlignedSum(e.base, a);
    AlignedSum(e.base, e.size);
    AlignedSum(a + size, e.base + e.size);
  }

  lemma AlignedToPage(x: u64, alignment: u64)
    requires IsPow2(alignment) && alignment >= PAGE && x + alignment <= WORD
    ensures Aligned(AlignUp(x, alignment))
  {
    hide AlignUp;
    AlignUpMeaning(x, alignment);
    PageMultiple(alignment, AlignUp(x, alignment));
  }

  /** A multiple of a power of two that is at least a page is a multiple of the page size. */
  lemma PageMultiple(alignment: u64, a: nat)
    requires IsPow2(alignment) && alignment >= PAGE && a % alignment == 0
    ensures Aligned(a)
  {
    var k := Exponent(alignment);
    Pow2Values();
    if k < 12 {
      Pow2Monotone(k, 11);
    }
    Pow2Add(k - 12, 12);
    var m, q := Pow2(k - 12), a / alignment;
    MultipleOf(a, alignment);
    assert a == q * (m * PAGE) == (q * m) * PAGE by {
      Associative(q, m, PAGE);
    }
    MultipleMod(q * m, PAGE);
  }

  lemma Associative(a: int, b: int, c: int)
    ensures a * (b * c) == (a * b) * c
  {
  }

  /** First fit keeps the list sorted. */
  lemma {:induction false} TakeSorted(blocks: seq<Extent>, size: nat, alignment: u64, lo: nat, hi: nat)
    requires IsPow2(alignment) && alignment >= PAGE && hi + alignment <= WORD
    requires Sorted(blocks, lo, hi) && Aligned(size) && Take(blocks, size, alignment).Some?
    ensures Sorted(Take(blocks, size, alignment).value.rest, lo, hi)
  {
    hide AlignUp, Pieces, Aligned, IsPow2;
    var e, t := blocks[0], Take(blocks, size, alignment).value;
    SortedCount(blocks[1..], e.End(), hi, 0);
    if Fits(e, size, alignment) {
      TakeAligned(e, size, alignment);
      PiecesSorted(e, t.addr, size, blocks[1..], lo, hi);
    } else {
      TakeSorted(blocks[1..], size, alignment, e.End(), hi);
      assert t.rest[1..] == Take(blocks[1..], size, alignment).value.rest;
    }
  }

  lemma SortedPush(b: Extent, tail: seq<Extent>, lo: nat, hi: nat)
    requires lo <= b.base && b.size > 0 && Aligned(b.base) && Aligned(b.size) && Sorted(tail, b.End(), hi)
    ensures Sorted([b] + tail, lo, hi)
  {
    hide Aligned;
    assert ([b] + tail)[1..] == tail;
  }

  lemma PiecesSorted(e: Extent, a: nat, size: nat, tail: seq<Extent>, lo: nat, hi: nat)
    requires lo <= e.base <= a && a + size <= e.End()
    requires Aligned(e.base) && Aligned(a - e.base) && Aligned(a + size) && Aligned(e.End() - (a + size))
    requires Sorted(tail, e.End(), hi)
    ensures Sorted(Pieces(e, a, size) + tail, lo, hi)
  {
    hide Aligned, Sorted;
    var back := if a + size < e.End() then [Extent(a + size, e.End() - (a + size))] else [];
    var s := back + tail;
    if back == [] {
      assert s == tail;
      SortedLower(tail, e.End(), a, hi);
    } else {
      SortedPush(back[0], tail, a, hi);
    }
    if e.base < a {
      assert Pieces(e, a, size) + tail == [Extent(e.base, a - e.base)] + s;
      SortedPush(Extent(e.base, a - e.base), s, lo, hi);
    } else {
      assert Pieces(e, a, size) + tail == s;
      SortedLower(s, a, lo, hi);
    }
  }

  /** After a non-empty cut no block touches the next, if none did before. A cut of zero bytes can
      leave two touching blocks behind. */
  lemma {:induction false} TakeGapped(blocks: seq<Extent>, size: nat, alignment: u64)
    requires alignment > 0 && size > 0
    requires Gapped(blocks) && Take(blocks, size, alignment).Some?
    ensures Gapped(Take(blocks, size, alignment).value.rest)
    ensures forall b: Extent :: b.End() < blocks[0].base ==> Gapped([b] + Take(blocks, size, alignment).value.rest)
  {
    hide AlignUp, Pieces;
    var e, t, tail := blocks[0], Take(blocks, size, alignment).value, blocks[1..];
    if Fits(e, size, alignment) {
      PiecesGapped(e, t.addr, size, tail);
    } else {
      TakeGapped(tail, size, alignment);
    }
    forall b: Extent | b.End() < e.base
      ensures Gapped([b] + t.rest)
    {
      TakeFront(blocks, size, alignment);
      GappedPush(b, t.rest);
    }
  }

  /** First fit leaves nothing in front of the first block. */
  lemma TakeFront(blocks: seq<Extent>, size: nat, alignment: u64)
    requires alignment > 0 && Gapped(blocks) && Take(blocks, size, alignment).Some?
    ensures var rest := Take(blocks, size, alignment).value.rest; rest != [] ==> blocks[0].base <= rest[0].base
  {
  }

  lemma PiecesGapped(e: Extent, a: nat, size: nat, tail: seq<Extent>)
    requires e.base <= a && a + size <= e.End() && size > 0
    requires Gapped(tail) && (tail != [] ==> e.End() < tail[0].base)
    ensures Gapped(Pieces(e, a, size) + tail)
  {
    var back: seq<Extent> := if a + size < e.End() then [Extent(a + size, e.End() - (a + size))] else [];
    var front: seq<Extent> := if e.base < a then [Extent(e.base, a - e.base)] else [];
    assert Gapped(back + tail) by {
      if back == [] {
        assert back + tail == tail;
      } else {
        GappedPush(back[0], tail);
      }
    }
    assert Pieces(e, a, size) + tail == front + (back + tail);
    if front == [] {
      assert front + (back + tail) == back + tail;
    } else {
      GappedPush(front[0], back + tail);
    }
  }

  lemma GappedPush(b: Extent, tail: seq<Extent>)
    requires Gapped(tail) && (tail != [] ==> b.End() < tail[0].base)
    ensures Gapped([b] + tail)
  {
    assert ([b] + tail)[1..] == tail;
  }

  /** The block that a request for no bytes goes to: the first whose rounded-up base is inside it or at its
      end. */
  function RoomFor(blocks: seq<Extent>, alignment: u64): Option<Extent>
    requires alignment > 0
  {
    if blocks == [] then None
    else if Fits(blocks[0], 0, alignment) then Some(blocks[0])
    else RoomFor(blocks[1..], alignment)
  }

  /** An empty cut at either end of that block changes nothing, and one in its middle leaves two blocks that
      touch. */
  lemma {:induction false} TakeNothingGapped(blocks: seq<Extent>, alignment: u64, lo: nat, hi: nat)
    requires alignment > 0 && Sorted(blocks, lo, hi) && Gapped(blocks)
    ensures Take(blocks, 0, alignment).Some? <==> RoomFor(blocks, alignment).Some?
    ensures RoomFor(blocks, alignment).Some? ==>
              var e, rest := RoomFor(blocks, alignment).value, Take(blocks, 0, alignment).value.rest;
              && e.base < WORD
              && rest != [] && rest[0].base == blocks[0].base
              && (Gapped(rest) <==> AlignUp(e.base, alignment) == e.base || AlignUp(e.base, alignment) == e.End())
  {
    hide AlignUp, Pieces;
    if blocks != [] {
      var e, tail := blocks[0], blocks[1..];
      if Fits(e, 0, alignment) {
        EmptyCut(e, AlignUp(e.base, alignment), tail, hi);
      } else {
        TakeNothingGapped(tail, alignment, e.End(), hi);
        if Take(tail, 0, alignment).Some? {
          assert Take(blocks, 0, alignment).value.rest[1..] == Take(tail, 0, alignment).value.rest;
        }
      }
    }
  }

  lemma EmptyCut(e: Extent, a: nat, tail: seq<Extent>, hi: nat)
    requires e.base <= a <= e.End() && e.size > 0 && Sorted(tail, e.End(), hi) && Gapped([e] + tail)
    ensures var rest := Pieces(e, a, 0) + tail;
            && rest != [] && rest[0].base == e.base
            && (Gapped(rest) <==> a == e.base || a == e.End())
  {
    var rest := Pieces(e, a, 0) + tail;
    if a == e.base || a == e.End() {
      assert rest == [e] + tail;
    } else {
      assert rest[1] == Extent(a, e.End() - a);
    }
  }

  /** A split adds one block; at page alignment a sorted list is never split. */
  lemma {:induction false} TakeLength(blocks: seq<Extent>, size: nat, alignment: u64)
    requires alignment > 0 && Take(blocks, size, alignment).Some?
    ensures |Take(blocks, size, alignment).value.rest| <= |blocks| + 1
  {
    if !Fits(blocks[0], size, alignment) {
      TakeLength(blocks[1..], size, alignment);
    }
  }

  lemma {:induction false} TakePageLength(blocks: seq<Extent>, size: nat, lo: nat, hi: nat)
    requires Sorted(blocks, lo, hi) && hi + PAGE <= WORD && Take(blocks, size, PAGE).Some?
    ensures |Take(blocks, size, PAGE).value.rest| <= |blocks|
  {
    SortedCount(blocks[1..], blocks[0].End(), hi, 0);
    if Fits(blocks[0], size, PAGE) {
      PageIsPow2();
      AlignUpExact(blocks[0].base, PAGE);
    } else {
      TakePageLength(blocks[1..], size, blocks[0].End(), hi);
    }
  }

  lemma PageIsPow2()
    ensures IsPow2(PAGE)
  {
    Pow2Values();
    assert PAGE == Pow2(12);
  }

  // --- first fit against its declarative meaning ---------------------------------------------

  /** All of [w, w + size) is free, and w is aligned. */
  ghost predicate Window(blocks: seq<Extent>, w: nat, size: nat, alignment: u64)
    requires alignment > 0
  {
    w % alignment == 0 && forall x: nat :: w <= x < w + size ==> Count(blocks, x) > 0
  }

  /** What first fit takes is a window. */
  lemma {:induction false} TakeIsWindow(blocks: seq<Extent>, size: nat, alignment: u64, lo: nat, hi: nat)
    requires IsPow2(alignment) && hi + alignment <= WORD
    requires Sorted(blocks, lo, hi) && Take(blocks, size, alignment).Some?
    ensures Window(blocks, Take(blocks, size, alignment).value.addr, size, alignment)
    ensures lo <= Take(blocks, size, alignment).value.addr && Take(blocks, size, alignment).value.addr + size <= hi
  {
    SortedCount(blocks[1..], blocks[0].End(), hi, 0);
    if Fits(blocks[0], size, alignment) {
      AlignUpMeaning(blocks[0].base, alignment);
    } else {
      TakeIsWindow(blocks[1..], size, alignment, blocks[0].End(), hi);
    }
  }

  /** Completeness: where there is any aligned free window, first fit succeeds, and at no higher address. */
  lemma {:induction false} TakeLeast(blocks: seq<Extent>, size: nat, alignment: u64, lo: nat, hi: nat, w: nat)
    requires IsPow2(alignment) && hi + alignment <= WORD && size > 0
    requires Sorted(blocks, lo, hi) && Gapped(blocks)
    requires Window(blocks, w, size, alignment)
    ensures Take(blocks, size, alignment).Some? && Take(blocks, size, alignment).value.addr <= w
  {
    SortedCount(blocks, lo, hi, w);
    var e, tail := blocks[0], blocks[1..];
    SortedCount(tail, e.End(), hi, w);
    assert e.base <= w;
    if w < e.End() {
      AlignUpMeaning(e.base, alignment);
      AlignUpLeast(e.base, alignment, w);
      if w + size > e.End() {
        AfterGap(e, tail, hi);
        assert Count(blocks, e.End()) == 0;
      }
    } else if Fits(e, size, alignment) {
      AlignUpLeast(e.base, alignment, w);
    } else {
      assert forall x: nat :: w <= x < w + size ==> Count(blocks, x) == Count(tail, x);
      TakeLeast(tail, size, alignment, e.End(), hi, w);
    }
  }

  /** The byte behind a block of a gapped list is not free. */
  lemma AfterGap(e: Extent, tail: seq<Extent>, hi: nat)
    requires Sorted(tail, e.End(), hi) && Gapped([e] + tail)
    ensures Count(tail, e.End()) == 0
  {
    assert ([e] + tail)[1..] == tail;
    if tail != [] {
      SortedCount(tail[1..], tail[0].End(), hi, e.End());
    }
  }

  /** A single block holds [w, w + size), and w is aligned. */
  ghost predicate BlockWindow(blocks: seq<Extent>, w: nat, size: nat, alignment: u64)
    requires alignment > 0
  {
    w % alignment == 0 && exists e :: e in blocks && e.base <= w && w + size <= e.End()
  }

  /** In any sorted list, touching blocks or not, and for any size: first fit succeeds exactly when some block
      holds an aligned window, and answers with the least. */
  lemma {:induction false} TakeLeastBlock(blocks: seq<Extent>, size: nat, alignment: u64, lo: nat, hi: nat, w: nat)
    requires IsPow2(alignment) && hi + alignment <= WORD && Sorted(blocks, lo, hi)
    ensures Take(blocks, size, alignment).Some? ==>
              BlockWindow(blocks, Take(blocks, size, alignment).value.addr, size, alignment)
    ensures BlockWindow(blocks, w, size, alignment) ==>
              Take(blocks, size, alignment).Some? && Take(blocks, size, alignment).value.addr <= w
  {
    hide AlignUp, IsPow2, Pieces;
    if blocks != [] {
      var e, tail := blocks[0], blocks[1..];
      SortedCount(tail, e.End(), hi, 0);
      PowPositive(alignment);
      AlignUpMeaning(e.base, alignment);
      if BlockWindow(blocks, w, size, alignment) {
        var b :| b in blocks && b.base <= w && w + size <= b.End();
        if b != e {
          var k :| 0 <= k < |tail| && tail[k] == b;
          SortedAt(tail, e.End(), hi, k);
        }
        AlignUpLeast(e.base, alignment, w);
      }
      TakeLeastBlock(tail, size, alignment, e.End(), hi, w);
    }
  }
}
