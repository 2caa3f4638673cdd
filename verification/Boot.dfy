/** The identity mappings of kernel boot (src/octiron/entry.c:25-38, 93-140) and the temporary mapping of
    the device tree blob (src/octiron/devices/device_tree/device_tree.c:721-745, 833-839).
  */
module Boot {
  import opened Words
  import opened Endian
  import opened Extents
  import opened Ptes
  import opened Sv39Spec
  import opened PagingSpec
  import opened RangeSpec
  import opened MapLists
  import opened Paging
  import opened PhysicalMemoryManager
  import opened PhysicalMemory
  import PmmSpec

  const READ: u64 := 2      // SV39_FLAGS_READ
  const WRITE: u64 := 4     // SV39_FLAGS_WRITE
  const EXECUTE: u64 := 8   // SV39_FLAGS_EXECUTE

  datatype Range = Range(start: u64, end: u64, flags: u64) {
    function From(): u64 {
      AlignDown(start, PAGE)
    }

    function To(): u64 {
      AlignUp(end, PAGE)
    }

    ghost predicate Ok() {
      end <= LIMIT && FlagsOk(flags)
    }
  }

  lemma RangeBounds(r: Range)
    requires r.end <= LIMIT
    ensures Aligned(r.From()) && r.From() <= r.start < r.From() + PAGE
    ensures Aligned(r.To()) && r.end <= r.To() <= LIMIT
  {
    hide AlignDown, AlignUp;
    PageIsPow2();
    AlignDownMeaning(r.start, PAGE);
    AlignUpMeaning(r.end, PAGE);
    AlignUpLeast(r.end, PAGE, LIMIT);
  }

  /** What kernel_id_map_range does; a false result is a failed ASSERT, behind which the kernel loops. */
  ghost function IdMapStep(k: Kernel, r: Range): (Kernel, bool)
    requires r.Ok()
  {
    RangeBounds(r);
    if r.From() >= r.To() then (k, false) else MapPages(k, r.From(), r.To(), r.flags)
  }

  /** kernel_id_map_range */
  method IdMapRange(pt: PageTables, r: Range) returns (ok: bool)
    requires pt.Valid() && r.Ok()
    modifies pt, pt.pmm, pt.pmm.slab, pt.pmm.regions, pt.mem.frames.Values
    ensures pt.Valid() && (pt.State(), ok) == IdMapStep(old(pt.State()), r)
  {
    hide PageTables.Valid, MapStep, FlagsOk, AlignDown, AlignUp;
    RangeBounds(r);
    var from, to := AlignDown(r.start, PAGE), AlignUp(r.end, PAGE);
    if !(from < to) {
      return false;
    }
    ok := MapLoop(pt, from, to, r.flags);
  }

  /** `for (pa = from; pa < end; pa += PAGE) sv39_map(root, pa, pa, flags, sv39_Page)`, up to a failure. */
  method MapLoop(pt: PageTables, from: nat, end: nat, flags: u64) returns (ok: bool)
    requires pt.Valid() && end <= LIMIT && FlagsOk(flags)
    modifies pt, pt.pmm, pt.pmm.slab, pt.pmm.regions, pt.mem.frames.Values
    ensures pt.Valid() && (pt.State(), ok) == MapPages(old(pt.State()), from, end, flags)
  {
    hide MapStep, FlagsOk, KInv, Pmm.Valid, Memory.Valid, Backed, Holds;
    var pa := from;
    while pa < end
      invariant pt.Valid() && from <= pa
      invariant MapPages(old(pt.State()), from, end, flags) == MapPages(pt.State(), pa, end, flags)
      decreases end - pa
    {
      var out := pt.Map(pt.root, pa, pa, flags, Page);
      if out != Mapped {
        return false;
      }
      pa := pa + PAGE;
    }
    return true;
  }

  // --- what a mapped range translates to -----------------------------------------------------

  /** Every page of the rounded-out range is mapped to itself with the range's flags. */
  ghost predicate Identity(dict: Dict, r: Range)
    requires r.Ok()
  {
    forall p: u64 :: PageIn(p, r.From(), r.To()) ==> VpnOf(p) in dict && dict[VpnOf(p)] == Mapping(p, r.flags)
  }

  /** The rounded-out range is not empty, and its pages can be mapped. */
  ghost predicate CanIdMap(k: Kernel, r: Range)
    requires r.Ok()
  {
    RangeBounds(r);
    r.From() < r.To() && CanMapRange(k, r.From(), r.To(), r.flags)
  }

  /** kernel_id_map_range gets through exactly when its rounded-out range is not empty, none of its pages is
      mapped, it is no longer than 2^39 bytes and the tables it lacks fit into free memory. Then exactly the
      pages of that range come to translate to themselves, at every byte to the start of its page; no other
      address changes its translation. */
  lemma IdMapMeaning(k: Kernel, root: nat, nodes: nat, r: Range)
    requires KInv(k, root, nodes) && r.Ok()
    ensures IdMapStep(k, r).1 <==> CanIdMap(k, r)
    ensures KInv(IdMapStep(k, r).0, root, nodes)
    ensures CanIdMap(k, r) ==>
              var dict := IdMapStep(k, r).0.dict;
              && Identity(dict, r)
              && (forall x: u64 :: r.From() <= x < r.To() ==> Translate(dict, x) == Some(x - x % PAGE))
              && (forall x: u64 :: (forall p: u64 :: PageIn(p, r.From(), r.To()) ==> VpnOf(p) != VpnOf(x)) ==>
                    Translate(dict, x) == Translate(k.dict, x))
  {
    hide KInv, MapPages, VpnOf, FlagsOk, Answer, AlignDown, AlignUp, CanMapRange, Accounted;
    RangeBounds(r);
    if r.From() < r.To() {
      MapPagesSucceedsIff(k, root, nodes, r.From(), r.To(), r.flags);
      if IdMapStep(k, r).1 {
        forall x: u64 | r.From() <= x < r.To()
          ensures Translate(IdMapStep(k, r).0.dict, x) == Some(x - x % PAGE)
        {
          ByteOfPage(IdMapStep(k, r).0.dict, r, x);
        }
      }
    }
  }

  lemma ByteOfPage(dict: Dict, r: Range, x: u64)
    requires r.Ok() && Identity(dict, r) && r.From() <= x < r.To()
    ensures Translate(dict, x) == Some(x - x % PAGE)
  {
    hide VpnOf, FlagsOk, Answer, AlignDown, AlignUp;
    RangeBounds(r);
    PageOf(x, r.From());
    var p: u64 := x - x % PAGE;
    assert PageIn(p, r.From(), r.To());
    SameVpn(p, x);
    AnswerMeaning(p, x);
  }

  lemma PageOf(x: nat, from: nat)
    requires Aligned(from) && from <= x
    ensures var p := x - x % PAGE; Aligned(p) && from <= p && p / PAGE == x / PAGE
  {
    var n, m := x / PAGE, from / PAGE;
    assert x == n * PAGE + x % PAGE && from == m * PAGE;
  }

  /** Mapping more pages, even if that fails half-way, leaves an identity range what it is. */
  lemma IdentityKept(k: Kernel, root: nat, nodes: nat, r: Range, r': Range)
    requires KInv(k, root, nodes) && r.Ok() && r'.Ok() && Identity(k.dict, r)
    ensures Identity(IdMapStep(k, r').0.dict, r)
  {
    hide KInv, MapPages, VpnOf, FlagsOk, AlignDown, AlignUp, PageIn;
    RangeBounds(r);
    RangeBounds(r');
    forall p: u64 | PageIn(p, r.From(), r.To())
      ensures var dict := IdMapStep(k, r').0.dict; VpnOf(p) in dict && dict[VpnOf(p)] == Mapping(p, r.flags)
    {
      MapPagesGrows(k, root, nodes, r'.From(), r'.To(), r'.flags, VpnOf(p));
    }
  }

  /** Ranges one after the other, up to the first failure. */
  ghost function BootSteps(k: Kernel, rs: seq<Range>): (Kernel, bool)
    requires forall r :: r in rs ==> r.Ok()
  {
    if rs == [] then (k, true)
    else
      var (k', ok) := BootSteps(k, rs[..|rs| - 1]);
      if !ok then (k', false) else IdMapStep(k', rs[|rs| - 1])
  }

  /** All pages of all ranges. */
  ghost function AllPages(rs: seq<Range>): seq<Request>
    requires forall r :: r in rs ==> r.Ok()
  {
    if rs == [] then []
    else
      var r := rs[|rs| - 1];
      assert r.Ok();
      RangeBounds(r);
      AllPages(rs[..|rs| - 1]) + Pages(r.From(), r.To(), r.flags)
  }

  ghost predicate NoneEmpty(rs: seq<Range>) {
    forall r: Range :: r in rs ==> r.From() < r.To()
  }

  lemma {:induction false} BootIsList(k: Kernel, rs: seq<Range>)
    requires forall r :: r in rs ==> r.Ok()
    ensures BootSteps(k, rs).1 ==> NoneEmpty(rs)
    ensures NoneEmpty(rs) ==> BootSteps(k, rs) == MapList(k, AllPages(rs))
  {
    hide MapList, MapPages, Pages, AlignDown, AlignUp, FlagsOk;
    if rs != [] {
      var front, r := rs[..|rs| - 1], rs[|rs| - 1];
      assert r in rs && forall q :: q in rs <==> q in front || q == r;
      BootIsList(k, front);
      RangeBounds(r);
      MapListConcat(k, AllPages(front), Pages(r.From(), r.To(), r.flags));
      MapPagesIsList(BootSteps(k, front).0, r.From(), r.To(), r.flags);
    } else {
      EmptyList(k);
    }
  }

  lemma EmptyList(k: Kernel)
    ensures MapList(k, []) == (k, true)
  {
  }

  lemma {:induction false} AllPagesOk(rs: seq<Range>)
    requires forall r :: r in rs ==> r.Ok()
    ensures RequestsOk(AllPages(rs))
  {
    hide Pages, AlignDown, AlignUp, FlagsOk;
    if rs != [] {
      var r := rs[|rs| - 1];
      assert r in rs;
      AllPagesOk(rs[..|rs| - 1]);
      RangeBounds(r);
      PagesOk(r.From(), r.To(), r.flags);
    }
  }

  /** A sequence of ranges gets mapped exactly when none rounds to nothing and their pages, taken together, are
      unmapped, have page numbers of their own, and lack no more tables than fit into free memory. */
  lemma BootStepsIff(k: Kernel, root: nat, nodes: nat, rs: seq<Range>)
    requires KInv(k, root, nodes) && forall r :: r in rs ==> r.Ok()
    ensures BootSteps(k, rs).1 <==> NoneEmpty(rs) && CanMap(k, AllPages(rs))
  {
    hide KInv, BootSteps, AllPages, NoneEmpty, MapList, CanMap, FlagsOk;
    BootIsList(k, rs);
    AllPagesOk(rs);
    MapListIff(k, root, nodes, AllPages(rs));
  }

  /** For ranges below 2^39, as those of the kernel are, distinct page numbers just mean that no two of the
      rounded-out ranges overlap. */
  lemma {:induction false} LowRangesApart(rs: seq<Range>)
    requires NoneEmpty(rs) && forall r: Range :: r in rs ==> r.Ok() && r.To() <= SPAN
    ensures Apart(AllPages(rs)) <==>
              forall i, j :: 0 <= i < j < |rs| ==> rs[i].To() <= rs[j].From() || rs[j].To() <= rs[i].From()
  {
    hide Pages, AlignDown, AlignUp, FlagsOk, Apart, AllPages;
    if rs != [] {
      var front, r := rs[..|rs| - 1], rs[|rs| - 1];
      LowRangesApart(front);
      OneMoreRange(rs);
      RangeBounds(r);
      PagesApartIff(r.From(), r.To(), r.flags);
      ApartConcat(AllPages(front), Pages(r.From(), r.To(), r.flags));
      SharedPages(front, r);
    } else {
      NoPagesApart();
    }
  }

  lemma OneMoreRange(rs: seq<Range>)
    requires rs != [] && forall r :: r in rs ==> r.Ok()
    ensures var r := rs[|rs| - 1]; r.To() <= LIMIT
    ensures var front, r := rs[..|rs| - 1], rs[|rs| - 1];
            AllPages(rs) == AllPages(front) + Pages(r.From(), r.To(), r.flags)
  {
    hide Pages, AlignDown, AlignUp, FlagsOk;
    assert rs[|rs| - 1] in rs;
    RangeBounds(rs[|rs| - 1]);
  }

  lemma NoPagesApart()
    ensures Apart(AllPages([]))
  {
  }

  /** A range shares no page number with others exactly when it overlaps none of them. */
  lemma {:induction false} SharedPages(rs: seq<Range>, r: Range)
    requires NoneEmpty(rs) && forall s: Range :: s in rs ==> s.Ok() && s.To() <= SPAN
    requires r.Ok() && r.From() < r.To() <= SPAN
    ensures (forall p, q :: p in AllPages(rs) && q in Pages(r.From(), r.To(), r.flags) ==>
               VpnOf(p.page) != VpnOf(q.page))
       <==> (forall i :: 0 <= i < |rs| ==> rs[i].To() <= r.From() || r.To() <= rs[i].From())
  {
    hide Pages, AlignDown, AlignUp, FlagsOk, AllPages, VpnOf;
    if rs != [] {
      var front, s := rs[..|rs| - 1], rs[|rs| - 1];
      SharedPages(front, r);
      OneMoreRange(rs);
      SharedByTwo(s, r);
    } else {
      NoRanges();
    }
  }

  lemma NoRanges()
    ensures AllPages([]) == []
  {
  }

  lemma SharedByTwo(s: Range, r: Range)
    requires s.Ok() && r.Ok() && s.From() < s.To() <= SPAN && r.From() < r.To() <= SPAN
    ensures (forall p, q :: p in Pages(s.From(), s.To(), s.flags) && q in Pages(r.From(), r.To(), r.flags) ==>
               VpnOf(p.page) != VpnOf(q.page))
       <==> s.To() <= r.From() || r.To() <= s.From()
  {
    hide Pages, AlignDown, AlignUp, FlagsOk, VpnOf, Aligned;
    RangeBounds(s);
    RangeBounds(r);
    var ps, qs := Pages(s.From(), s.To(), s.flags), Pages(r.From(), r.To(), r.flags);
    if s.To() <= r.From() || r.To() <= s.From() {
      forall p, q | p in ps && q in qs
        ensures VpnOf(p.page) != VpnOf(q.page)
      {
        PagesAre(s.From(), s.To(), s.flags, p);
        PagesAre(r.From(), r.To(), r.flags, q);
        LowPages(p.page, q.page);
      }
    } else {
      var both: u64 := if s.From() < r.From() then r.From() else s.From();
      PagesAre(s.From(), s.To(), s.flags, Request(both, s.flags));
      PagesAre(r.From(), r.To(), r.flags, Request(both, r.flags));
    }
  }

  // --- kinit ---------------------------------------------------------------------------------

  /** Page i of a walk that starts at any address. */
  function PageFrom(start: nat, i: nat): nat {
    start + PAGE * i
  }

  /** Every page of a walk from `start` up to `end` translates to itself. */
  ghost predicate AllSelf(dict: Dict, start: nat, end: nat)
    requires end <= LIMIT
  {
    forall i: nat :: PageFrom(start, i) < end ==> Translate(dict, PageFrom(start, i)) == Some(PageFrom(start, i))
  }

  /** The identity assertions of kinit for one range: every page from its start on translates to itself. */
  method CheckRange(pt: PageTables, r: Range) returns (ok: bool)
    requires pt.Valid() && r.Ok()
    ensures ok <==> AllSelf(pt.dict, r.start, r.end)
  {
    hide PageTables.Valid, VpnOf, FlagsOk, Answer, Translate;
    var va := r.start;
    ghost var n: nat := 0;
    while va < r.end
      invariant va == PageFrom(r.start, n)
      invariant forall i: nat :: i < n ==> PageFrom(r.start, i) < r.end
      invariant forall i: nat :: i < n ==> Translate(pt.dict, PageFrom(r.start, i)) == Some(PageFrom(r.start, i))
      decreases r.end - va
    {
      var pa := pt.VirtToPhys(va);
      if pa != Some(va) {
        return false;
      }
      va := va + PAGE;
      n := n + 1;
    }
    WalkEnds(r.start, r.end, n);
    return true;
  }

  lemma WalkEnds(start: nat, end: nat, n: nat)
    requires PageFrom(start, n) >= end
    ensures forall i: nat :: PageFrom(start, i) < end ==> i < n
  {
  }

  /** For a range that is mapped to itself the assertions hold exactly if it starts on a page, or is empty. */
  lemma AllSelfIff(dict: Dict, r: Range)
    requires r.Ok() && Identity(dict, r)
    ensures AllSelf(dict, r.start, r.end) <==> Aligned(r.start) || r.start >= r.end
  {
    hide VpnOf, FlagsOk, Answer, AlignDown, AlignUp, Identity, Translate;
    RangeBounds(r);
    if r.start < r.end {
      assert PageFrom(r.start, 0) == r.start;
      ByteOfPage(dict, r, r.start);
      OffsetInPage(r.start);
      forall i: nat | PageFrom(r.start, i) < r.end
        ensures Translate(dict, PageFrom(r.start, i)) == Some(PageFrom(r.start, i) - r.start % PAGE)
      {
        ByteOfPage(dict, r, PageFrom(r.start, i));
        SameOffset(r.start, i);
      }
    } else {
      assert forall i: nat :: PageFrom(r.start, i) >= r.end;
    }
  }

  lemma OffsetInPage(x: nat)
    ensures Aligned(x) <==> x % PAGE == 0
  {
  }

  lemma SameOffset(start: nat, i: nat)
    ensures PageFrom(start, i) % PAGE == start % PAGE
  {
  }

  datatype BootOutcome = MappingStopped | CheckFailed | Booted

  /** A part of the kernel image, from the linker script. */
  datatype Section = Section(start: u64, end: u64) {
    predicate Ok() {
      end <= LIMIT
    }

    /** It starts on a page, as the linker script sees to, or is empty. */
    predicate OnPage() {
      Aligned(start) || start >= end
    }
  }

  /** What kinit maps: the sections of the kernel image and the page of the UART. */
  function KernelRanges(
    text: Section, rodata: Section, data: Section, bss: Section, stack: Section, uart: u64): (rs: seq<Range>)
    requires uart + PAGE <= LIMIT
    ensures |rs| == 6
  {
    [Range(text.start, text.end, Or(READ, EXECUTE)), Range(rodata.start, rodata.end, READ),
     Range(data.start, data.end, Or(READ, WRITE)), Range(bss.start, bss.end, Or(READ, WRITE)),
     Range(stack.start, stack.end, Or(READ, WRITE)), Range(uart, uart + PAGE, Or(READ, WRITE))]
  }

  ghost predicate RangesOk(rs: seq<Range>) {
    forall r: Range :: r in rs ==> r.Ok()
  }

  lemma KernelFlags(read: nat, write: nat, execute: nat)
    requires read == READ && write == WRITE && execute == EXECUTE
    ensures Or(read, execute) == 10 && Or(read, write) == 6
  {
    OrDouble(1, 4);
    OrDouble(0, 2);
    OrDouble(1, 2);
    OrDouble(0, 1);
  }

  lemma OrDouble(x: nat, y: nat)
    ensures Or(2 * x, 2 * y) == 2 * Or(x, y)
  {
  }

  /** Text is readable and executable, read-only data readable, and everything else readable and writable. */
  lemma KernelRangesAre(text: Section, rodata: Section, data: Section, bss: Section, stack: Section, uart: u64)
    requires text.Ok() && rodata.Ok() && data.Ok() && bss.Ok() && stack.Ok() && uart + PAGE <= LIMIT
    ensures KernelRanges(text, rodata, data, bss, stack, uart)
         == [Range(text.start, text.end, 10), Range(rodata.start, rodata.end, 2), Range(data.start, data.end, 6),
             Range(bss.start, bss.end, 6), Range(stack.start, stack.end, 6), Range(uart, uart + PAGE, 6)]
    ensures RangesOk(KernelRanges(text, rodata, data, bss, stack, uart))
  {
    hide Or;
    KernelFlags(READ, WRITE, EXECUTE);
  }

  /** An address from `start` up to `end`, both rounded out, at the start of a page. */
  predicate PageOfSection(p: u64, start: u64, end: u64) {
    Aligned(p) && AlignDown(start, PAGE) <= p < AlignUp(end, PAGE)
  }

  /** Every page from `start` to `end` is mapped to itself with these flags. */
  ghost predicate MappedAs(dict: Dict, start: u64, end: u64, flags: nat) {
    forall p: u64 :: PageOfSection(p, start, end) ==> VpnOf(p) in dict && dict[VpnOf(p)] == Mapping(p, flags)
  }

  /** A page of the kernel image or of the UART. */
  predicate KernelPage(
    p: u64, text: Section, rodata: Section, data: Section, bss: Section, stack: Section, uart: u64)
    requires uart + PAGE <= LIMIT
  {
    || PageOfSection(p, text.start, text.end) || PageOfSection(p, rodata.start, rodata.end)
    || PageOfSection(p, data.start, data.end) || PageOfSection(p, bss.start, bss.end)
    || PageOfSection(p, stack.start, stack.end) || PageOfSection(p, uart, uart + PAGE)
  }

  /** What the booted kernel has mapped: its image and the UART with their flags, and nothing else that was not
      mapped before. */
  ghost predicate KernelMapped(
    before: Dict, dict: Dict, text: Section, rodata: Section, data: Section, bss: Section, stack: Section, uart: u64)
    requires uart + PAGE <= LIMIT
  {
    && MappedAs(dict, text.start, text.end, 10)
    && MappedAs(dict, rodata.start, rodata.end, 2)
    && MappedAs(dict, data.start, data.end, 6)
    && MappedAs(dict, bss.start, bss.end, 6)
    && MappedAs(dict, stack.start, stack.end, 6)
    && MappedAs(dict, uart, uart + PAGE, 6)
    && (forall v :: v in dict && v !in before ==>
          exists p: u64 :: VpnOf(p) == v && KernelPage(p, text, rodata, data, bss, stack, uart))
  }

  lemma RangeMappedAs(dict: Dict, r: Range)
    requires r.Ok() && Identity(dict, r)
    ensures MappedAs(dict, r.start, r.end, r.flags)
  {
    hide VpnOf, AlignDown, AlignUp, FlagsOk;
    forall p: u64 | PageOfSection(p, r.start, r.end)
      ensures VpnOf(p) in dict && dict[VpnOf(p)] == Mapping(p, r.flags)
    {
      assert PageIn(p, r.From(), r.To());
    }
  }

  /** The pages of a list of ranges. */
  lemma {:induction false} AllPagesIn(rs: seq<Range>, q: Request)
    requires RangesOk(rs) && q in AllPages(rs)
    ensures exists r :: r in rs && PageOfSection(q.page, r.start, r.end)
  {
    hide Pages, AlignDown, AlignUp, FlagsOk, AllPages, Aligned;
    if rs != [] {
      var front, r := rs[..|rs| - 1], rs[|rs| - 1];
      assert r in rs;
      OneMoreRange(rs);
      RangeBounds(r);
      if q in AllPages(front) {
        AllPagesIn(front, q);
      } else {
        PagesAre(r.From(), r.To(), r.flags, q);
        assert r in rs && PageOfSection(q.page, r.start, r.end);
      }
    } else {
      NoRanges();
    }
  }

  lemma IsKernelMapped(
    k: Kernel, k': Kernel, text: Section, rodata: Section, data: Section, bss: Section, stack: Section, uart: u64)
    requires text.Ok() && rodata.Ok() && data.Ok() && bss.Ok() && stack.Ok() && uart + PAGE <= LIMIT
    requires var rs := KernelRanges(text, rodata, data, bss, stack, uart);
             && RangesOk(rs) && (forall r :: r in rs ==> Identity(k'.dict, r))
             && MapList(k, AllPages(rs)) == (k', true)
    ensures KernelMapped(k.dict, k'.dict, text, rodata, data, bss, stack, uart)
  {
    hide VpnOf, Identity, MapList, AllPages, PageOfSection, Range.Ok, KernelRanges, MappedAs;
    KernelRangesAre(text, rodata, data, bss, stack, uart);
    var rs := KernelRanges(text, rodata, data, bss, stack, uart);
    assert rs[0] in rs && rs[1] in rs && rs[2] in rs && rs[3] in rs && rs[4] in rs && rs[5] in rs;
    RangeMappedAs(k'.dict, rs[0]);
    RangeMappedAs(k'.dict, rs[1]);
    RangeMappedAs(k'.dict, rs[2]);
    RangeMappedAs(k'.dict, rs[3]);
    RangeMappedAs(k'.dict, rs[4]);
    RangeMappedAs(k'.dict, rs[5]);
    forall v | v in k'.dict && v !in k.dict
      ensures exists p: u64 :: VpnOf(p) == v && KernelPage(p, text, rodata, data, bss, stack, uart)
    {
      MapListOnly(k, AllPages(rs), v);
      var q :| q in AllPages(rs) && VpnOf(q.page) == v;
      AllPagesIn(rs, q);
      assert KernelPage(q.page, text, rodata, data, bss, stack, uart);
    }
  }

  /** The part of kinit that maps the kernel image and the UART to themselves and asserts that it did. It gets past
      the mapping exactly when the six ranges can be mapped, and past the assertions exactly when every section
      starts on a page. */
  method MapKernel(
    pt: PageTables, text: Section, rodata: Section, data: Section, bss: Section, stack: Section, uart: u64)
    returns (out: BootOutcome)
    requires pt.Valid()
    requires text.Ok() && rodata.Ok() && data.Ok() && bss.Ok() && stack.Ok() && uart + PAGE <= LIMIT
    modifies pt, pt.pmm, pt.pmm.slab, pt.pmm.regions, pt.mem.frames.Values
    ensures pt.Valid() && RangesOk(KernelRanges(text, rodata, data, bss, stack, uart))
    ensures var rs := KernelRanges(text, rodata, data, bss, stack, uart);
            && (out == MappingStopped <==> !(NoneEmpty(rs) && CanMap(old(pt.State()), AllPages(rs))))
            && pt.State() == BootSteps(old(pt.State()), rs).0
    ensures out != MappingStopped ==>
              && KernelMapped(old(pt.dict), pt.dict, text, rodata, data, bss, stack, uart)
              && (out == Booted <==> text.OnPage() && rodata.OnPage() && data.OnPage() && bss.OnPage()
                                     && stack.OnPage() && Aligned(uart))
  {
    hide PageTables.Valid, Identity, IdMapStep, KInv, BootSteps, CanMap, NoneEmpty, AllPages, KernelRanges,
         KernelMapped, Range.Ok, Aligned, MapList, MappedSoFar;
    KernelRangesAre(text, rodata, data, bss, stack, uart);
    var rs := KernelRanges(text, rodata, data, bss, stack, uart);
    ghost var k := pt.State();
    InvOf(pt);
    BootStepsIff(k, pt.root, pt.nodes, rs);
    MappedNothing(k, rs);
    var ok := MapOne(pt, rs, 0, k);
    if !ok { return MappingStopped; }
    ok := MapOne(pt, rs, 1, k);
    if !ok { return MappingStopped; }
    ok := MapOne(pt, rs, 2, k);
    if !ok { return MappingStopped; }
    ok := MapOne(pt, rs, 3, k);
    if !ok { return MappingStopped; }
    ok := MapOne(pt, rs, 4, k);
    if !ok { return MappingStopped; }
    ok := MapOne(pt, rs, 5, k);
    if !ok { return MappingStopped; }
    MappedAll(k, rs, pt.State());
    IsKernelMapped(k, pt.State(), text, rodata, data, bss, stack, uart);
    ok := CheckKernel(pt, rs);
    return if ok then Booted else CheckFailed;
  }

  lemma MappedNothing(k: Kernel, rs: seq<Range>)
    requires RangesOk(rs)
    ensures MappedSoFar(k, rs, 0, k)
  {
    hide Range.Ok;
    FirstSteps(k, rs, 0);
  }

  lemma MappedAll(k: Kernel, rs: seq<Range>, now: Kernel)
    requires RangesOk(rs) && MappedSoFar(k, rs, |rs|, now)
    ensures BootSteps(k, rs) == (now, true) && MapList(k, AllPages(rs)) == (now, true)
    ensures forall r :: r in rs ==> Identity(now.dict, r)
  {
    hide Range.Ok, MapList, BootSteps, AllPages, Identity;
    assert rs[..|rs|] == rs;
    BootIsList(k, rs);
  }

  /** The six loops of identity assertions. */
  method CheckKernel(pt: PageTables, rs: seq<Range>) returns (ok: bool)
    requires pt.Valid() && RangesOk(rs) && |rs| == 6 && forall r :: r in rs ==> Identity(pt.dict, r)
    ensures ok <==> forall r: Range :: r in rs ==> Aligned(r.start) || r.start >= r.end
  {
    hide PageTables.Valid, Identity, FlagsOk, Aligned, AllSelf;
    forall r | r in rs
      ensures AllSelf(pt.dict, r.start, r.end) <==> Aligned(r.start) || r.start >= r.end
    {
      AllSelfIff(pt.dict, r);
    }
    assert rs[0] in rs && rs[1] in rs && rs[2] in rs && rs[3] in rs && rs[4] in rs && rs[5] in rs;
    ok := CheckRange(pt, rs[0]);
    if !ok { return; }
    ok := CheckRange(pt, rs[1]);
    if !ok { return; }
    ok := CheckRange(pt, rs[2]);
    if !ok { return; }
    ok := CheckRange(pt, rs[3]);
    if !ok { return; }
    ok := CheckRange(pt, rs[4]);
    if !ok { return; }
    ok := CheckRange(pt, rs[5]);
  }

  /** The first n ranges are mapped, and nothing failed. */
  ghost predicate MappedSoFar(k: Kernel, rs: seq<Range>, n: nat, now: Kernel)
    requires RangesOk(rs) && n <= |rs|
  {
    (now, true) == BootSteps(k, rs[..n]) && forall r :: r in rs[..n] ==> Identity(now.dict, r)
  }

  /** One more range; those mapped before stay identity ranges. */
  method MapOne(pt: PageTables, rs: seq<Range>, n: nat, ghost k: Kernel) returns (ok: bool)
    requires pt.Valid() && RangesOk(rs) && n < |rs| && MappedSoFar(k, rs, n, pt.State())
    modifies pt, pt.pmm, pt.pmm.slab, pt.pmm.regions, pt.mem.frames.Values
    ensures pt.Valid()
    ensures ok ==> MappedSoFar(k, rs, n + 1, pt.State())
    ensures !ok ==> (pt.State(), false) == BootSteps(k, rs)
  {
    hide PageTables.Valid, Identity, IdMapStep, Range.Ok, KInv, BootSteps, CanIdMap;
    ghost var before := pt.State();
    assert rs[n] in rs;
    InvOf(pt);
    FirstSteps(k, rs, n);
    ok := IdMapRange(pt, rs[n]);
    if ok {
      StillMapped(k, pt.root, pt.nodes, rs, n, before);
    } else {
      StepsFail(k, rs, n + 1);
    }
  }

  lemma StillMapped(k: Kernel, root: nat, nodes: nat, rs: seq<Range>, n: nat, now: Kernel)
    requires RangesOk(rs) && n < |rs| && KInv(now, root, nodes) && MappedSoFar(k, rs, n, now)
    requires rs[n].Ok() && IdMapStep(now, rs[n]).1
    ensures MappedSoFar(k, rs, n + 1, IdMapStep(now, rs[n]).0)
  {
    hide Identity, IdMapStep, Range.Ok, KInv, BootSteps, CanIdMap;
    FirstSteps(k, rs, n);
    IdMapMeaning(now, root, nodes, rs[n]);
    forall r | r in rs[..n + 1]
      ensures Identity(IdMapStep(now, rs[n]).0.dict, r)
    {
      if r != rs[n] {
        assert r in rs[..n];
        IdentityKept(now, root, nodes, r, rs[n]);
      }
    }
  }

  lemma FirstSteps(k: Kernel, rs: seq<Range>, n: nat)
    requires RangesOk(rs) && n <= |rs|
    ensures rs[..0] == [] && BootSteps(k, []) == (k, true)
    ensures n < |rs| && BootSteps(k, rs[..n]).1 ==>
              BootSteps(k, rs[..n + 1]) == IdMapStep(BootSteps(k, rs[..n]).0, rs[n])
  {
    hide IdMapStep, FlagsOk;
    if n < |rs| {
      assert rs[..n + 1][..n] == rs[..n];
    }
  }

  /** Behind a failure nothing more happens. */
  lemma {:induction false} StepsFail(k: Kernel, rs: seq<Range>, n: nat)
    requires RangesOk(rs) && n <= |rs| && !BootSteps(k, rs[..n]).1
    ensures BootSteps(k, rs) == BootSteps(k, rs[..n])
    decreases |rs|
  {
    hide IdMapStep, FlagsOk;
    if n < |rs| {
      var front := rs[..|rs| - 1];
      assert front[..n] == rs[..n];
      StepsFail(k, front, n);
    } else {
      assert rs[..n] == rs;
    }
  }

  lemma InvOf(pt: PageTables)
    requires pt.Valid()
    ensures KInv(pt.State(), pt.root, pt.nodes)
  {
  }

  // --- the device tree blob ------------------------------------------------------------------

  datatype BlobOutcome = BlobReady | BlobMagic | BlobMappingFailed

  const MAGIC: nat := 0xD00D_FEED

  lemma ReadIsOk()
    ensures FlagsOk(READ)
  {
  }

  lemma BlobBase(base: u64)
    requires base + PAGE <= LIMIT
    ensures var b := AlignDown(base, PAGE); Aligned(b) && b <= base < b + PAGE
  {
    hide AlignDown;
    PageIsPow2();
    AlignDownMeaning(base, PAGE);
  }

  ghost function BlobMapped(k: Kernel, base: u64, magic: nat, size: nat): (Kernel, BlobOutcome)
    requires base + size + PAGE <= LIMIT
  {
    BlobBase(base);
    var b := AlignDown(base, PAGE);
    var (k1, out) := MapStep(k, b, b, READ);
    if out != Mapped then (k1, BlobMappingFailed)
    else if magic != MAGIC then (k1, BlobMagic)
    else
      var (k2, ok) := MapPages(k1, b + PAGE, base + size, READ);
      (k2, if ok then BlobReady else BlobMappingFailed)
  }

  /** The magic number in the first bytes of a blob. */
  lemma MagicBytes(first: seq<byte>)
    requires |first| == 4
    ensures Big(first) == MAGIC <==> first == [0xD0, 0x0D, 0xFE, 0xED]
  {
    hide Big, BigBytes;
    var magic := [0xD0, 0x0D, 0xFE, 0xED];
    BigOf4(first);
    BigOf4(magic);
    BigRoundTrip(first);
    BigRoundTrip(magic);
  }

  /** dt_initialize maps the first page of the blob before it can read the magic number and the size, the first
      eight bytes of the header, and then the rest. */
  method MapBlob(pt: PageTables, base: u64, header: seq<byte>) returns (out: BlobOutcome)
    requires pt.Valid() && |header| >= 8 && base + Big(header[4..8]) + PAGE <= LIMIT
    modifies pt, pt.pmm, pt.pmm.slab, pt.pmm.regions, pt.mem.frames.Values
    ensures pt.Valid()
    ensures (pt.State(), out) == BlobMapped(old(pt.State()), base, Big(header[..4]), Big(header[4..8]))
    ensures out == BlobReady ==> header[..4] == [0xD0, 0x0D, 0xFE, 0xED]
    ensures out == BlobMagic ==> header[..4] != [0xD0, 0x0D, 0xFE, 0xED]
  {
    hide MapStep, FlagsOk, KInv, Pmm.Valid, Memory.Valid, Backed, Holds, AlignDown, Flip32, Little, Big;
    ReadIsOk();
    BlobBase(base);
    Flip32Load(header[..4]);
    Flip32Load(header[4..8]);
    MagicBytes(header[..4]);
    var alignedBase := AlignDown(base, PAGE);
    var mapped := pt.Map(pt.root, alignedBase, alignedBase, READ, Page);
    if mapped != Mapped {
      return BlobMappingFailed;
    }
    if Flip32(Little(header[..4])) != MAGIC {
      return BlobMagic;
    }
    var ok := MapLoop(pt, alignedBase + PAGE, base + Flip32(Little(header[4..8])), READ);
    return if ok then BlobReady else BlobMappingFailed;
  }

  /** The loop at the end of dt_initialize. */
  method UnmapBlob(pt: PageTables, base: u64, size: nat) returns (ok: bool)
    requires pt.Valid() && base + size + PAGE <= LIMIT
    modifies pt`dict, pt.mem.frames.Values
    ensures pt.Valid() && (pt.State(), ok) == UnmapPages(old(pt.State()), AlignDown(base, PAGE), base + size)
  {
    hide UnmapStep, KInv, Pmm.Valid, Memory.Valid, Backed, Holds, AlignDown;
    BlobBase(base);
    var pa := AlignDown(base, PAGE);
    while pa < base + size
      invariant pt.Valid() && AlignDown(base, PAGE) <= pa
      invariant UnmapPages(old(pt.State()), AlignDown(base, PAGE), base + size)
          == UnmapPages(pt.State(), pa, base + size)
      decreases base + size - pa
    {
      var out := pt.Unmap(pt.root, pa);
      if !out.Unmapped? {
        return false;
      }
      pa := pa + PAGE;
    }
    return true;
  }

  /** A blob without the magic number stays mapped with its first page. */
  lemma BlobMagicLeaves(k: Kernel, root: nat, nodes: nat, base: u64, magic: nat, size: nat)
    requires KInv(k, root, nodes) && base + size + PAGE <= LIMIT && BlobMapped(k, base, magic, size).1 == BlobMagic
    ensures var b, dict := AlignDown(base, PAGE), BlobMapped(k, base, magic, size).0.dict;
            && Translate(k.dict, b) == None && Translate(dict, b) == Some(b)
            && forall x: u64 :: VpnOf(x) != VpnOf(b) ==> Translate(dict, x) == Translate(k.dict, x)
  {
    hide KInv, MapStep, VpnOf, FlagsOk, AlignDown, MapPages, Answer, Aligned, Accounted;
    BlobBase(base);
    ReadIsOk();
    MapKeeps(k, root, nodes, AlignDown(base, PAGE), AlignDown(base, PAGE), READ);
    AnswerIdentity(AlignDown(base, PAGE));
  }

  /** What happens between mapping and unmapping: allocations, for the arena and the growing arrays. */
  predicate Allocates(ops: seq<KOp>) {
    forall i :: 0 <= i < |ops| ==> ops[i].PmmOp? && ops[i].op.Alloc?
  }

  lemma {:induction false} AllocatesKeeps(k: Kernel, root: nat, nodes: nat, ops: seq<KOp>)
    requires KInv(k, root, nodes) && Allocates(ops)
    ensures var k' := KRun(k, ops); KInv(k', root, nodes) && k'.dict == k.dict && k'.tables == k.tables
    decreases ops
  {
    hide KInv, PmmSpec.Step, MapStep, UnmapStep;
    if ops != [] {
      assert ops[0].PmmOp? && ops[0].op.Alloc?;
      assert forall i :: 0 <= i < |ops[1..]| ==> ops[1..][i] == ops[i + 1];
      KStepKeeps(k, root, nodes, ops[0]);
      AllocatesKeeps(KStep(k, ops[0]), root, nodes, ops[1..]);
    }
  }

  /** Unmapping the blob, after any allocations in between, succeeds and restores the map exactly when the blob
      reaches past the start of its first page: an empty blob on a page boundary leaves that page mapped. */
  lemma BlobRestoredIff(k: Kernel, root: nat, nodes: nat, base: u64, size: nat, ops: seq<KOp>)
    requires KInv(k, root, nodes) && base + size + PAGE <= LIMIT && Allocates(ops)
    requires BlobMapped(k, base, MAGIC, size).1 == BlobReady
    ensures var k1 := KRun(BlobMapped(k, base, MAGIC, size).0, ops);
            var (k2, ok) := UnmapPages(k1, AlignDown(base, PAGE), base + size);
            && ok && k2.tables == k1.tables && k2.w == k1.w
            && (k2.dict == k.dict <==> base + size > AlignDown(base, PAGE))
  {
    hide KInv, MapStep, VpnOf, FlagsOk, AlignDown, Aligned, MapPages, MapsRange, KRun, Accounted;
    BlobBase(base);
    ReadIsOk();
    var b := AlignDown(base, PAGE);
    var k0 := BlobMapped(k, base, MAGIC, size).0;
    if base + size > b {
      var end := if base + size > b + PAGE then base + size else b + PAGE;
      SamePages(k, base, size);
      MapPagesMeaning(k, root, nodes, b, end, READ);
      AllocatesKeeps(k0, root, nodes, ops);
      UnmapPagesMeaning(KRun(k0, ops), root, nodes, b, end, k.dict, READ);
      SameUnmaps(KRun(k0, ops), b, base + size, end);
    } else {
      MapKeeps(k, root, nodes, b, b, READ);
      NoMore(MapStep(k, b, b, READ).0, b + PAGE, base + size);
      AllocatesKeeps(k0, root, nodes, ops);
    }
  }

  lemma NoMore(k: Kernel, from: nat, end: nat)
    requires from >= end && end <= LIMIT
    ensures MapPages(k, from, end, READ) == (k, true)
  {
  }

  lemma SamePages(k: Kernel, base: u64, size: nat)
    requires base + size + PAGE <= LIMIT
    ensures AlignDown(base, PAGE) + PAGE <= LIMIT
    ensures var b := AlignDown(base, PAGE);
            var end := if base + size > b + PAGE then base + size else b + PAGE;
            var (k1, out) := BlobMapped(k, base, MAGIC, size);
            MapPages(k, b, end, READ) == (k1, out == BlobReady)
  {
    hide MapStep, AlignDown;
    BlobBase(base);
    var b := AlignDown(base, PAGE);
    NoMore(MapStep(k, b, b, READ).0, b + PAGE, b + PAGE);
    if base + size <= b + PAGE {
      NoMore(MapStep(k, b, b, READ).0, b + PAGE, base + size);
    }
  }

  lemma SameUnmaps(k: Kernel, b: nat, end: nat, end': nat)
    requires b < end <= end' <= LIMIT && (end' == end || end' == b + PAGE)
    ensures UnmapPages(k, b, end) == UnmapPages(k, b, end')
  {
    hide UnmapStep;
  }
}
