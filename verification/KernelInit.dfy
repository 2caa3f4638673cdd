/** kinit up to its identity assertions (src/octiron/entry.c:86-140): the physical memory manager gets the early
    heap, and the kernel image and the UART are mapped out of it.
  */
module KernelInit {
  import opened Words
  import opened Extents
  import opened Ptes
  import opened Sv39Spec
  import opened PmmSpec
  import opened PagingSpec
  import opened MapLists
  import opened PhysicalMemory
  import opened PhysicalMemoryManager
  import opened Paging
  import opened Boot

  const HEAP_PAGES: nat := 128
  const HEAP_SIZE: u64 := 0x8_0000  // EARLY_HEAP_SIZE, 128 pages

  /** The manager with the early heap and nothing else. */
  function HeapOnly(heap: nat): State {
    State([Region(heap, HEAP_SIZE, HEAP_SIZE, [Extent(heap, HEAP_SIZE)])], HEAP_SIZE, HEAP_SIZE, 63, FirstFit)
  }

  lemma HeapAdded(heap: u64, size: u64)
    requires Aligned(heap) && heap != 0 && heap + size <= LIMIT && size == HEAP_SIZE
    ensures AddStep(Initial(64), heap, size) == (HeapOnly(heap), PmmSpec.Added)
    ensures Inv(World(HeapOnly(heap), []), 64)
  {
    hide Trimmed, Reaches, Inv;
    TrimsNothing(heap, size);
    HeapSums(heap, size);
    assert [] + [Region(heap, size, size, [Extent(heap, size)])] == [Region(heap, size, size, [Extent(heap, size)])];
    InitialInv(64);
    StepKeepsInv(World(Initial(64), []), AddRegion(heap, size), 64);
  }

  lemma HeapSums(heap: u64, size: u64)
    requires heap + size <= LIMIT && size == HEAP_SIZE
    ensures Add(0, size) == size && Add(heap, size) == heap + size && !Reaches([], heap + size)
  {
  }

  /** What the new tables rest on: nothing but the heap is managed, and its pages have frames. */
  lemma HeapBacked(heap: nat, root: nat, pages: set<nat>)
    requires forall p: nat :: Aligned(p) && heap <= p < heap + HEAP_SIZE ==> p in pages
    requires root + PAGE <= heap || heap + HEAP_SIZE <= root
    ensures Backed(pages, HeapOnly(heap).regions)
    ensures forall x: nat :: root <= x < root + PAGE ==> ManagedCount(HeapOnly(heap).regions, x) == 0
    ensures Nodes(HeapOnly(heap).regions) == 1
  {
    hide Aligned;
    forall x: nat
      ensures ManagedCount(HeapOnly(heap).regions, x) == if heap <= x < heap + HEAP_SIZE then 1 else 0
    {
    }
  }

  /** With nothing mapped and the whole heap free, pages can be mapped exactly when their page numbers differ
      and they go through no more tables than the heap has pages. */
  lemma HeapSuffices(k: Kernel, root: nat, reqs: seq<Request>)
    requires k.dict == map[] && k.tables == map[Root := root] && k.w.s.free == HEAP_SIZE && k.w.s.nodes == 63
    ensures CanMap(k, reqs) <==> Apart(reqs) && |Needs(reqs)| <= HEAP_PAGES
  {
    hide Apart, Needs, VpnOf;
    NoRoot(reqs);
    assert Lacking(k.tables, reqs) == Needs(reqs);
  }

  lemma {:induction false} NoRoot(reqs: seq<Request>)
    ensures Root !in Needs(reqs)
  {
    hide VpnOf;
    if reqs != [] {
      NoRoot(reqs[1..]);
    }
  }

  /** kinit from the initialisation of the physical memory manager to the last identity assertion. For sections
      that start on pages it gets through exactly when the rounded-out ranges are not empty, their pages have page
      numbers of their own (see LowRangesApart), and these go through at most 128 tables: a condition on the
      addresses of the kernel image alone. No assertion ever fails. */
  method Start(
    mem: Memory, pmm: Pmm, buffer: nat, heap: u64, root: nat,
    text: Section, rodata: Section, data: Section, bss: Section, stack: Section, uart: u64)
    returns (pt: PageTables, out: BootOutcome)
    requires mem.Valid() && pmm.slab.blank == NodeLists.PmmBlock(0, 0, 0) && pmm.regions.Length == MAX_REGIONS
    requires buffer != 0 && heap != 0 && Aligned(heap) && heap + HEAP_SIZE <= LIMIT
    requires forall p: nat :: Aligned(p) && heap <= p < heap + HEAP_SIZE ==> p in mem.frames
    requires FrameOk(root) && root != 0 && root in mem.frames && mem.Snapshot()[root] == Zeros()
    requires root + PAGE <= heap || heap + HEAP_SIZE <= root
    requires text.Ok() && rodata.Ok() && data.Ok() && bss.Ok() && stack.Ok() && uart + PAGE <= LIMIT
    modifies pmm, pmm.slab, pmm.regions, mem.frames.Values
    ensures pt.Valid() && RangesOk(KernelRanges(text, rodata, data, bss, stack, uart))
    ensures var rs := KernelRanges(text, rodata, data, bss, stack, uart);
            out == MappingStopped <==> !(NoneEmpty(rs) && Apart(AllPages(rs)) && |Needs(AllPages(rs))| <= HEAP_PAGES)
    ensures out != MappingStopped ==>
              && KernelMapped(map[], pt.dict, text, rodata, data, bss, stack, uart)
              && (out == Booted <==> text.OnPage() && rodata.OnPage() && data.OnPage() && bss.OnPage()
                                     && stack.OnPage() && Aligned(uart))
  {
    hide Pmm.Valid, Memory.Valid, PageTables.Valid, Inv, Backed, NoneEmpty, Apart, Needs, AllPages, KernelRanges,
         CanMap, Identity, BootSteps, KernelMapped, Section.OnPage, FrameOk, Zeros, Aligned, Section.Ok, Range.Ok,
         AddStep;
    pmm.Initialize(buffer);
    HeapAdded(heap, HEAP_SIZE);
    var added := pmm.AddRegion(heap, HEAP_SIZE);
    HeapBacked(heap, root, mem.frames.Keys);
    pt := new PageTables(mem, pmm, root);
    KernelRangesAre(text, rodata, data, bss, stack, uart);
    HeapSuffices(pt.State(), root, AllPages(KernelRanges(text, rodata, data, bss, stack, uart)));
    out := MapKernel(pt, text, rodata, data, bss, stack, uart);
  }
}
