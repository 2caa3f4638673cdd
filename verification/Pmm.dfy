/** The physical memory manager (src/octiron/pmm.c): an array of regions with counters, each with a
    linked free list whose nodes live in slab blocks. Every method refines a step of PmmSpec.
  */
module PhysicalMemoryManager {
  import opened Words
  import opened Extents
  import opened PmmSpec
  import opened PhysicalMemory
  import opened NodeLists
  import Slabs

  /** struct pmmRegion */
  datatype Entry = Entry(base: nat, size: nat, free: nat, head: nat)

  const INITIAL_NODES: nat := 64
  const BLOCK_SIZE: nat := 24  // sizeof(struct pmmBlock)

  /** Entry, free list and abstract region i agree, and no node is on two lists. */
  ghost predicate Represents(slots: Slots, entries: seq<Entry>, lists: seq<seq<nat>>, view: seq<Region>) {
    && |entries| == |lists| == |view|
    && (forall i :: 0 <= i < |view| ==>
          && entries[i] == Entry(view[i].base, view[i].size, view[i].free, entries[i].head)
          && IsList(slots, entries[i].head, lists[i], view[i].blocks))
    && (forall i, j, p :: 0 <= i < |lists| && 0 <= j < |lists| && p in lists[i] && p in lists[j] ==> i == j)
  }

  /** Editing the list of region i, with nodes of its own and possibly one that no list has. */
  lemma EditRepresents(
    slots: Slots, slots': Slots, entries: seq<Entry>, lists: seq<seq<nat>>, view: seq<Region>,
    i: nat, head: nat, ptrs: seq<nat>, r: Region, x: nat)
    requires Represents(slots, entries, lists, view) && i < |view|
    requires IsList(slots', head, ptrs, r.blocks)
    requires forall p :: p in ptrs ==> p in lists[i] || p == x
    requires forall j :: 0 <= j < |lists| && j != i ==> x !in lists[j]
    requires forall p :: p in slots && p !in lists[i] && p != x ==> p in slots' && slots'[p] == slots[p]
    ensures Represents(slots', entries[i := Entry(r.base, r.size, r.free, head)], lists[i := ptrs], view[i := r])
  {
    hide IsList;
    forall j | 0 <= j < |lists| && j != i
      ensures IsList(slots', entries[j].head, lists[j], view[j].blocks)
    {
      ListFrame(slots, slots', entries[j].head, lists[j], view[j].blocks);
    }
  }

  lemma ListFrame(slots: Slots, slots': Slots, head: nat, ptrs: seq<nat>, blocks: seq<Extent>)
    requires IsList(slots, head, ptrs, blocks)
    requires forall p :: p in ptrs && p in slots ==> p in slots' && slots'[p] == slots[p]
    ensures IsList(slots', head, ptrs, blocks)
  {
    AreNodes(slots, head, ptrs, blocks);
    Frame(slots, slots', head, ptrs, blocks);
  }

  /** Appending a region with a one-node list. */
  lemma AppendRepresents(
    slots: Slots, slots': Slots, entries: seq<Entry>, lists: seq<seq<nat>>, view: seq<Region>, x: nat, r: Region)
    requires Represents(slots, entries, lists, view)
    requires x != 0 && x in slots && slots[x].Unused?
    requires r.blocks == [Extent(r.base, r.size)]
    requires slots' == slots[x := Slabs.InUse(PmmBlock(r.base, r.size, 0))]
    ensures Represents(slots', entries + [Entry(r.base, r.size, r.free, x)], lists + [[x]], view + [r])
  {
    forall j | 0 <= j < |lists|
      ensures IsList(slots', entries[j].head, lists[j], view[j].blocks) && x !in lists[j]
    {
      AreNodes(slots, entries[j].head, lists[j], view[j].blocks);
      ListFrame(slots, slots', entries[j].head, lists[j], view[j].blocks);
    }
    OneNode(slots', x, Extent(r.base, r.size));
    hide IsList;
  }

  lemma OneNode(slots: Slots, x: nat, e: Extent)
    requires x != 0 && x in slots && slots[x] == Slabs.InUse(PmmBlock(e.base, e.size, 0))
    ensures IsList(slots, x, [x], [e])
  {
    assert [x][1..] == [] && [e][1..] == [];
  }

  /** Walking over blocks that do not fit leaves the search to the rest of the list. */
  lemma {:induction false} TakeSkip(blocks: seq<Extent>, size: nat, alignment: u64, k: nat)
    requires alignment > 0 && k <= |blocks| && forall m :: 0 <= m < k ==> !Fits(blocks[m], size, alignment)
    ensures Take(blocks[k..], size, alignment).None? ==> Take(blocks, size, alignment).None?
    ensures Take(blocks[k..], size, alignment).Some? ==>
              Take(blocks, size, alignment) ==
              Some(Taken(Take(blocks[k..], size, alignment).value.addr,
                         blocks[..k] + Take(blocks[k..], size, alignment).value.rest))
  {
    hide Fits;
    if k > 0 {
      TakeSkip(blocks[1..], size, alignment, k - 1);
      assert blocks[1..][k - 1..] == blocks[k..];
      assert Take(blocks[k..], size, alignment).Some? ==>
        [blocks[0]] + (blocks[1..][..k - 1] + Take(blocks[k..], size, alignment).value.rest)
        == blocks[..k] + Take(blocks[k..], size, alignment).value.rest;
    } else {
      assert blocks[0..] == blocks;
      assert Take(blocks, size, alignment).Some? ==>
        blocks[..0] + Take(blocks, size, alignment).value.rest == Take(blocks, size, alignment).value.rest;
    }
  }

  lemma TakeAt(blocks: seq<Extent>, size: nat, alignment: u64, k: nat)
    requires alignment > 0 && k < |blocks| && forall m :: 0 <= m < k ==> !Fits(blocks[m], size, alignment)
    requires Fits(blocks[k], size, alignment)
    ensures var a := AlignUp(blocks[k].base, alignment);
            Take(blocks, size, alignment) == Some(Taken(a, blocks[..k] + Pieces(blocks[k], a, size) + blocks[k + 1..]))
  {
    hide AlignUp, Pieces;
    TakeSkip(blocks, size, alignment, k);
    var a := AlignUp(blocks[k].base, alignment);
    assert blocks[k..][1..] == blocks[k + 1..];
    assert blocks[..k] + (Pieces(blocks[k], a, size) + blocks[k + 1..])
        == blocks[..k] + Pieces(blocks[k], a, size) + blocks[k + 1..];
  }

  /** Every managed page has a frame. */
  ghost predicate Backed(pages: set<nat>, regions: seq<Region>) {
    forall p: nat :: Aligned(p) && ManagedCount(regions, p) > 0 ==> p in pages
  }

  /** Node k of a list, seen in memory. */
  lemma NodeAt(slots: Slots, head: nat, ptrs: seq<nat>, blocks: seq<Extent>, k: nat)
    requires IsList(slots, head, ptrs, blocks) && k < |ptrs|
    ensures |ptrs| == |blocks|
    ensures var p := ptrs[k];
            && p != 0 && p in slots && slots[p].InUse?
            && blocks[k] == Extent(slots[p].value.base, slots[p].value.size)
            && slots[p].value.next == (if k + 1 < |ptrs| then ptrs[k + 1] else 0)
    ensures forall i :: 0 <= i < |ptrs| && i != k ==> ptrs[i] != ptrs[k]
  {
    From(slots, head, ptrs, blocks, k);
  }

  lemma OnOneList(slots: Slots, entries: seq<Entry>, lists: seq<seq<nat>>, view: seq<Region>, i: nat, p: nat)
    requires Represents(slots, entries, lists, view) && i < |lists| && p in lists[i]
    ensures forall j :: 0 <= j < |lists| && j != i ==> p !in lists[j]
  {
  }

  /** Changing only the free counter of region i. */
  lemma RecountRepresents(slots: Slots, entries: seq<Entry>, lists: seq<seq<nat>>, view: seq<Region>, i: nat, free: nat)
    requires Represents(slots, entries, lists, view) && i < |view|
    ensures Represents(slots, entries[i := entries[i].(free := free)], lists, view[i := view[i].(free := free)])
  {
    hide IsList;
  }

  lemma ListEnds(slots: Slots, head: nat, ptrs: seq<nat>, blocks: seq<Extent>)
    requires IsList(slots, head, ptrs, blocks)
    ensures |ptrs| == |blocks|
    ensures head == (if ptrs == [] then 0 else ptrs[0]) && (head == 0 <==> ptrs == [])
  {
    AreNodes(slots, head, ptrs, blocks);
  }

  /** The 64-bit sums of the size test do not wrap, so the test is the one of the specification. */
  lemma FitsInWords(r: Region, k: nat, size: nat, alignment: u64)
    requires RegionOk(r) && k < |r.blocks| && size <= r.free && IsPow2(alignment) && LIMIT + alignment <= WORD
    ensures var e := r.blocks[k];
            && e.base < WORD
            && (Add(e.base, e.size) >= Add(AlignUp(e.base, alignment), size) <==> Fits(e, size, alignment))
  {
    hide Sorted;
    var e := r.blocks[k];
    SortedAt(r.blocks, r.base, r.End(), k);
    SortedCount(r.blocks, r.base, r.End(), 0);
    AlignmentFits(alignment);
    SumsInWords(e, size, alignment);
  }

  lemma SumsInWords(e: Extent, size: nat, alignment: u64)
    requires IsPow2(alignment) && alignment <= WORD / 2 && e.End() <= LIMIT && size <= LIMIT
    ensures Add(e.base, e.size) >= Add(AlignUp(e.base, alignment), size) <==> Fits(e, size, alignment)
  {
    hide AlignUp;
    AlignUpMeaning(e.base, alignment);
  }

  lemma FitsMeaning(e: Extent, size: nat, alignment: u64)
    requires alignment > 0 && Fits(e, size, alignment)
    ensures e.base <= AlignUp(e.base, alignment) && AlignUp(e.base, alignment) + size <= e.End()
  {
  }

  /** The pages handed out have frames, and the pages of the regions still have theirs. */
  lemma StillBacked(pages: set<nat>, s: State, requested: u64, alignment: u64)
    requires Sound(s) && Backed(pages, s.regions) && AllocStep(s, requested, alignment).1.Allocated?
    ensures Backed(pages, AllocStep(s, requested, alignment).0.regions)
    ensures var a := AllocStep(s, requested, alignment).1.addr;
            && Aligned(a)
            && forall p :: a <= p < a + AlignUp(requested, PAGE) && Aligned(p) ==> p in pages
  {
    hide AlignUp, Take, Sound, AllocStep, Aligned;
    var (s', out) := AllocStep(s, requested, alignment);
    AllocInside(s, requested, alignment);
    forall p: nat | Aligned(p) && ManagedCount(s'.regions, p) > 0
      ensures p in pages
    {
      AllocConserves(s, requested, alignment, p);
    }
  }

  /** What is handed out is aligned and lies in one region. */
  lemma AllocInside(s: State, requested: u64, alignment: u64)
    requires Sound(s) && AllocStep(s, requested, alignment).1.Allocated?
    ensures var a := AllocStep(s, requested, alignment).1.addr;
            && Aligned(a)
            && forall p: nat :: a <= p < a + AlignUp(requested, PAGE) ==> ManagedCount(s.regions, p) > 0
  {
    hide AlignUp, Take, AllocStep, Aligned, Sorted;
    var c := AllocTakes(s, requested, alignment);
    var r := s.regions[c.index];
    AlignmentFits(alignment);
    TakeIsWindow(r.blocks, AlignUp(requested, PAGE), alignment, r.base, r.End());
    WindowAligned(r.blocks, c.addr, AlignUp(requested, PAGE), alignment);
    forall p: nat | c.addr <= p < c.addr + AlignUp(requested, PAGE)
      ensures ManagedCount(s.regions, p) > 0
    {
      InRegion(s.regions, c.index, p);
    }
  }

  lemma WindowAligned(blocks: seq<Extent>, w: nat, size: nat, alignment: u64)
    requires IsPow2(alignment) && alignment >= PAGE && Window(blocks, w, size, alignment)
    ensures Aligned(w)
  {
    PageMultiple(alignment, w);
  }

  lemma NoneLive(slots: Slots, slots': Slots, p: nat)
    requires p in slots && slots[p].InUse? && p in slots' && slots'[p].InUse? && slots' == slots[p := slots'[p]]
    ensures forall q :: q in slots ==> (slots[q].InUse? <==> slots'[q].InUse?)
  {
  }

  /** A block that is not in use is on no list. */
  lemma NotANode(slots: Slots, entries: seq<Entry>, lists: seq<seq<nat>>, view: seq<Region>, x: nat)
    requires Represents(slots, entries, lists, view) && x in slots && slots[x].Unused?
    ensures forall j :: 0 <= j < |lists| ==> x !in lists[j]
  {
    forall j | 0 <= j < |lists|
      ensures x !in lists[j]
    {
      AreNodes(slots, entries[j].head, lists[j], view[j].blocks);
    }
  }

  lemma SplitList(
    slots: Slots, slots': Slots, head: nat, ptrs: seq<nat>, blocks: seq<Extent>, k: nat, x: nat, front: Extent,
    back: Extent)
    requires IsList(slots, head, ptrs, blocks) && k < |ptrs| && x != 0 && x !in ptrs
    requires ptrs[k] in slots && slots[ptrs[k]].InUse?
    requires slots' == slots[x := Slabs.InUse(PmmBlock(back.base, back.size, slots[ptrs[k]].value.next))]
                            [ptrs[k] := Slabs.InUse(PmmBlock(front.base, front.size, x))]
    ensures |blocks| == |ptrs|
    ensures IsList(slots', head, ptrs[..k + 1] + [x] + ptrs[k + 1..], blocks[..k] + [front, back] + blocks[k + 1..])
  {
    Split(slots, slots', head, ptrs, blocks, k, x, front, back);
  }

  lemma ShrinkList(slots: Slots, slots': Slots, head: nat, ptrs: seq<nat>, blocks: seq<Extent>, k: nat, e: Extent)
    requires IsList(slots, head, ptrs, blocks) && k < |ptrs|
    requires ptrs[k] in slots && slots[ptrs[k]].InUse?
    requires slots' == slots[ptrs[k] := Slabs.InUse(PmmBlock(e.base, e.size, slots[ptrs[k]].value.next))]
    ensures |blocks| == |ptrs|
    ensures IsList(slots', head, ptrs, blocks[..k] + [e] + blocks[k + 1..])
  {
    Shrink(slots, slots', head, ptrs, blocks, k, e);
  }

  lemma UnlinkList(slots: Slots, slots': Slots, head: nat, head': nat, ptrs: seq<nat>, blocks: seq<Extent>, k: nat)
    requires IsList(slots, head, ptrs, blocks) && k < |ptrs|
    requires ptrs[k] in slots && slots[ptrs[k]].InUse?
    requires var next := slots[ptrs[k]].value.next;
             if k == 0 then head' == next && Elsewhere(slots, slots', ptrs[0], ptrs[0])
             else
               && head' == head
               && Elsewhere(slots, slots', ptrs[k], ptrs[k - 1])
               && ptrs[k - 1] in slots' && ptrs[k - 1] in slots && slots[ptrs[k - 1]].InUse?
               && slots'[ptrs[k - 1]] == Slabs.InUse(slots[ptrs[k - 1]].value.(next := next))
    ensures |blocks| == |ptrs|
    ensures IsList(slots', head', ptrs[..k] + ptrs[k + 1..], blocks[..k] + blocks[k + 1..])
  {
    Unlink(slots, slots', head, head', ptrs, blocks, k);
  }

  lemma NothingRepresented(slots: Slots)
    ensures Represents(slots, [], [], [])
  {
  }

  lemma InitialCapacity()
    ensures Slabs.Capacity(INITIAL_NODES * BLOCK_SIZE + Slabs.HEADER_SIZE, BLOCK_SIZE) == INITIAL_NODES
  {
  }

  lemma EntryOf(slots: Slots, entries: seq<Entry>, lists: seq<seq<nat>>, view: seq<Region>, i: nat)
    requires Represents(slots, entries, lists, view) && i < |view|
    ensures |entries| == |view| == |lists|
    ensures entries[i] == Entry(view[i].base, view[i].size, view[i].free, entries[i].head)
    ensures IsList(slots, entries[i].head, lists[i], view[i].blocks)
  {
  }

  lemma NothingReaches(end: nat)
    ensures !Reaches([], end)
  {
  }

  lemma ReachesNext(view: seq<Region>, end: nat, i: nat)
    requires i < |view|
    ensures end <= Add(view[i].base, view[i].size) ==> Reaches(view, end)
    ensures !Reaches(view[..i], end) && end > Add(view[i].base, view[i].size) ==> !Reaches(view[..i + 1], end)
  {
  }

  class Pmm {
    const regions: array<Entry>
    const slab: Slabs.SlabAllocator<PmmBlock>
    var regionCount: nat
    var total: nat
    var free: nat
    var policy: Policy
    ghost var view: seq<Region>
    ghost var lists: seq<seq<nat>>
    ghost var taken: seq<Extent>   // every extent ever handed out

    constructor ()
      ensures fresh(regions) && fresh(slab) && regions.Length == MAX_REGIONS && slab.blank == PmmBlock(0, 0, 0)
    {
      regions := new Entry[MAX_REGIONS](_ => Entry(0, 0, 0, 0));
      slab := new Slabs.SlabAllocator(PmmBlock(0, 0, 0));
    }

    ghost predicate Valid()
      reads this, regions, slab
    {
      && slab.Valid() && slab.blank == PmmBlock(0, 0, 0)
      && regions.Length == MAX_REGIONS
      && regionCount == |view| <= MAX_REGIONS
      && Represents(slab.slots, regions[..regionCount], lists, view)
    }

    ghost function State(): State
      reads this, slab
    {
      PmmSpec.State(view, total, free, slab.free, policy)
    }

    ghost function World(): World
      reads this, slab
    {
      PmmSpec.World(State(), taken)
    }

    /** pmm_initialize. The initial slab buffer is part of the kernel image. */
    method Initialize(buffer: nat)
      requires buffer != 0 && slab.blank == PmmBlock(0, 0, 0) && regions.Length == MAX_REGIONS
      modifies this, slab
      ensures Valid() && World() == PmmSpec.World(Initial(INITIAL_NODES), [])
    {
      hide Slabs.SlabAllocator.Valid, Slabs.Capacity, Represents;
      slab.Init(BLOCK_SIZE);
      InitialCapacity();
      var err, added := slab.Grow(buffer, INITIAL_NODES * BLOCK_SIZE + Slabs.HEADER_SIZE);
      regionCount := 0;
      total := 0;
      free := 0;
      policy := FirstFit;
      view, lists, taken := [], [], [];
      NothingRepresented(slab.slots);
      assert regions[..0] == [];
    }

    /** The loop of pmm_add_region over the regions already managed. */
    method AlreadyReached(end: nat) returns (found: bool)
      requires Valid()
      ensures found == Reaches(view, end)
    {
      hide Represents, Reaches, Slabs.SlabAllocator.Valid;
      NothingReaches(end);
      assert view[..0] == [];
      for i := 0 to regionCount
        invariant !Reaches(view[..i], end)
      {
        EntryOf(slab.slots, regions[..regionCount], lists, view, i);
        assert regions[..regionCount][i] == regions[i];
        ReachesNext(view, end, i);
        if end <= Add(regions[i].base, regions[i].size) {
          return true;
        }
      }
      assert view[..regionCount] == view;
      return false;
    }

    /** pmm_add_region */
    method AddRegion(base: u64, size: u64) returns (out: AddOutcome)
      requires Valid()
      modifies this, slab, regions
      ensures Valid() && taken == old(taken)
      ensures (State(), out) == AddStep(old(State()), base, size)
    {
      hide Represents, Slabs.SlabAllocator.Valid, AlignUp, AlignDown, Add, Sub, Reaches;
      if base == 0 {
        return NullArgument;
      }
      var alignedBase := AlignUp(base, PAGE);
      var alignedSize := AlignDown(Sub(size, Sub(alignedBase, base)), PAGE);
      var fits := Add(alignedBase, alignedSize) <= Add(base, size);
      if !fits || !(alignedSize >= PAGE) {
        return TooSmall;
      }
      if regionCount >= MAX_REGIONS {
        return ListFull;
      }
      var managed := AlreadyReached(Add(alignedBase, alignedSize));
      if managed {
        return AlreadyManaged;
      }
      var x := slab.Alloc();
      if x == 0 {
        return SlabAllocFailed;
      }
      ghost var r := Region(alignedBase, alignedSize, alignedSize, [Extent(alignedBase, alignedSize)]);
      ghost var entries := regions[..regionCount];
      regions[regionCount] := Entry(alignedBase, alignedSize, alignedSize, x);
      slab.Write(x, PmmBlock(alignedBase, alignedSize, 0));
      AppendRepresents(old(slab.slots), slab.slots, entries, lists, view, x, r);
      lists := lists + [[x]];
      view := view + [r];
      regionCount := regionCount + 1;
      assert regions[..regionCount] == entries + [Entry(alignedBase, alignedSize, alignedSize, x)];
      total := Add(total, alignedSize);
      free := Add(free, alignedSize);
      return Added;
    }

    /** Everything CutBlock needs to know about the block it is at. */
    ghost predicate At(i: nat, k: nat, prev: nat, block: nat)
      reads this, regions, slab
    {
      && Valid() && i < regionCount && |lists[i]| == |view[i].blocks| && k < |lists[i]|
      && block == lists[i][k] && prev == (if k == 0 then 0 else lists[i][k - 1])
    }

    /** The block in the middle of which the request lies keeps its front; a new node takes the back. */
    method SplitBlock(i: nat, ghost k: nat, ghost prev: nat, block: nat, front: Extent, back: Extent)
      requires At(i, k, prev, block) && slab.free > 0
      requires front.base == view[i].blocks[k].base
      modifies this`view, this`lists, regions, slab
      ensures Valid() && slab.free == old(slab.free) - 1
      ensures view == old(view)[i := old(view[i]).(blocks :=
                old(view[i]).blocks[..k] + [front, back] + old(view[i]).blocks[k + 1..])]
    {
      hide Represents, IsList, Slabs.SlabAllocator.Valid;
      ghost var slots, entries := slab.slots, regions[..regionCount];
      EntryOf(slots, entries, lists, view, i);
      ghost var ptrs, blocks := lists[i], view[i].blocks;
      OnOneList(slots, entries, lists, view, i, block);
      NodeAt(slots, entries[i].head, ptrs, blocks, k);
      var v := slab.slots[block].value;
      slab.Write(block, v.(size := front.size));
      NoneLive(old(slab.slots), slab.slots, block);
      var extra := slab.Alloc();
      slab.Write(extra, PmmBlock(back.base, back.size, v.next));
      slab.Write(block, v.(size := front.size, next := extra));
      NotANode(slots, entries, lists, view, extra);
      ghost var split: Slots := slots[extra := Slabs.InUse(PmmBlock(back.base, back.size, v.next))];
      assert slab.slots == split[block := Slabs.InUse(PmmBlock(front.base, front.size, extra))];
      SplitList(slots, slab.slots, entries[i].head, ptrs, blocks, k, extra, front, back);
      ghost var ptrs' := ptrs[..k + 1] + [extra] + ptrs[k + 1..];
      ghost var r := view[i].(blocks := blocks[..k] + [front, back] + blocks[k + 1..]);
      EditRepresents(slots, slab.slots, entries, lists, view, i, entries[i].head, ptrs', r, extra);
      lists := lists[i := ptrs'];
      view := view[i := r];
      assert regions[..regionCount] == entries[i := Entry(r.base, r.size, r.free, entries[i].head)];
    }

    /** The block keeps a part at one of its ends. */
    method ShrinkBlock(i: nat, ghost k: nat, ghost prev: nat, block: nat, e: Extent)
      requires At(i, k, prev, block)
      modifies this`view, this`lists, regions, slab
      ensures Valid() && slab.free == old(slab.free)
      ensures view == old(view)[i := old(view[i]).(blocks :=
                old(view[i]).blocks[..k] + [e] + old(view[i]).blocks[k + 1..])]
    {
      hide Represents, IsList, Slabs.SlabAllocator.Valid;
      ghost var slots, entries := slab.slots, regions[..regionCount];
      EntryOf(slots, entries, lists, view, i);
      ghost var ptrs, blocks := lists[i], view[i].blocks;
      OnOneList(slots, entries, lists, view, i, block);
      NodeAt(slots, entries[i].head, ptrs, blocks, k);
      slab.Write(block, slab.slots[block].value.(base := e.base, size := e.size));
      ShrinkList(slots, slab.slots, entries[i].head, ptrs, blocks, k, e);
      ghost var r := view[i].(blocks := blocks[..k] + [e] + blocks[k + 1..]);
      EditRepresents(slots, slab.slots, entries, lists, view, i, entries[i].head, ptrs, r, block);
      lists := lists[i := ptrs];
      view := view[i := r];
      assert regions[..regionCount] == entries[i := Entry(r.base, r.size, r.free, entries[i].head)];
    }

    /** The block is used up: it leaves the list, and its node goes back to the slab. */
    method UnlinkBlock(i: nat, ghost k: nat, prev: nat, block: nat)
      requires At(i, k, prev, block)
      modifies this`view, this`lists, regions, slab
      ensures Valid() && slab.free == old(slab.free) + 1
      ensures view == old(view)[i := old(view[i]).(blocks :=
                old(view[i]).blocks[..k] + old(view[i]).blocks[k + 1..])]
    {
      hide Represents, IsList, Slabs.SlabAllocator.Valid;
      ghost var slots, entries := slab.slots, regions[..regionCount];
      EntryOf(slots, entries, lists, view, i);
      ghost var ptrs, blocks := lists[i], view[i].blocks;
      OnOneList(slots, entries, lists, view, i, block);
      NodeAt(slots, entries[i].head, ptrs, blocks, k);
      var next := slab.slots[block].value.next;
      if prev == 0 {
        assert k == 0 by {
          if k > 0 {
            NodeAt(slots, entries[i].head, ptrs, blocks, k - 1);
          }
        }
        regions[i] := regions[i].(head := next);
      } else {
        NodeAt(slots, entries[i].head, ptrs, blocks, k - 1);
        slab.Write(prev, slab.slots[prev].value.(next := next));
      }
      ghost var head := regions[i].head;
      var err := slab.Free(block);
      UnlinkList(slots, slab.slots, entries[i].head, head, ptrs, blocks, k);
      ghost var ptrs' := ptrs[..k] + ptrs[k + 1..];
      ghost var r := view[i].(blocks := blocks[..k] + blocks[k + 1..]);
      EditRepresents(slots, slab.slots, entries, lists, view, i, head, ptrs', r, block);
      lists := lists[i := ptrs'];
      view := view[i := r];
      assert regions[..regionCount] == entries[i := Entry(r.base, r.size, r.free, head)];
    }

    /** The four cases of pmm_alloc_aligned: split, trim at either end, or remove the block; then the counters. */
    method CutBlock(i: nat, ghost k: nat, prev: nat, block: nat, aligned: nat, size: nat)
      requires At(i, k, prev, block) && slab.free > 0
      requires view[i].blocks[k].base <= aligned && aligned + size <= view[i].blocks[k].End()
      requires size <= view[i].free && size <= free
      modifies this`view, this`lists, this`free, regions, slab
      ensures Valid() && free == old(free) - size
      ensures var r := old(view[i]);
              var rest := r.blocks[..k] + Pieces(r.blocks[k], aligned, size) + r.blocks[k + 1..];
              && view == old(view)[i := r.(free := r.free - size, blocks := rest)]
              && slab.free == NodesAfter(old(slab.free), r.blocks, rest)
    {
      hide Represents, IsList, Slabs.SlabAllocator.Valid;
      ghost var r := view[i];
      EntryOf(slab.slots, regions[..regionCount], lists, view, i);
      NodeAt(slab.slots, regions[i].head, lists[i], r.blocks, k);
      var v := slab.slots[block].value;
      var preceding := v.base != aligned;
      var postceding := v.base + v.size > aligned + size;
      ghost var pieces := Pieces(r.blocks[k], aligned, size);
      if preceding && postceding {
        SplitBlock(i, k, prev, block, Extent(v.base, aligned - v.base),
                   Extent(aligned + size, v.base + v.size - (aligned + size)));
      } else if preceding {
        ShrinkBlock(i, k, prev, block, Extent(v.base, aligned - v.base));
      } else if postceding {
        ShrinkBlock(i, k, prev, block, Extent(aligned + size, v.base + v.size - (aligned + size)));
      } else {
        UnlinkBlock(i, k, prev, block);
        assert r.blocks[..k] + [] + r.blocks[k + 1..] == r.blocks[..k] + r.blocks[k + 1..];
      }
      assert view[i].blocks == r.blocks[..k] + pieces + r.blocks[k + 1..];
      ghost var entries := regions[..regionCount];
      EntryOf(slab.slots, entries, lists, view, i);
      assert entries[i] == regions[i];
      regions[i] := regions[i].(free := regions[i].free - size);
      free := free - size;
      RecountRepresents(slab.slots, entries, lists, view, i, r.free - size);
      view := view[i := view[i].(free := r.free - size)];
      assert regions[..regionCount] == entries[i := entries[i].(free := r.free - size)];
    }

    /** The walk along the free list of region i, up to the first block with room. */
    method FindBlock(i: nat, size: nat, alignment: u64) returns (prev: nat, block: nat, aligned: nat, ghost k: nat)
      requires Valid() && i < regionCount && RegionOk(view[i]) && size <= view[i].free
      requires alignment > 0 && IsPow2(alignment)
      ensures block == 0 ==> Take(view[i].blocks, size, alignment).None?
      ensures block != 0 ==>
                && At(i, k, prev, block)
                && Fits(view[i].blocks[k], size, alignment)
                && aligned == AlignUp(view[i].blocks[k].base, alignment)
                && forall m :: 0 <= m < k ==> !Fits(view[i].blocks[m], size, alignment)
    {
      hide Represents, IsList, Slabs.SlabAllocator.Valid, Fits, AlignUp, RegionOk, IsPow2;
      AlignmentFits(alignment);
      EntryOf(slab.slots, regions[..regionCount], lists, view, i);
      ghost var blocks, ptrs := view[i].blocks, lists[i];
      ListEnds(slab.slots, regions[i].head, ptrs, blocks);
      block := regions[i].head;
      prev := 0;
      aligned := 0;
      k := 0;
      while block != 0
        invariant k <= |ptrs| == |blocks| && block == (if k < |ptrs| then ptrs[k] else 0)
        invariant block == 0 ==> k == |ptrs|
        invariant prev == (if k == 0 then 0 else ptrs[k - 1])
        invariant forall m :: 0 <= m < k ==> !Fits(blocks[m], size, alignment)
        decreases |ptrs| - k
      {
        NodeAt(slab.slots, regions[i].head, ptrs, blocks, k);
        var v := slab.slots[block].value;
        FitsInWords(view[i], k, size, alignment);
        aligned := AlignUp(v.base, alignment);
        if Add(v.base, v.size) >= Add(aligned, size) {
          return;
        }
        if k + 1 < |ptrs| {
          NodeAt(slab.slots, regions[i].head, ptrs, blocks, k + 1);
        }
        prev := block;
        block := v.next;
        k := k + 1;
      }
      TakeSkip(blocks, size, alignment, k);
      assert blocks[k..] == [];
    }

    /** The loop over the regions, passing over those whose counter is too small. */
    method Find(size: nat, alignment: u64)
      returns (i: nat, prev: nat, block: nat, aligned: nat, ghost k: nat)
      requires Valid() && Sound(State()) && alignment > 0 && IsPow2(alignment)
      ensures block == 0 ==> Search(view, size, alignment, 0).None?
      ensures block != 0 ==>
                && At(i, k, prev, block) && view[i].free >= size
                && Fits(view[i].blocks[k], size, alignment)
                && aligned == AlignUp(view[i].blocks[k].base, alignment)
                && var r := view[i];
                   var rest := r.blocks[..k] + Pieces(r.blocks[k], aligned, size) + r.blocks[k + 1..];
                   && Search(view, size, alignment, 0)
                      == Some(Choice(i, aligned, r.(free := r.free - size, blocks := rest)))
    {
      hide Represents, Slabs.SlabAllocator.Valid, Fits, AlignUp, RegionOk, IsPow2, Take, Pieces, At;
      i, prev, block, aligned, k := 0, 0, 0, 0, 0;
      while i < regionCount
        invariant i <= regionCount
        invariant Search(view, size, alignment, i) == Search(view, size, alignment, 0)
      {
        EntryOf(slab.slots, regions[..regionCount], lists, view, i);
        assert regions[..regionCount][i] == regions[i];
        if regions[i].free >= size {
          prev, block, aligned, k := FindBlock(i, size, alignment);
          if block != 0 {
            AtBlock(i, k, prev, block);
            TakeAt(view[i].blocks, size, alignment, k);
            return;
          }
        }
        i := i + 1;
      }
      block := 0;
    }

    lemma AtBlock(i: nat, k: nat, prev: nat, block: nat)
      requires At(i, k, prev, block)
      ensures i < |view| && k < |view[i].blocks|
    {
    }

    /** pmm_alloc_aligned up to its memset. */
    method Carve(requested: u64, alignment: u64) returns (out: AllocOutcome)
      requires Valid() && Sound(State())
      modifies this, slab, regions
      ensures Valid()
      ensures (State(), out) == AllocStep(old(State()), requested, alignment)
      ensures taken == Step(old(World()), Alloc(requested, alignment)).taken
    {
      hide Represents, Slabs.SlabAllocator.Valid, Fits, AlignUp, RegionOk, IsPow2, Take, Pieces, Sound;
      if alignment < PAGE || And(alignment, alignment - 1) != 0 {
        return BadAlignment;
      }
      var size := AlignUp(requested, PAGE);
      if free < size {
        return OutOfMemory;
      }
      if slab.free < SLAB_RESERVE {
        return Stuck;
      }
      if policy != FirstFit {
        return NotImplemented;
      }
      PowerOfTwoTest(alignment);
      var i, prev, block, aligned, k := Find(size, alignment);
      if block == 0 {
        return OutOfMemory;
      }
      FitsMeaning(view[i].blocks[k], size, alignment);
      CutBlock(i, k, prev, block, aligned, size);
      taken := taken + [Extent(aligned, size)];
      return Allocated(aligned);
    }

    /** pmm_alloc_aligned: a step of the specification that hands out zeroed memory. */
    method AllocAligned(requested: u64, alignment: u64, mem: Memory) returns (out: AllocOutcome)
      requires Valid() && Sound(State()) && mem.Valid() && Backed(mem.frames.Keys, view)
      modifies this, slab, regions, mem.frames.Values
      ensures Valid() && Sound(State()) && Backed(mem.frames.Keys, view)
      ensures (State(), out) == AllocStep(old(State()), requested, alignment)
      ensures World() == Step(old(World()), Alloc(requested, alignment))
      ensures mem.Snapshot() == if out.Allocated? then Zeroed(old(mem.Snapshot()), out.addr, AlignUp(requested, PAGE))
                                else old(mem.Snapshot())
    {
      hide Valid, Slabs.SlabAllocator.Valid, AlignUp, Memory.Valid, Zeroed, Sound, Backed, AllocStep;
      AllocSound(State(), requested, alignment);
      AllocRefused(State(), requested, alignment);
      ghost var s := State();
      out := Carve(requested, alignment);
      if out.Allocated? {
        RoundedAligned(requested);
        StillBacked(mem.frames.Keys, s, requested, alignment);
        mem.Zero(out.addr, AlignUp(requested, PAGE));
      }
    }

    /** pmm_alloc */
    method AllocPages(requested: u64, mem: Memory) returns (out: AllocOutcome)
      requires Valid() && Sound(State()) && mem.Valid() && Backed(mem.frames.Keys, view)
      modifies this, slab, regions, mem.frames.Values
      ensures Valid() && Sound(State()) && Backed(mem.frames.Keys, view)
      ensures (State(), out) == AllocStep(old(State()), requested, PAGE)
      ensures World() == Step(old(World()), Alloc(requested, PAGE))
      ensures mem.Snapshot() == if out.Allocated? then Zeroed(old(mem.Snapshot()), out.addr, AlignUp(requested, PAGE))
                                else old(mem.Snapshot())
    {
      out := AllocAligned(requested, PAGE, mem);
    }
  }
}
