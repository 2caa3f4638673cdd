/** The physical memory manager as a state machine (src/octiron/pmm.c), and what every run of it keeps. */
module PmmSpec {
  import opened Words
  import opened Extents

  const MAX_REGIONS: nat := 16   // PMM_REGION_COUNT
  const SLAB_RESERVE: nat := 16  // below this many free list nodes an allocation stops at a TODO

  datatype Region = Region(base: nat, size: nat, free: nat, blocks: seq<Extent>) {
    function End(): nat {
      base + size
    }
  }

  datatype Policy = FirstFit | BestFit | WorstFit

  /** `nodes` counts the list nodes the slab has left. */
  datatype State = State(regions: seq<Region>, total: nat, free: nat, nodes: nat, policy: Policy)

  /** The outcomes of pmm_alloc_aligned. `Stuck` is the endless loop behind TODO. */
  datatype AllocOutcome = Allocated(addr: nat) | BadAlignment | OutOfMemory | NotImplemented | Stuck

  datatype AddOutcome = Added | NullArgument | TooSmall | ListFull | AlreadyManaged | SlabAllocFailed

  function Initial(nodes: nat): State {
    State([], 0, 0, nodes, FirstFit)
  }

  // --- pmm_add_region ------------------------------------------------------------------------

  /** The page-aligned part of a region as the source computes it, wrapping at 64 bits. */
  function Trimmed(base: u64, size: u64): Extent {
    var b := AlignUp(base, PAGE);
    Extent(b, AlignDown(Sub(size, Sub(b, base)), PAGE))
  }

  /** The overlap test of the source: some region reaches as far up, by a sum that wraps at 64 bits. */
  predicate Reaches(regions: seq<Region>, end: nat) {
    exists i :: 0 <= i < |regions| && end <= Add(regions[i].base, regions[i].size)
  }

  function AddStep(s: State, base: u64, size: u64): (State, AddOutcome) {
    var e := Trimmed(base, size);
    if base == 0 then (s, NullArgument)
    else if Add(e.base, e.size) > Add(base, size) || e.size < PAGE then (s, TooSmall)
    else if |s.regions| >= MAX_REGIONS then (s, ListFull)
    else if Reaches(s.regions, Add(e.base, e.size)) then (s, AlreadyManaged)
    else if s.nodes == 0 then (s, SlabAllocFailed)
    else (State(s.regions + [Region(e.base, e.size, e.size, [e])], Add(s.total, e.size), Add(s.free, e.size),
                s.nodes - 1, s.policy), Added)
  }

  // --- pmm_alloc_aligned ---------------------------------------------------------------------

  /** First fit over the regions: which region was taken from, and what that region became. */
  datatype Choice = Choice(index: nat, addr: nat, region: Region)

  function Search(regions: seq<Region>, size: nat, alignment: u64, from: nat): (c: Option<Choice>)
    requires alignment > 0 && from <= |regions|
    ensures c.Some? ==> from <= c.value.index < |regions|
    decreases |regions| - from
  {
    if from == |regions| then None
    else
      var r := regions[from];
      var t := Take(r.blocks, size, alignment);
      if r.free < size || t.None? then Search(regions, size, alignment, from + 1)
      else Some(Choice(from, t.value.addr, r.(free := r.free - size, blocks := t.value.rest)))
  }

  function NodesAfter(nodes: nat, before: seq<Extent>, after: seq<Extent>): nat {
    if nodes + |before| >= |after| then nodes + |before| - |after| else 0
  }

  predicate GoodAlignment(alignment: u64) {
    alignment >= PAGE && And(alignment, alignment - 1) == 0
  }

  function AllocStep(s: State, requested: u64, alignment: u64): (State, AllocOutcome) {
    var size := AlignUp(requested, PAGE);
    if !GoodAlignment(alignment) then (s, BadAlignment)
    else if s.free < size then (s, OutOfMemory)
    else if s.nodes < SLAB_RESERVE then (s, Stuck)
    else if s.policy != FirstFit then (s, NotImplemented)
    else match Search(s.regions, size, alignment, 0)
      case None => (s, OutOfMemory)
      case Some(c) =>
        (State(s.regions[c.index := c.region], s.total, s.free - size,
               NodesAfter(s.nodes, s.regions[c.index].blocks, c.region.blocks), s.policy),
         Allocated(c.addr))
  }

  // --- invariants ----------------------------------------------------------------------------

  predicate RegionOk(r: Region) {
    && Aligned(r.base) && Aligned(r.size)
    && r.End() <= LIMIT
    && Sorted(r.blocks, r.base, r.End())
    && r.free == Sum(r.blocks)
  }

  function SumFree(regions: seq<Region>): nat {
    if regions == [] then 0 else regions[0].free + SumFree(regions[1..])
  }

  function SumSize(regions: seq<Region>): nat {
    if regions == [] then 0 else regions[0].size + SumSize(regions[1..])
  }

  function Nodes(regions: seq<Region>): nat {
    if regions == [] then 0 else |regions[0].blocks| + Nodes(regions[1..])
  }

  /** How many free blocks of all regions hold byte x. */
  function FreeCount(regions: seq<Region>, x: nat): nat {
    if regions == [] then 0 else Count(regions[0].blocks, x) + FreeCount(regions[1..], x)
  }

  /** How many regions hold byte x. */
  function ManagedCount(regions: seq<Region>, x: nat): nat {
    if regions == [] then 0
    else (if regions[0].base <= x < regions[0].End() then 1 else 0) + ManagedCount(regions[1..], x)
  }

  /** Lists are sorted, aligned and inside their region, and the three levels of counters agree. */
  ghost predicate Sound(s: State) {
    && |s.regions| <= MAX_REGIONS
    && (forall i :: 0 <= i < |s.regions| ==> RegionOk(s.regions[i]))
    && s.free == SumFree(s.regions)
    && s.total == SumSize(s.regions)
  }

  ghost predicate Disjoint(regions: seq<Region>) {
    forall i, j :: 0 <= i < j < |regions| ==> regions[i].End() <= regions[j].base || regions[j].End() <= regions[i].base
  }

  ghost predicate AllGapped(regions: seq<Region>) {
    forall i :: 0 <= i < |regions| ==> Gapped(regions[i].blocks)
  }

  /** Every byte of a region is in exactly as many free blocks and handed-out extents as in regions. */
  ghost predicate Partition(regions: seq<Region>, taken: seq<Extent>) {
    forall x: nat :: FreeCount(regions, x) + Count(taken, x) == ManagedCount(regions, x)
  }

  // --- sums over the regions -----------------------------------------------------------------

  lemma {:induction false} UpdateSums(regions: seq<Region>, i: nat, r: Region, x: nat)
    requires i < |regions| && r.size == regions[i].size && r.base == regions[i].base
    ensures SumFree(regions[i := r]) == SumFree(regions) - regions[i].free + r.free
    ensures SumSize(regions[i := r]) == SumSize(regions)
    ensures Nodes(regions[i := r]) == Nodes(regions) - |regions[i].blocks| + |r.blocks|
    ensures FreeCount(regions[i := r], x) == FreeCount(regions, x) - Count(regions[i].blocks, x) + Count(r.blocks, x)
    ensures ManagedCount(regions[i := r], x) == ManagedCount(regions, x)
    ensures regions[i].free <= SumFree(regions)
    ensures |regions[i].blocks| <= Nodes(regions)
    ensures Count(regions[i].blocks, x) <= FreeCount(regions, x)
  {
    if i == 0 {
      assert regions[0 := r][1..] == regions[1..];
    } else {
      assert regions[i := r][1..] == regions[1..][i - 1 := r];
      UpdateSums(regions[1..], i - 1, r, x);
    }
  }

  lemma {:induction false} AppendSums(regions: seq<Region>, r: Region, x: nat)
    ensures SumFree(regions + [r]) == SumFree(regions) + r.free
    ensures SumSize(regions + [r]) == SumSize(regions) + r.size
    ensures Nodes(regions + [r]) == Nodes(regions) + |r.blocks|
    ensures FreeCount(regions + [r], x) == FreeCount(regions, x) + Count(r.blocks, x)
    ensures ManagedCount(regions + [r], x) == ManagedCount(regions, x) + (if r.base <= x < r.End() then 1 else 0)
  {
    if regions == [] {
      assert regions + [r] == [r];
    } else {
      assert (regions + [r])[1..] == regions[1..] + [r];
      AppendSums(regions[1..], r, x);
    }
  }

  lemma {:induction false} InRegion(regions: seq<Region>, i: nat, x: nat)
    requires i < |regions| && regions[i].base <= x < regions[i].End()
    ensures ManagedCount(regions, x) > 0
  {
    if i > 0 {
      InRegion(regions[1..], i - 1, x);
    }
  }

  /** Disjoint regions share no byte. */
  lemma {:induction false} DisjointCount(regions: seq<Region>, x: nat)
    requires Disjoint(regions)
    ensures ManagedCount(regions, x) <= 1
    ensures ManagedCount(regions, x) == 1 ==> exists i :: 0 <= i < |regions| && regions[i].base <= x < regions[i].End()
  {
    if regions != [] {
      var tail := regions[1..];
      assert forall i :: 0 <= i < |tail| ==> tail[i] == regions[i + 1];
      DisjointCount(tail, x);
      if ManagedCount(tail, x) == 1 {
        var i :| 0 <= i < |tail| && tail[i].base <= x < tail[i].End();
        assert regions[i + 1].base <= x < regions[i + 1].End();
      }
    }
  }

  // --- one allocation ------------------------------------------------------------------------

  /** Where the search stops. */
  lemma {:induction false} SearchTakes(regions: seq<Region>, size: nat, alignment: u64, from: nat)
    requires alignment > 0 && from <= |regions|
    requires Search(regions, size, alignment, from).Some?
    ensures var c := Search(regions, size, alignment, from).value;
            var r := regions[c.index];
            var t := Take(r.blocks, size, alignment);
            && t.Some? && r.free >= size
            && c.addr == t.value.addr
            && c.region == r.(free := r.free - size, blocks := t.value.rest)
    decreases |regions| - from
  {
    if regions[from].free < size || Take(regions[from].blocks, size, alignment).None? {
      SearchTakes(regions, size, alignment, from + 1);
    }
  }

  /** The facts about a successful allocation that everything else uses: it cuts [a, a + size) out of
      the free bytes of one region. */
  lemma AllocTakes(s: State, requested: u64, alignment: u64) returns (c: Choice)
    requires Sound(s) && AllocStep(s, requested, alignment).1.Allocated?
    ensures c == Search(s.regions, AlignUp(requested, PAGE), alignment, 0).value
    ensures c.index < |s.regions| && c.addr == AllocStep(s, requested, alignment).1.addr
    ensures IsPow2(alignment) && alignment >= PAGE && s.nodes >= SLAB_RESERVE
    ensures var size, r := AlignUp(requested, PAGE), s.regions[c.index];
            && Aligned(size) && size <= r.free
            && Take(r.blocks, size, alignment) == Some(Taken(c.addr, c.region.blocks))
            && c.region == r.(free := r.free - size, blocks := c.region.blocks)
            && AllocStep(s, requested, alignment).0
               == State(s.regions[c.index := c.region], s.total, s.free - size,
                        NodesAfter(s.nodes, r.blocks, c.region.blocks), s.policy)
  {
    hide AlignUp, RegionOk, Take;
    PowerOfTwoTest(alignment);
    RoundedAligned(requested);
    var size := AlignUp(requested, PAGE);
    c := Search(s.regions, size, alignment, 0).value;
    SearchTakes(s.regions, size, alignment, 0);
  }

  lemma RoundedAligned(requested: u64)
    ensures Aligned(AlignUp(requested, PAGE))
  {
    hide And;
    PageIsPow2();
    MaskRounds(Add(requested, PAGE - 1), PAGE);
  }

  /** Rounding a request up covers it exactly when it does not carry out of 64 bits. */
  lemma RoundedCovers(requested: u64)
    ensures AlignUp(requested, PAGE) >= requested <==> requested <= WORD - PAGE
    ensures requested > WORD - PAGE ==> AlignUp(requested, PAGE) == 0
  {
    PageIsPow2();
    if requested <= WORD - PAGE {
      AlignUpMeaning(requested, PAGE);
    } else {
      MaskRounds(Add(requested, PAGE - 1), PAGE);
    }
  }

  /** One allocation keeps lists and counters in order, and conserves the list nodes. */
  lemma AllocSound(s: State, requested: u64, alignment: u64)
    requires Sound(s)
    ensures var s' := AllocStep(s, requested, alignment).0;
            && Sound(s')
            && s'.nodes + Nodes(s'.regions) == s.nodes + Nodes(s.regions)
            && (alignment == PAGE ==> s'.nodes >= s.nodes)
            && |s'.regions| == |s.regions|
            && forall i :: 0 <= i < |s.regions| ==>
                 s'.regions[i].base == s.regions[i].base && s'.regions[i].size == s.regions[i].size
  {
    hide AlignUp, Take, GoodAlignment, RegionOk;
    if AllocStep(s, requested, alignment).1.Allocated? {
      var c := AllocTakes(s, requested, alignment);
      var size, r := AlignUp(requested, PAGE), s.regions[c.index];
      RegionAfter(r, size, alignment);
      UpdateSums(s.regions, c.index, c.region, 0);
    }
  }

  lemma RegionAfter(r: Region, size: nat, alignment: u64)
    requires RegionOk(r) && IsPow2(alignment) && alignment >= PAGE && Aligned(size) && size <= r.free
    requires Take(r.blocks, size, alignment).Some?
    ensures var rest := Take(r.blocks, size, alignment).value.rest;
            && RegionOk(r.(free := r.free - size, blocks := rest))
            && |rest| <= |r.blocks| + 1
            && (alignment == PAGE ==> |rest| <= |r.blocks|)
  {
    hide Take, Sorted;
    AlignmentFits(alignment);
    TakeSorted(r.blocks, size, alignment, r.base, r.End());
    TakeConserves(r.blocks, size, alignment, 0);
    TakeLength(r.blocks, size, alignment);
    if alignment == PAGE {
      TakePageLength(r.blocks, size, r.base, r.End());
    }
  }

  /** Rounding an address below 2^56 to any 64-bit power of two stays below 2^64. */
  lemma AlignmentFits(alignment: u64)
    requires IsPow2(alignment)
    ensures alignment <= WORD / 2 && LIMIT + alignment <= WORD
  {
    var k := Exponent(alignment);
    Pow2Monotone(k, 63);
    Pow2Values();
    assert Pow2(64) == 2 * Pow2(63);
  }

  /** Conservation: the bytes handed out are the bytes that stop being free. */
  lemma AllocConserves(s: State, requested: u64, alignment: u64, x: nat)
    requires Sound(s) && AllocStep(s, requested, alignment).1.Allocated?
    ensures var (s', out) := AllocStep(s, requested, alignment);
            FreeCount(s'.regions, x) + Count([Extent(out.addr, AlignUp(requested, PAGE))], x) == FreeCount(s.regions, x)
    ensures ManagedCount(AllocStep(s, requested, alignment).0.regions, x) == ManagedCount(s.regions, x)
  {
    hide AlignUp, Take, GoodAlignment, RegionOk;
    var c := AllocTakes(s, requested, alignment);
    var size, r := AlignUp(requested, PAGE), s.regions[c.index];
    TakeConserves(r.blocks, size, alignment, x);
    UpdateSums(s.regions, c.index, c.region, x);
    assert [Extent(c.addr, size)][1..] == [];
  }

  // --- first fit over the regions ------------------------------------------------------------

  ghost predicate WindowIn(s: State, j: nat, w: nat, size: nat, alignment: u64)
    requires alignment > 0
  {
    j < |s.regions| && Window(s.regions[j].blocks, w, size, alignment)
  }

  /** Regions passed over have no window: neither the test of the region's counter nor the walk along
      its list loses one. */
  lemma {:induction false} SearchSkips(regions: seq<Region>, size: nat, alignment: u64, from: nat, j: nat, w: nat)
    requires IsPow2(alignment) && size > 0
    requires from <= j < |regions| && (forall i :: 0 <= i < |regions| ==> RegionOk(regions[i])) && AllGapped(regions)
    requires Window(regions[j].blocks, w, size, alignment)
    ensures var c := Search(regions, size, alignment, from);
            c.Some? && (c.value.index < j || (c.value.index == j && c.value.addr <= w))
    decreases |regions| - from
  {
    hide Take, Sorted, AlignUp, Window, Gapped;
    if from == j {
      WindowTaken(regions[j], size, alignment, w);
    } else if regions[from].free < size || Take(regions[from].blocks, size, alignment).None? {
      SearchSkips(regions, size, alignment, from + 1, j, w);
    }
  }

  lemma WindowTaken(r: Region, size: nat, alignment: u64, w: nat)
    requires IsPow2(alignment) && size > 0 && RegionOk(r) && Gapped(r.blocks)
    requires Window(r.blocks, w, size, alignment)
    ensures r.free >= size && Take(r.blocks, size, alignment).Some?
    ensures Take(r.blocks, size, alignment).value.addr <= w
  {
    hide Take, Sorted, AlignUp, Window, Gapped;
    AlignmentFits(alignment);
    TakeLeast(r.blocks, size, alignment, r.base, r.End(), w);
    TakeConserves(r.blocks, size, alignment, 0);
  }

  lemma ChoiceIsWindow(s: State, size: nat, alignment: u64)
    requires Sound(s) && IsPow2(alignment) && Search(s.regions, size, alignment, 0).Some?
    ensures var c := Search(s.regions, size, alignment, 0).value;
            WindowIn(s, c.index, c.addr, size, alignment)
    ensures size <= s.free
  {
    hide Take, Sorted, AlignUp, Window;
    var c := Search(s.regions, size, alignment, 0).value;
    SearchTakes(s.regions, size, alignment, 0);
    var r := s.regions[c.index];
    AlignmentFits(alignment);
    TakeIsWindow(r.blocks, size, alignment, r.base, r.End());
    UpdateSums(s.regions, c.index, r, 0);
  }

  /** A request that reaches the search: well aligned, not rounded to nothing, enough list nodes. */
  predicate Searches(s: State, requested: u64, alignment: u64) {
    && GoodAlignment(alignment)
    && AlignUp(requested, PAGE) > 0
    && s.nodes >= SLAB_RESERVE
    && s.policy == FirstFit
  }

  /** First fit is sound and complete: it reports OUT_OF_MEMORY exactly when no region has an aligned
      free window of the rounded size, and otherwise returns the least window by region and address. */
  lemma FirstFitLeast(s: State, requested: u64, alignment: u64)
    requires Sound(s) && AllGapped(s.regions) && Searches(s, requested, alignment)
    ensures var size, out := AlignUp(requested, PAGE), AllocStep(s, requested, alignment).1;
            && (out == OutOfMemory <==> forall j: nat, w: nat :: !WindowIn(s, j, w, size, alignment))
            && (out != OutOfMemory ==>
                  && out.Allocated?
                  && exists i: nat ::
                       && WindowIn(s, i, out.addr, size, alignment)
                       && forall j: nat, w: nat :: WindowIn(s, j, w, size, alignment) ==>
                            i < j || (i == j && out.addr <= w))
  {
    hide AlignUp, Window, RegionOk, Gapped;
    PowerOfTwoTest(alignment);
    var size := AlignUp(requested, PAGE);
    forall j: nat, w: nat | WindowIn(s, j, w, size, alignment)
      ensures var c := Search(s.regions, size, alignment, 0);
              c.Some? && (c.value.index < j || (c.value.index == j && c.value.addr <= w))
    {
      SearchSkips(s.regions, size, alignment, 0, j, w);
    }
    if Search(s.regions, size, alignment, 0).Some? {
      ChoiceIsWindow(s, size, alignment);
    }
  }

  /** Which request is refused with what before the search: see FirstFitBlocks for the others. */
  lemma AllocOutcomes(s: State, requested: u64, alignment: u64)
    requires Sound(s)
    ensures var size, out := AlignUp(requested, PAGE), AllocStep(s, requested, alignment).1;
            var good := IsPow2(alignment) && alignment >= 4096;
            && (out == BadAlignment <==> !good)
            && (good && s.free < size ==> out == OutOfMemory)
            && (out == Stuck <==> good && s.free >= size && s.nodes < 16)
            && (out == NotImplemented <==> good && s.free >= size && s.nodes >= 16 && s.policy != FirstFit)
  {
    hide AlignUp, Search;
    if alignment > 0 {
      PowerOfTwoTest(alignment);
    }
  }

  ghost predicate BlockWindowIn(s: State, j: nat, w: nat, size: nat, alignment: u64)
    requires alignment > 0
  {
    j < |s.regions| && BlockWindow(s.regions[j].blocks, w, size, alignment)
  }

  /** What the search finds is the least window inside a single block, and it finds one if there is one. */
  lemma {:induction false} SearchBlocks(
    regions: seq<Region>, size: nat, alignment: u64, from: nat, j: nat, w: nat)
    requires IsPow2(alignment) && alignment > 0 && from <= |regions|
    requires forall i :: 0 <= i < |regions| ==> RegionOk(regions[i])
    ensures var c := Search(regions, size, alignment, from);
            c.Some? ==> BlockWindow(regions[c.value.index].blocks, c.value.addr, size, alignment)
    ensures var c := Search(regions, size, alignment, from);
            from <= j < |regions| && BlockWindow(regions[j].blocks, w, size, alignment) ==>
              c.Some? && (c.value.index < j || (c.value.index == j && c.value.addr <= w))
    decreases |regions| - from
  {
    hide Take, RegionOk, BlockWindow, IsPow2;
    if from < |regions| {
      TakenFromBlock(regions[from], size, alignment, w);
      SearchBlocks(regions, size, alignment, from + 1, j, w);
    }
  }

  lemma TakenFromBlock(r: Region, size: nat, alignment: u64, w: nat)
    requires IsPow2(alignment) && alignment > 0 && RegionOk(r)
    ensures Take(r.blocks, size, alignment).Some? ==>
              BlockWindow(r.blocks, Take(r.blocks, size, alignment).value.addr, size, alignment) && r.free >= size
    ensures BlockWindow(r.blocks, w, size, alignment) ==>
              Take(r.blocks, size, alignment).Some? && Take(r.blocks, size, alignment).value.addr <= w
  {
    hide Take, Sorted, BlockWindow, IsPow2;
    AlignmentFits(alignment);
    TakeLeastBlock(r.blocks, size, alignment, r.base, r.End(), w);
    if Take(r.blocks, size, alignment).Some? {
      TakeConserves(r.blocks, size, alignment, 0);
    }
  }

  /** In every sound state, whether or not free blocks touch, and for requests of any size: OUT_OF_MEMORY is
      reported exactly when no single free block holds an aligned window of the rounded size, and otherwise
      the result is the least such window by region and address. */
  lemma FirstFitBlocks(s: State, requested: u64, alignment: u64)
    requires Sound(s) && GoodAlignment(alignment) && s.nodes >= SLAB_RESERVE && s.policy == FirstFit
    ensures var size, out := AlignUp(requested, PAGE), AllocStep(s, requested, alignment).1;
            && (out == OutOfMemory <==> forall j: nat, w: nat :: !BlockWindowIn(s, j, w, size, alignment))
            && (out != OutOfMemory ==>
                  && out.Allocated?
                  && exists i: nat ::
                       && BlockWindowIn(s, i, out.addr, size, alignment)
                       && forall j: nat, w: nat :: BlockWindowIn(s, j, w, size, alignment) ==>
                            i < j || (i == j && out.addr <= w))
  {
    hide AlignUp, BlockWindow, RegionOk, Take;
    PowerOfTwoTest(alignment);
    var size := AlignUp(requested, PAGE);
    forall j: nat, w: nat | BlockWindowIn(s, j, w, size, alignment)
      ensures var c := Search(s.regions, size, alignment, 0);
              c.Some? && (c.value.index < j || (c.value.index == j && c.value.addr <= w))
    {
      SearchBlocks(s.regions, size, alignment, 0, j, w);
    }
    if Search(s.regions, size, alignment, 0).Some? {
      SearchBlocks(s.regions, size, alignment, 0, 0, 0);
      SearchTakes(s.regions, size, alignment, 0);
      var c := Search(s.regions, size, alignment, 0).value;
      UpdateSums(s.regions, c.index, s.regions[c.index], 0);
      assert BlockWindowIn(s, c.index, c.addr, size, alignment);
    }
  }

  // --- gaps ----------------------------------------------------------------------------------

  /** Non-empty requests keep the free blocks of every region apart. */
  lemma AllocGapped(s: State, requested: u64, alignment: u64)
    requires Sound(s) && AllGapped(s.regions) && AlignUp(requested, PAGE) > 0
    ensures AllGapped(AllocStep(s, requested, alignment).0.regions)
  {
    hide AlignUp, Take, GoodAlignment, RegionOk, Gapped;
    if AllocStep(s, requested, alignment).1.Allocated? {
      var c := AllocTakes(s, requested, alignment);
      TakeGapped(s.regions[c.index].blocks, AlignUp(requested, PAGE), alignment);
    }
  }

  /** The free block that a request for no bytes goes to, by region and then address. */
  function FirstRoom(regions: seq<Region>, alignment: u64): Option<Extent>
    requires alignment > 0
  {
    if regions == [] then None
    else
      match RoomFor(regions[0].blocks, alignment)
      case None => FirstRoom(regions[1..], alignment)
      case room => room
  }

  lemma {:induction false} SearchForNothing(regions: seq<Region>, alignment: u64, from: nat)
    requires alignment > 0 && from <= |regions|
    requires forall i :: 0 <= i < |regions| ==> RegionOk(regions[i]) && Gapped(regions[i].blocks)
    ensures var c, room := Search(regions, 0, alignment, from), FirstRoom(regions[from..], alignment);
            && (c.Some? <==> room.Some?)
            && (c.Some? ==> room == RoomFor(regions[c.value.index].blocks, alignment))
    decreases |regions| - from
  {
    hide Take, RoomFor, Gapped, Sorted;
    if from < |regions| {
      assert regions[from..][1..] == regions[from + 1..];
      TakeNothing(regions[from], alignment);
      SearchForNothing(regions, alignment, from + 1);
    }
  }

  lemma TakeNothing(r: Region, alignment: u64)
    requires alignment > 0 && RegionOk(r) && Gapped(r.blocks)
    ensures Take(r.blocks, 0, alignment).Some? <==> RoomFor(r.blocks, alignment).Some?
    ensures RoomFor(r.blocks, alignment).Some? ==>
              var e := RoomFor(r.blocks, alignment).value;
              && e.base < WORD
              && (Gapped(Take(r.blocks, 0, alignment).value.rest)
                  <==> AlignUp(e.base, alignment) == e.base || AlignUp(e.base, alignment) == e.End())
  {
    hide AlignUp, Take, RoomFor, Gapped, Sorted;
    TakeNothingGapped(r.blocks, alignment, r.base, r.End());
  }

  /** A request for no bytes is granted exactly when some block has room at an aligned address, and keeps the
      blocks apart exactly when, in the first such block, that address is the block's base or its end: the
      guards of the split. */
  lemma EmptyAllocGapped(s: State, requested: u64, alignment: u64)
    requires Sound(s) && AllGapped(s.regions) && AlignUp(requested, PAGE) == 0
    requires GoodAlignment(alignment) && s.nodes >= SLAB_RESERVE && s.policy == FirstFit
    ensures var (s', out) := AllocStep(s, requested, alignment);
            var room := FirstRoom(s.regions, alignment);
            && (out.Allocated? <==> room.Some?)
            && (room.Some? ==> room.value.base < WORD)
            && (AllGapped(s'.regions) <==>
                  || room.None?
                  || AlignUp(room.value.base, alignment) == room.value.base
                  || AlignUp(room.value.base, alignment) == room.value.End())
  {
    hide AlignUp, Take, And, Gapped, RegionOk, RoomFor, FirstRoom;
    assert s.regions[0..] == s.regions;
    SearchForNothing(s.regions, alignment, 0);
    if AllocStep(s, requested, alignment).1.Allocated? {
      var c := AllocTakes(s, requested, alignment);
      TakeNothing(s.regions[c.index], alignment);
      var s' := AllocStep(s, requested, alignment).0;
      assert s'.regions[c.index].blocks == c.region.blocks;
    }
  }

  /** At page alignment a request for no bytes never leaves touching blocks. */
  lemma EmptyPageAllocGapped(s: State, requested: u64)
    requires Sound(s) && AllGapped(s.regions) && AlignUp(requested, PAGE) == 0
    ensures AllGapped(AllocStep(s, requested, PAGE).0.regions)
  {
    hide AlignUp, Take, Gapped, RegionOk, RoomFor, FirstRoom;
    if AllocStep(s, requested, PAGE).1.Allocated? {
      EmptyAllocGapped(s, requested, PAGE);
      RoomAligned(s.regions);
    }
  }

  lemma {:induction false} RoomAligned(regions: seq<Region>)
    requires forall i :: 0 <= i < |regions| ==> RegionOk(regions[i])
    ensures var room := FirstRoom(regions, PAGE);
            room.Some? ==> room.value.base < WORD && AlignUp(room.value.base, PAGE) == room.value.base
  {
    hide RegionOk, RoomFor, AlignUp;
    if regions != [] {
      BlockAligned(regions[0]);
      RoomAligned(regions[1..]);
    }
  }

  lemma BlockAligned(r: Region)
    requires RegionOk(r)
    ensures var room := RoomFor(r.blocks, PAGE);
            room.Some? ==> room.value.base < WORD && AlignUp(room.value.base, PAGE) == room.value.base
  {
    hide AlignUp, Sorted, RoomFor;
    var room := RoomFor(r.blocks, PAGE);
    if room.Some? {
      RoomIsBlock(r.blocks, PAGE);
      var k :| 0 <= k < |r.blocks| && r.blocks[k] == room.value;
      SortedAt(r.blocks, r.base, r.End(), k);
      PageIsPow2();
      AlignUpExact(room.value.base, PAGE);
    }
  }

  lemma {:induction false} RoomIsBlock(blocks: seq<Extent>, alignment: u64)
    requires alignment > 0
    ensures RoomFor(blocks, alignment).Some? ==> RoomFor(blocks, alignment).value in blocks
  {
    hide AlignUp;
    if blocks != [] {
      RoomIsBlock(blocks[1..], alignment);
    }
  }

  /** After a request for no bytes at twice the page size, two free pages side by side are two blocks,
      and a request for both pages is turned away. */
  lemma EmptyAllocHidesWindow()
    ensures var r := Region(0x1000, 0x2000, 0x2000, [Extent(0x1000, 0x2000)]);
            var s := State([r], 0x2000, 0x2000, 64, FirstFit);
            var s' := AllocStep(s, 0, 0x2000).0;
            && Sound(s) && AllGapped(s.regions)
            && WindowIn(s', 0, 0x1000, 0x2000, PAGE)
            && AllocStep(s', 0x2000, PAGE).1 == OutOfMemory
  {
    hide AlignUp, GoodAlignment, Sorted, Gapped, Window;
    var e, a, b := Extent(0x1000, 0x2000), Extent(0x1000, 0x1000), Extent(0x2000, 0x1000);
    var r := Region(0x1000, 0x2000, 0x2000, [e]);
    var s := State([r], 0x2000, 0x2000, 64, FirstFit);
    TwoPages();
    assert [e][1..] == [] && [a, b][1..] == [b] && [b][1..] == [] && [r][1..] == [];
    assert Pieces(e, 0x2000, 0) == [a, b];
    assert [a, b] + [e][1..] == [a, b];
    assert Take([e], 0, 0x2000) == Some(Taken(0x2000, [a, b]));
    var s' := AllocStep(s, 0, 0x2000).0;
    assert Search(s.regions, 0, 0x2000, 0) == Some(Choice(0, 0x2000, Region(0x1000, 0x2000, 0x2000, [a, b])));
    assert s'.regions == [Region(0x1000, 0x2000, 0x2000, [a, b])];
    assert Take([b], 0x2000, PAGE) == None;
    assert Take([a, b], 0x2000, PAGE) == None;
    assert Search(s'.regions, 0x2000, PAGE, 0) == None;
    TwoPagesWindow();
  }

  lemma TwoPages()
    ensures GoodAlignment(0x2000) && GoodAlignment(PAGE)
    ensures AlignUp(0, PAGE) == 0 && AlignUp(0x1000, PAGE) == 0x1000 && AlignUp(0x2000, PAGE) == 0x2000
    ensures AlignUp(0x1000, 0x2000) == 0x2000
  {
    hide And, AlignUp;
    PageIsPow2();
    Pow2Values();
    assert 0x2000 == Pow2(13);
    PowerOfTwoTest(0x2000);
    PowerOfTwoTest(PAGE);
    AlignUpExact(0, PAGE);
    AlignUpExact(0x1000, PAGE);
    AlignUpExact(0x2000, PAGE);
    AlignUpMeaning(0x1000, 0x2000);
    AlignUpLeast(0x1000, 0x2000, 0x2000);
  }

  lemma TwoPagesWindow()
    ensures var e, a, b := Extent(0x1000, 0x2000), Extent(0x1000, 0x1000), Extent(0x2000, 0x1000);
            && Sorted([e], 0x1000, 0x3000) && Gapped([e])
            && Window([a, b], 0x1000, 0x2000, PAGE)
            && Sum([e]) == 0x2000
  {
    var e, a, b := Extent(0x1000, 0x2000), Extent(0x1000, 0x1000), Extent(0x2000, 0x1000);
    assert [e][1..] == [] && [a, b][1..] == [b] && [b][1..] == [];
  }

  // --- adding a region -----------------------------------------------------------------------

  /** The bytes given hold at least the rounding of their start. */
  predicate NoUnderflow(base: u64, size: u64) {
    AlignUp(base, PAGE) <= base + size
  }

  lemma TrimmedMeaning(base: u64, size: u64)
    requires base + size <= LIMIT
    ensures var e := Trimmed(base, size);
            && Aligned(e.base) && Aligned(e.size) && base <= e.base < base + PAGE
            && (NoUnderflow(base, size) ==> e.End() <= base + size)
            && (!NoUnderflow(base, size) ==> e.size == WORD - PAGE)
  {
    hide And;
    PageIsPow2();
    AlignUpMeaning(base, PAGE);
    var gap := AlignUp(base, PAGE) - base;
    MaskRounds(Sub(size, gap), PAGE);
  }

  /** The source checks neither end of the trimmed region against the bytes given: the region it adds
      lies inside them exactly when their start does not round up past their end. */
  lemma AddInsideIff(s: State, base: u64, size: u64)
    requires base + size <= LIMIT && AddStep(s, base, size).1 == Added
    ensures var e := Trimmed(base, size);
            (base <= e.base && e.End() <= base + size) <==> NoUnderflow(base, size)
  {
    TrimmedMeaning(base, size);
  }

  /** One byte at address 1 is accepted, as a region of all but a page of the address space. */
  lemma AddUnderflows(base: u64, size: u64)
    requires base == size == 1
    ensures var big := WORD - PAGE;
            AddStep(Initial(64), base, size)
            == (State([Region(PAGE, big, big, [Extent(PAGE, big)])], big, big, 63, FirstFit), Added)
  {
    hide Trimmed, Reaches, Add;
    TinyTrimmed(base, size);
    TinySums();
    assert [] + [Region(PAGE, WORD - PAGE, WORD - PAGE, [Trimmed(base, size)])]
        == [Region(PAGE, WORD - PAGE, WORD - PAGE, [Extent(PAGE, WORD - PAGE)])];
  }

  lemma TinySums()
    ensures Add(PAGE, WORD - PAGE) == 0 && Add(1, 1) == 2 && !Reaches([], 0)
    ensures Add(0, WORD - PAGE) == WORD - PAGE
  {
  }

  lemma TinyTrimmed(base: u64, size: u64)
    requires base == size == 1
    ensures Trimmed(base, size) == Extent(PAGE, WORD - PAGE)
  {
    hide And;
    PageIsPow2();
    AlignUpMeaning(base, PAGE);
    AlignDownMeaning(Sub(size, PAGE - 1), PAGE);
  }

  /** A region that does not underflow joins the others in good order. */
  lemma AddSound(s: State, base: u64, size: u64)
    requires Sound(s) && base + size <= LIMIT && NoUnderflow(base, size)
    ensures var s' := AddStep(s, base, size).0;
            && Sound(s')
            && s'.nodes + Nodes(s'.regions) == s.nodes + Nodes(s.regions)
            && (AllGapped(s.regions) ==> AllGapped(s'.regions))
  {
    hide Trimmed, RegionOk, Reaches;
    if AddStep(s, base, size).1 == Added {
      var e := Trimmed(base, size);
      NewRegionOk(base, size);
      TotalsBounded(s.regions);
      RegionBounded(Region(e.base, e.size, e.size, [e]));
      SumsInWord(s.total, e.size);
      SumsInWord(s.free, e.size);
      AppendSums(s.regions, Region(e.base, e.size, e.size, [e]), 0);
    }
  }

  lemma RegionBounded(r: Region)
    requires RegionOk(r)
    ensures r.free <= r.size <= LIMIT
  {
    SortedCount(r.blocks, r.base, r.End(), 0);
  }

  /** Regions in physical memory are too few for the totals to wrap. */
  lemma {:induction false} TotalsBounded(regions: seq<Region>)
    requires forall i :: 0 <= i < |regions| ==> RegionOk(regions[i])
    ensures SumFree(regions) <= SumSize(regions) <= |regions| * LIMIT
  {
    hide RegionOk;
    if regions != [] {
      RegionBounded(regions[0]);
      TotalsBounded(regions[1..]);
    }
  }

  lemma SumsInWord(total: nat, size: nat)
    requires total <= MAX_REGIONS * LIMIT && size <= LIMIT
    ensures Add(total, size) == total + size
  {
  }

  lemma NewRegionOk(base: u64, size: u64)
    requires base + size <= LIMIT && NoUnderflow(base, size) && Trimmed(base, size).size >= PAGE
    ensures var e := Trimmed(base, size); RegionOk(Region(e.base, e.size, e.size, [e]))
  {
    hide Trimmed;
    TrimmedMeaning(base, size);
    var e := Trimmed(base, size);
    assert [e][1..] == [];
    assert Sorted([], e.End(), e.End());
    assert Sorted([e], e.base, e.End());
    assert Sum([e]) == e.size;
  }

  /** The overlap test compares upper ends only: an added region is disjoint from the others exactly
      when it starts at or behind the end of each. */
  lemma AddDisjointIff(s: State, base: u64, size: u64)
    requires Sound(s) && Disjoint(s.regions) && base + size <= LIMIT && NoUnderflow(base, size)
    requires AddStep(s, base, size).1 == Added
    ensures Disjoint(AddStep(s, base, size).0.regions) <==>
            forall i :: 0 <= i < |s.regions| ==> s.regions[i].End() <= Trimmed(base, size).base
  {
    hide Trimmed, RegionOk, Disjoint;
    AddedAbove(s, base, size);
    var e := Trimmed(base, size);
    AppendDisjoint(s.regions, Region(e.base, e.size, e.size, [e]));
  }

  lemma AddedAbove(s: State, base: u64, size: u64)
    requires Sound(s)
    requires base + size <= LIMIT && NoUnderflow(base, size) && AddStep(s, base, size).1 == Added
    ensures var e := Trimmed(base, size);
            && AddStep(s, base, size).0.regions == s.regions + [Region(e.base, e.size, e.size, [e])]
            && e.End() <= LIMIT
            && forall i :: 0 <= i < |s.regions| ==> s.regions[i].End() < e.End()
  {
    hide Trimmed, Sorted, Reaches, Add;
    TrimmedMeaning(base, size);
    var e := Trimmed(base, size);
    NoneReachesAbove(s.regions, e);
  }

  lemma NoneReachesAbove(regions: seq<Region>, e: Extent)
    requires e.End() <= LIMIT && forall i :: 0 <= i < |regions| ==> RegionOk(regions[i])
    requires !Reaches(regions, Add(e.base, e.size))
    ensures forall i :: 0 <= i < |regions| ==> regions[i].End() < e.End()
  {
    hide Sorted;
    forall i | 0 <= i < |regions|
      ensures regions[i].End() < e.End()
    {
      assert RegionOk(regions[i]);
    }
  }

  lemma AppendDisjoint(rs: seq<Region>, r: Region)
    requires Disjoint(rs) && forall i :: 0 <= i < |rs| ==> rs[i].End() < r.End()
    ensures Disjoint(rs + [r]) <==> forall i :: 0 <= i < |rs| ==> rs[i].End() <= r.base
  {
    var rs' := rs + [r];
    if Disjoint(rs') {
      forall i | 0 <= i < |rs|
        ensures rs[i].End() <= r.base
      {
        assert rs'[i] == rs[i] && rs'[|rs|] == r;
      }
    }
  }

  /** A whole page among the bytes given. */
  predicate PageGiven(p: nat, base: u64, size: u64) {
    Aligned(p) && base <= p && p + PAGE <= base + size
  }

  /** Trimming keeps exactly the whole pages. */
  lemma TrimmedPages(base: u64, size: u64, p: nat)
    requires base + size <= LIMIT && NoUnderflow(base, size)
    ensures var e := Trimmed(base, size);
            PageGiven(p, base, size) <==> Aligned(p) && e.base <= p && p + PAGE <= e.End()
  {
    hide And, AlignUp, AlignDown;
    var e := Trimmed(base, size);
    TrimmedMeaning(base, size);
    TrimmedEnd(base, size);
    if PageGiven(p, base, size) {
      NoPageBetween(base, e.base, p);
      LastPage(p, e.base, e.size, base + size);
    }
  }

  lemma TrimmedEnd(base: u64, size: u64)
    requires base + size <= LIMIT && NoUnderflow(base, size)
    ensures var e := Trimmed(base, size); e.End() <= base + size < e.End() + PAGE
  {
    hide And;
    PageIsPow2();
    AlignUpMeaning(base, PAGE);
    AlignDownMeaning(base + size - AlignUp(base, PAGE), PAGE);
  }

  /** No aligned address lies strictly between an address and the next multiple. */
  lemma NoPageBetween(x: nat, up: int, p: int)
    ensures x <= p && x <= up < x + PAGE && up % PAGE == 0 && p % PAGE == 0 ==> up <= p
  {
  }

  lemma LastPage(p: nat, b: nat, size: nat, end: nat)
    requires Aligned(p) && Aligned(b) && Aligned(size) && p + PAGE <= end < b + size + PAGE
    ensures p + PAGE <= b + size
  {
  }

  /** When pmm_add_region accepts a region, and with which error it refuses one, for regions in physical memory
      that do not underflow. */
  lemma AddOutcomes(s: State, base: u64, size: u64)
    requires Sound(s) && base + size <= LIMIT && NoUnderflow(base, size)
    ensures var (s', out) := AddStep(s, base, size);
            var some := exists p: nat :: PageGiven(p, base, size);
            var reached := exists i :: 0 <= i < |s.regions| && Covers(s.regions[i].End(), base, size);
            && (out == NullArgument <==> base == 0)
            && (out == TooSmall <==> base != 0 && !some)
            && (out == ListFull <==> base != 0 && some && |s.regions| >= 16)
            && (out == AlreadyManaged <==> base != 0 && some && |s.regions| < 16 && reached)
            && (out == SlabAllocFailed <==> base != 0 && some && |s.regions| < 16 && !reached && s.nodes == 0)
            && (out != Added ==> s' == s)
  {
    hide Trimmed, RegionOk, Reaches, PageGiven, Covers;
    var e := Trimmed(base, size);
    TrimmedMeaning(base, size);
    TrimmedEnd(base, size);
    PagesOfTrimmed(base, size);
    SomePage(e, base, size);
    if e.size >= PAGE {
      ReachesMeans(s.regions, e, base, size);
    }
    NoWrapAtEnd(base, size, e);
  }

  lemma NoWrapAtEnd(base: u64, size: u64, e: Extent)
    requires base + size <= LIMIT && e.End() <= base + size
    ensures Add(e.base, e.size) <= Add(base, size)
  {
  }

  lemma PagesOfTrimmed(base: u64, size: u64)
    requires base + size <= LIMIT && NoUnderflow(base, size)
    ensures var e := Trimmed(base, size);
            forall p: nat :: PageGiven(p, base, size) <==> Aligned(p) && e.base <= p && p + PAGE <= e.End()
  {
    hide Trimmed, PageGiven;
    forall p: nat
      ensures var e := Trimmed(base, size);
              PageGiven(p, base, size) <==> Aligned(p) && e.base <= p && p + PAGE <= e.End()
    {
      TrimmedPages(base, size, p);
    }
  }

  /** What it adds: one free region of exactly the whole pages among the bytes given, for one list node. */
  lemma AddedRegion(s: State, base: u64, size: u64)
    requires Sound(s) && base + size <= LIMIT && NoUnderflow(base, size) && AddStep(s, base, size).1 == Added
    ensures var s' := AddStep(s, base, size).0;
            && |s'.regions| == |s.regions| + 1 && s'.regions[..|s.regions|] == s.regions
            && s'.nodes == s.nodes - 1 && s'.policy == s.policy
            && var r := s'.regions[|s.regions|];
               && r.blocks == [Extent(r.base, r.size)] && r.free == r.size
               && forall p: nat :: PageGiven(p, base, size) <==> Aligned(p) && r.base <= p && p + PAGE <= r.End()
  {
    hide Trimmed, RegionOk, Reaches, PageGiven;
    PagesOfTrimmed(base, size);
  }

  /** A region that ends here reaches up to the last page given. */
  ghost predicate Covers(end: nat, base: u64, size: u64) {
    forall p: nat :: PageGiven(p, base, size) ==> p + PAGE <= end
  }

  lemma SomePage(e: Extent, base: u64, size: u64)
    requires Aligned(e.base) && Aligned(e.size)
    requires forall p: nat :: PageGiven(p, base, size) <==> Aligned(p) && e.base <= p && p + PAGE <= e.End()
    ensures (exists p: nat :: PageGiven(p, base, size)) <==> e.size >= PAGE
  {
    if e.size >= PAGE {
      assert PageGiven(e.base, base, size);
    }
  }

  lemma ReachesMeans(regions: seq<Region>, e: Extent, base: u64, size: u64)
    requires forall i :: 0 <= i < |regions| ==> RegionOk(regions[i])
    requires Aligned(e.base) && Aligned(e.size) && e.size >= PAGE && e.End() <= LIMIT
    requires forall p: nat :: PageGiven(p, base, size) <==> Aligned(p) && e.base <= p && p + PAGE <= e.End()
    ensures Reaches(regions, Add(e.base, e.size)) <==>
              exists i :: 0 <= i < |regions| && Covers(regions[i].End(), base, size)
  {
    hide Sorted, PageGiven, Aligned;
    forall i | 0 <= i < |regions|
      ensures Add(e.base, e.size) <= Add(regions[i].base, regions[i].size) <==> Covers(regions[i].End(), base, size)
    {
      assert RegionOk(regions[i]);
      CoversMeans(e, base, size, regions[i].End());
    }
  }

  lemma CoversMeans(e: Extent, base: u64, size: u64, end: nat)
    requires Aligned(e.base) && Aligned(e.size) && e.size >= PAGE
    requires forall p: nat :: PageGiven(p, base, size) <==> Aligned(p) && e.base <= p && p + PAGE <= e.End()
    ensures Covers(end, base, size) <==> e.End() <= end
  {
    hide PageGiven;
    var last: nat := e.End() - PAGE;
    AlignedSum(e.base, e.size);
    AlignedSum(PAGE, e.End());
    assert PageGiven(last, base, size);
  }

  /** A page-aligned region is not trimmed. */
  lemma TrimsNothing(base: u64, size: u64)
    requires Aligned(base) && Aligned(size) && base + size <= LIMIT
    ensures Trimmed(base, size) == Extent(base, size) && NoUnderflow(base, size)
  {
    hide AlignUp, AlignDown;
    PageIsPow2();
    AlignUpExact(base, PAGE);
    AlignDownMeaning(size, PAGE);
    SameMultiple(AlignDown(size, PAGE), size);
  }

  lemma SameMultiple(a: nat, b: nat)
    requires Aligned(a) && Aligned(b) && a <= b < a + PAGE
    ensures a == b
  {
  }

  /** With a page at 0x5000 managed, the pages 0x4000 to 0x7000 around it are accepted. */
  lemma AddOverlaps(base: u64, size: u64)
    requires base == 0x4000 && size == 0x3000
    ensures var r := Region(0x5000, PAGE, PAGE, [Extent(0x5000, PAGE)]);
            var (s', out) := AddStep(State([r], PAGE, PAGE, 63, FirstFit), base, size);
            out == Added && !Disjoint(s'.regions)
  {
    hide Trimmed;
    TrimsNothing(base, size);
    var r := Region(0x5000, PAGE, PAGE, [Extent(0x5000, PAGE)]);
    var (s', out) := AddStep(State([r], PAGE, PAGE, 63, FirstFit), base, size);
    assert s'.regions == [r, Region(base, size, size, [Extent(base, size)])];
    assert s'.regions[0].base == 0x5000 && s'.regions[1].base == base;
  }

  /** After AddUnderflows the overlap test compares with a sum that has wrapped to 0, so a page inside the
      region is accepted once more. */
  lemma AddAfterUnderflow(base: u64, size: u64)
    requires base == 0x10000 && size == PAGE
    ensures var big := WORD - PAGE;
            var r := Region(PAGE, big, big, [Extent(PAGE, big)]);
            var (s', out) := AddStep(State([r], big, big, 63, FirstFit), base, size);
            out == Added && !Disjoint(s'.regions)
  {
    hide Trimmed;
    TrimsNothing(base, size);
    var big := WORD - PAGE;
    var r := Region(PAGE, big, big, [Extent(PAGE, big)]);
    var (s', out) := AddStep(State([r], big, big, 63, FirstFit), base, size);
    assert s'.regions == [r, Region(base, size, size, [Extent(base, size)])];
    assert s'.regions[0].base == PAGE && s'.regions[1].base == base;
  }

  // --- runs ----------------------------------------------------------------------------------

  datatype Op = AddRegion(base: u64, size: u64) | Alloc(size: u64, alignment: u64)

  /** A state and every extent ever handed out. */
  datatype World = World(s: State, taken: seq<Extent>)

  function Step(w: World, op: Op): World {
    match op
    case AddRegion(base, size) => w.(s := AddStep(w.s, base, size).0)
    case Alloc(size, alignment) =>
      var (s', out) := AllocStep(w.s, size, alignment);
      World(s', if out.Allocated? then w.taken + [Extent(out.addr, AlignUp(size, PAGE))] else w.taken)
  }

  function Run(w: World, ops: seq<Op>): World
    decreases ops
  {
    if ops == [] then w else Run(Step(w, ops[0]), ops[1..])
  }

  /** Allocations are unrestricted; a region must lie in physical memory, behind the others. */
  ghost predicate Admissible(s: State, op: Op) {
    op.AddRegion? ==>
      && op.base + op.size <= LIMIT
      && NoUnderflow(op.base, op.size)
      && forall i :: 0 <= i < |s.regions| ==> s.regions[i].End() <= Trimmed(op.base, op.size).base
  }

  ghost predicate AdmissibleRun(w: World, ops: seq<Op>)
    decreases ops
  {
    ops != [] ==> Admissible(w.s, ops[0]) && AdmissibleRun(Step(w, ops[0]), ops[1..])
  }

  ghost predicate Inv(w: World, nodes: nat) {
    && Sound(w.s)
    && Disjoint(w.s.regions)
    && Partition(w.s.regions, w.taken)
    && w.s.nodes + Nodes(w.s.regions) == nodes
  }

  lemma StepKeepsInv(w: World, op: Op, nodes: nat)
    requires Inv(w, nodes) && Admissible(w.s, op)
    ensures Inv(Step(w, op), nodes)
  {
    hide AllocStep, AddStep, Sound, AlignUp, Trimmed;
    match op
    case AddRegion(base, size) =>
      AddSound(w.s, base, size);
      AddKeepsRest(w, base, size);
    case Alloc(size, alignment) =>
      AllocSound(w.s, size, alignment);
      AllocKeepsRest(w, size, alignment);
  }

  lemma AddKeepsRest(w: World, base: u64, size: u64)
    requires Sound(w.s) && Disjoint(w.s.regions) && Partition(w.s.regions, w.taken)
    requires Admissible(w.s, AddRegion(base, size))
    ensures var rs := AddStep(w.s, base, size).0.regions; Disjoint(rs) && Partition(rs, w.taken)
  {
    hide Trimmed, RegionOk;
    if AddStep(w.s, base, size).1 == Added {
      AddDisjointIff(w.s, base, size);
      var e := Trimmed(base, size);
      forall x: nat
        ensures var rs := AddStep(w.s, base, size).0.regions;
                FreeCount(rs, x) + Count(w.taken, x) == ManagedCount(rs, x)
      {
        AppendSums(w.s.regions, Region(e.base, e.size, e.size, [e]), x);
        assert [e][1..] == [];
      }
    }
  }

  lemma AllocKeepsRest(w: World, size: u64, alignment: u64)
    requires Sound(w.s) && Disjoint(w.s.regions) && Partition(w.s.regions, w.taken)
    ensures var w' := Step(w, Alloc(size, alignment)); Disjoint(w'.s.regions) && Partition(w'.s.regions, w'.taken)
  {
    hide AllocStep, Sound, AlignUp;
    AllocSound(w.s, size, alignment);
    var (s', out) := AllocStep(w.s, size, alignment);
    if out.Allocated? {
      forall x: nat
        ensures FreeCount(s'.regions, x) + Count(w.taken + [Extent(out.addr, AlignUp(size, PAGE))], x)
             == ManagedCount(s'.regions, x)
      {
        AllocConserves(w.s, size, alignment, x);
        CountConcat(w.taken, [Extent(out.addr, AlignUp(size, PAGE))], x);
      }
    } else {
      AllocRefused(w.s, size, alignment);
    }
  }

  /** A refused request changes nothing. */
  lemma AllocRefused(s: State, size: u64, alignment: u64)
    ensures !AllocStep(s, size, alignment).1.Allocated? ==> AllocStep(s, size, alignment).0 == s
  {
  }

  /** In every state reached by adding regions and allocating, the lists are in order, the counters agree,
      the nodes are accounted for, and the free blocks and the extents ever handed out partition the
      managed bytes. */
  lemma {:induction false} RunKeepsInv(w: World, ops: seq<Op>, nodes: nat)
    requires Inv(w, nodes) && AdmissibleRun(w, ops)
    ensures Inv(Run(w, ops), nodes)
    decreases ops
  {
    hide Inv, Step;
    if ops != [] {
      StepKeepsInv(w, ops[0], nodes);
      RunKeepsInv(Step(w, ops[0]), ops[1..], nodes);
    }
  }

  lemma InitialInv(nodes: nat)
    ensures Inv(World(Initial(nodes), []), nodes)
  {
  }

  lemma {:induction false} CountOf(taken: seq<Extent>, i: nat, x: nat)
    requires i < |taken| && taken[i].Holds(x)
    ensures Count(taken, x) >= 1
  {
    if i > 0 {
      CountOf(taken[1..], i - 1, x);
    }
  }

  lemma {:induction false} CountTwice(taken: seq<Extent>, i: nat, j: nat, x: nat)
    requires i < j < |taken| && taken[i].Holds(x) && taken[j].Holds(x)
    ensures Count(taken, x) >= 2
  {
    if i > 0 {
      CountTwice(taken[1..], i - 1, j - 1, x);
    } else {
      CountOf(taken[1..], j - 1, x);
    }
  }

  /** No byte is handed out twice, and no byte handed out is still free: over any run from the start. */
  lemma NoDoubleAllocation(nodes: nat, ops: seq<Op>, i: nat, j: nat, x: nat)
    requires AdmissibleRun(World(Initial(nodes), []), ops)
    requires var w := Run(World(Initial(nodes), []), ops); i < |w.taken| && j < |w.taken| && w.taken[i].Holds(x)
    ensures var w := Run(World(Initial(nodes), []), ops);
            && (i != j ==> !w.taken[j].Holds(x))
            && FreeCount(w.s.regions, x) == 0
            && ManagedCount(w.s.regions, x) == 1
  {
    hide Step, Sound, AdmissibleRun;
    InitialInv(nodes);
    RunKeepsInv(World(Initial(nodes), []), ops, nodes);
    var w := Run(World(Initial(nodes), []), ops);
    DisjointCount(w.s.regions, x);
    CountOf(w.taken, i, x);
    if i != j && w.taken[j].Holds(x) {
      CountTwice(w.taken, if i < j then i else j, if i < j then j else i, x);
    }
  }

  ghost predicate NonEmpty(op: Op) {
    op.Alloc? ==> AlignUp(op.size, PAGE) > 0
  }

  /** As long as no request rounds to nothing, first fit is sound and complete in every state reached. */
  lemma {:induction false} RunKeepsGapped(w: World, ops: seq<Op>, nodes: nat)
    requires Inv(w, nodes) && AdmissibleRun(w, ops) && AllGapped(w.s.regions)
    requires forall op :: op in ops ==> NonEmpty(op)
    ensures AllGapped(Run(w, ops).s.regions)
    decreases ops
  {
    hide AllocStep, AddStep, Sound, AlignUp, Trimmed, Partition, Disjoint, AllGapped, Gapped;
    if ops != [] {
      StepKeepsInv(w, ops[0], nodes);
      assert NonEmpty(ops[0]);
      match ops[0] {
        case AddRegion(base, size) => AddSound(w.s, base, size);
        case Alloc(size, alignment) => AllocGapped(w.s, size, alignment);
      }
      RunKeepsGapped(Step(w, ops[0]), ops[1..], nodes);
    }
  }
}
