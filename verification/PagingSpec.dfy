/** Paging as a state machine over the physical memory manager, the table tree and the partial map it
    stands for, and what every run of it keeps.
  */
module PagingSpec {
  import opened Words
  import opened Extents
  import opened Ptes
  import opened Sv39Spec
  import opened PmmSpec
  import opened PhysicalMemory

  datatype Kernel = Kernel(w: World, tables: Tables, dict: Dict)

  datatype PageType = Page | MegaPage | GigaPage | Other

  datatype MapOutcome =
    Mapped | NullRoot | InvalidType | Unimplemented | Unaligned | SetupTable | MappingExists | MapStuck

  datatype UnmapOutcome = Unmapped(pa: nat) | UnmapNullRoot | UnmapUnaligned | MappingDoesntExist

  // --- steps ---------------------------------------------------------------------------------

  datatype InstallOutcome = Ready | NoMemory | InstallStuck

  /** The table for a node, allocated if it is not there yet. */
  function Install(k: Kernel, n: Node): (Kernel, InstallOutcome) {
    if n in k.tables then (k, Ready)
    else
      var out := AllocStep(k.w.s, PAGE, PAGE).1;
      var w := Step(k.w, Alloc(PAGE, PAGE));
      match out
      case Allocated(a) => (Kernel(w, k.tables[n := a], k.dict), Ready)
      case Stuck => (k, InstallStuck)
      case _ => (k, NoMemory)
  }

  function Refusal(i: InstallOutcome): MapOutcome {
    if i.InstallStuck? then MapStuck else SetupTable
  }

  /** sv39_map of a small page. */
  function MapStep(k: Kernel, va: u64, pa: u64, flags: nat): (Kernel, MapOutcome) {
    if !Aligned(va) || !Aligned(pa) then (k, Unaligned)
    else
      var v := VpnOf(va);
      var (k1, i1) := Install(k, Mid(v.i2));
      if !i1.Ready? then (k1, Refusal(i1))
      else
        var (k2, i2) := Install(k1, Low(v.i2, v.i1));
        if !i2.Ready? then (k2, Refusal(i2))
        else if v in k2.dict then (k2, MappingExists)
        else (k2.(dict := k2.dict[v := Mapping(pa, flags)]), Mapped)
  }

  /** sv39_unmap */
  function UnmapStep(k: Kernel, va: u64): (Kernel, UnmapOutcome) {
    if !Aligned(va) then (k, UnmapUnaligned)
    else
      var v := VpnOf(va);
      if v !in k.dict then (k, MappingDoesntExist)
      else (k.(dict := k.dict - {v}), Unmapped(k.dict[v].frame))
  }

  /** sv39_virt_to_phys */
  function Translate(dict: Dict, va: u64): Option<nat> {
    var v := VpnOf(va);
    if v in dict then Some(Answer(dict[v].frame, va)) else None
  }

  // --- the invariant -------------------------------------------------------------------------

  /** Every table but the root is an extent the physical memory manager handed out; the root lies
      outside its regions. */
  ghost predicate Owned(w: World, tables: Tables, root: nat) {
    && (forall n :: n in tables && n != Root ==> Extent(tables[n], PAGE) in w.taken)
    && (forall x: nat :: root <= x < root + PAGE ==> ManagedCount(w.s.regions, x) == 0)
  }

  ghost predicate KInv(k: Kernel, root: nat, nodes: nat) {
    && Inv(k.w, nodes) && k.w.s.policy == FirstFit
    && TreeOk(k.tables, root) && DictOk(k.tables, k.dict)
    && Owned(k.w, k.tables, root)
  }

  /** A page fresh from the allocator: aligned, in physical memory, no table's page, and the state after. */
  lemma PageFresh(k: Kernel, root: nat, nodes: nat)
    requires KInv(k, root, nodes) && AllocStep(k.w.s, PAGE, PAGE).1.Allocated?
    ensures var a := AllocStep(k.w.s, PAGE, PAGE).1.addr;
            && FrameOk(a)
            && (forall n :: n in k.tables ==> k.tables[n] != a)
    ensures var w := Step(k.w, Alloc(PAGE, PAGE));
            && Inv(w, nodes) && w.s.policy == FirstFit
            && w.taken == k.w.taken + [Extent(AllocStep(k.w.s, PAGE, PAGE).1.addr, PAGE)]
            && w.s.free + PAGE == k.w.s.free && w.s.nodes >= k.w.s.nodes
            && forall x: nat :: ManagedCount(w.s.regions, x) == ManagedCount(k.w.s.regions, x)
  {
    hide AllocStep, AlignUp, TreeOk, DictOk, Partition, Disjoint, Sound, FrameOk;
    PageExact();
    StepKeepsInv(k.w, Alloc(PAGE, PAGE), nodes);
    AllocSound(k.w.s, PAGE, PAGE);
    AllocOnePage(k.w.s);
    var a := AllocStep(k.w.s, PAGE, PAGE).1.addr;
    forall n | n in k.tables
      ensures k.tables[n] != a
    {
      if n == Root {
        RootIs(k, root, nodes);
      } else if k.tables[n] == a {
        TakenOnce(k.w, a);
      }
    }
    forall x: nat
      ensures ManagedCount(Step(k.w, Alloc(PAGE, PAGE)).s.regions, x) == ManagedCount(k.w.s.regions, x)
    {
      AllocConserves(k.w.s, PAGE, PAGE, x);
    }
  }

  lemma PageExact()
    ensures AlignUp(PAGE, PAGE) == PAGE
  {
    hide AlignUp;
    PageIsPow2();
    AlignUpExact(PAGE, PAGE);
  }

  lemma RootIs(k: Kernel, root: nat, nodes: nat)
    requires KInv(k, root, nodes)
    ensures k.tables[Root] == root
  {
  }

  /** What allocating one page takes. */
  lemma AllocOnePage(s: State)
    requires Sound(s) && AllocStep(s, PAGE, PAGE).1.Allocated?
    ensures var (s', out) := AllocStep(s, PAGE, PAGE);
            && FrameOk(out.addr) && s'.policy == s.policy && s'.free + PAGE == s.free
            && FreeCount(s.regions, out.addr) > 0 && ManagedCount(s.regions, out.addr) > 0
  {
    hide AlignUp, Take, AllocStep, Sorted, Sound;
    PageExact();
    var c := AllocTakes(s, PAGE, PAGE);
    AllocConserves(s, PAGE, PAGE, c.addr);
    InPhysical(s, c);
  }

  lemma InPhysical(s: State, c: Choice)
    requires Sound(s) && c.index < |s.regions| && IsPow2(PAGE)
    requires Take(s.regions[c.index].blocks, PAGE, PAGE) == Some(Taken(c.addr, c.region.blocks))
    ensures FrameOk(c.addr) && ManagedCount(s.regions, c.addr) > 0
  {
    hide Take, Sorted;
    var r := s.regions[c.index];
    TakeIsWindow(r.blocks, PAGE, PAGE, r.base, r.End());
    InRegion(s.regions, c.index, c.addr);
  }

  /** A free byte starts no extent that was handed out. */
  lemma TakenOnce(w: World, a: nat)
    requires Disjoint(w.s.regions) && Partition(w.s.regions, w.taken) && FreeCount(w.s.regions, a) > 0
    ensures Extent(a, PAGE) !in w.taken
  {
    hide Disjoint;
    DisjointCount(w.s.regions, a);
    if Extent(a, PAGE) in w.taken {
      var i :| 0 <= i < |w.taken| && w.taken[i] == Extent(a, PAGE);
      CountOf(w.taken, i, a);
    }
  }

  // --- what one step keeps -------------------------------------------------------------------

  /** Free memory and table pages together: the quantity every step conserves. */
  ghost function Accounted(k: Kernel): nat {
    k.w.s.free + PAGE * |k.tables|
  }

  /** A table on a fresh page. */
  lemma InstallFresh(k: Kernel, root: nat, nodes: nat, n: Node)
    requires KInv(k, root, nodes) && NodeOk(n) && n != Root && Parent(n) in k.tables && n !in k.tables
    requires AllocStep(k.w.s, PAGE, PAGE).1.Allocated?
    ensures var a := AllocStep(k.w.s, PAGE, PAGE).1.addr;
            var k' := Kernel(Step(k.w, Alloc(PAGE, PAGE)), k.tables[n := a], k.dict);
            && KInv(k', root, nodes)
            && Accounted(k') == Accounted(k)
            && k'.w.s.nodes >= k.w.s.nodes
            && k'.tables.Keys == k.tables.Keys + {n}
  {
    hide AllocStep, AlignUp, Inv, FrameOk, FlagsOk, Step, TreeOk, DictOk, Owned;
    PageFresh(k, root, nodes);
    var a := AllocStep(k.w.s, PAGE, PAGE).1.addr;
    assert k.tables[n := a].Keys == k.tables.Keys + {n};
    assert |k.tables[n := a]| == |k.tables| + 1;
    GrownTree(k, root, n, a);
    StillOwned(k, root, nodes, n, a);
  }

  /** Installing a table keeps the invariant, the map, the memory account, and the list nodes. */
  lemma InstallKeeps(k: Kernel, root: nat, nodes: nat, n: Node)
    requires KInv(k, root, nodes) && NodeOk(n) && n != Root && Parent(n) in k.tables
    ensures var (k', out) := Install(k, n);
            && KInv(k', root, nodes)
            && k'.dict == k.dict
            && Accounted(k') == Accounted(k)
            && k'.w.s.nodes >= k.w.s.nodes
            && (out.Ready? ==> k'.tables.Keys == k.tables.Keys + {n})
            && (!out.Ready? ==> k' == k)
            && (forall q :: q in k.tables ==> q in k'.tables && k'.tables[q] == k.tables[q])
  {
    hide AllocStep, KInv, Accounted;
    if n !in k.tables {
      if AllocStep(k.w.s, PAGE, PAGE).1.Allocated? {
        InstallFresh(k, root, nodes, n);
      } else {
        AllocRefused(k.w.s, PAGE, PAGE);
      }
    } else {
      assert k.tables.Keys == k.tables.Keys + {n};
    }
  }

  lemma GrownTree(k: Kernel, root: nat, n: Node, a: nat)
    requires TreeOk(k.tables, root) && DictOk(k.tables, k.dict)
    requires NodeOk(n) && n != Root && n !in k.tables && Parent(n) in k.tables
    requires FrameOk(a) && forall q :: q in k.tables ==> k.tables[q] != a
    ensures TreeOk(k.tables[n := a], root) && DictOk(k.tables[n := a], k.dict)
  {
    hide FrameOk, FlagsOk;
  }

  lemma StillOwned(k: Kernel, root: nat, nodes: nat, n: Node, a: nat)
    requires KInv(k, root, nodes) && AllocStep(k.w.s, PAGE, PAGE).1 == Allocated(a) && n != Root
    ensures Owned(Step(k.w, Alloc(PAGE, PAGE)), k.tables[n := a], root)
  {
    hide AllocStep, AlignUp, Inv, TreeOk, DictOk, Step;
    PageFresh(k, root, nodes);
    var w := Step(k.w, Alloc(PAGE, PAGE));
    assert w.taken[|k.w.taken|] == Extent(a, PAGE);
  }

  lemma VpnInRange(va: u64)
    ensures VpnOf(va).i2 < ENTRIES && VpnOf(va).i1 < ENTRIES && VpnOf(va).i0 < ENTRIES
  {
    hide And;
    VpnMeaning(va);
  }

  /** sv39_map keeps the invariant and the account. It changes the map at most at one page number, where
      it inserts exactly what was asked, and only when it succeeds; tables are only ever added. */
  lemma MapKeeps(k: Kernel, root: nat, nodes: nat, va: u64, pa: u64, flags: nat)
    requires KInv(k, root, nodes) && pa < LIMIT && FlagsOk(flags)
    ensures var (k', out) := MapStep(k, va, pa, flags);
            && KInv(k', root, nodes)
            && Accounted(k') == Accounted(k)
            && k'.w.s.nodes >= k.w.s.nodes
            && k'.dict == (if out == Mapped then k.dict[VpnOf(va) := Mapping(pa, flags)] else k.dict)
            && (out == Mapped ==> VpnOf(va) !in k.dict)
            && (forall q :: q in k.tables ==> q in k'.tables && k'.tables[q] == k.tables[q])
            && (forall q :: q in k'.tables && q !in k.tables ==>
                  q == Mid(VpnOf(va).i2) || q == Low(VpnOf(va).i2, VpnOf(va).i1))
  {
    hide Install, KInv, VpnOf, FlagsOk, Aligned;
    if Aligned(va) && Aligned(pa) {
      var v := VpnOf(va);
      VpnInRange(va);
      RootTable(k, root, nodes);
      InstallKeeps(k, root, nodes, Mid(v.i2));
      var (k1, i1) := Install(k, Mid(v.i2));
      if i1.Ready? {
        InstallKeeps(k1, root, nodes, Low(v.i2, v.i1));
        InsertKeeps(Install(k1, Low(v.i2, v.i1)).0, root, nodes, v, Mapping(pa, flags));
      }
    }
  }

  lemma InsertKeeps(k: Kernel, root: nat, nodes: nat, v: Vpn, x: Mapping)
    requires KInv(k, root, nodes) && v.i0 < ENTRIES && FrameOk(x.frame) && FlagsOk(x.flags)
    ensures Low(v.i2, v.i1) in k.tables ==> KInv(k.(dict := k.dict[v := x]), root, nodes)
  {
    hide Inv, Owned, TreeOk, FrameOk, FlagsOk;
  }

  lemma RootTable(k: Kernel, root: nat, nodes: nat)
    requires KInv(k, root, nodes)
    ensures Root in k.tables
  {
  }

  lemma UnmapKeeps(k: Kernel, root: nat, nodes: nat, va: u64)
    requires KInv(k, root, nodes)
    ensures var (k', out) := UnmapStep(k, va);
            && KInv(k', root, nodes)
            && k'.w == k.w && k'.tables == k.tables
            && k'.dict == (if out.Unmapped? then k.dict - {VpnOf(va)} else k.dict)
            && (out.Unmapped? <==> Aligned(va) && VpnOf(va) in k.dict)
            && (out.Unmapped? ==> out.pa == k.dict[VpnOf(va)].frame)
  {
    hide Inv, Owned, VpnOf, FlagsOk, FrameOk, TreeOk;
  }

  // --- when mapping succeeds -----------------------------------------------------------------

  /** A page is handed out exactly when one is free and enough list nodes are left: at page alignment
      every free block has room. */
  lemma PageAllocIff(s: State)
    requires Sound(s) && s.policy == FirstFit
    ensures AllocStep(s, PAGE, PAGE).1.Allocated? <==> s.free >= PAGE && s.nodes >= 16
  {
    hide AlignUp, Take, Sorted, GoodAlignment;
    PageExact();
    PageIsGood();
    if s.free >= PAGE && s.nodes >= SLAB_RESERVE {
      PageFound(s.regions, 0);
    }
  }

  lemma PageIsGood()
    ensures GoodAlignment(PAGE)
  {
    hide And;
    PageIsPow2();
    PowerOfTwoTest(PAGE);
  }

  lemma {:induction false} PageFound(regions: seq<Region>, from: nat)
    requires from <= |regions| && forall i :: 0 <= i < |regions| ==> RegionOk(regions[i])
    requires SumFree(regions[from..]) >= PAGE
    ensures Search(regions, PAGE, PAGE, from).Some?
    decreases |regions| - from
  {
    hide Take, Sorted;
    var r := regions[from];
    assert regions[from..][1..] == regions[from + 1..];
    if r.free >= PAGE {
      BlockHasPage(r);
    } else {
      NoPartialPage(r);
      PageFound(regions, from + 1);
    }
  }

  lemma BlockHasPage(r: Region)
    requires RegionOk(r) && r.free >= PAGE
    ensures Take(r.blocks, PAGE, PAGE).Some?
  {
    var e := r.blocks[0];
    PageIsPow2();
    SortedAt(r.blocks, r.base, r.End(), 0);
    AlignUpExact(e.base, PAGE);
    WholePage(e.size);
  }

  lemma WholePage(n: nat)
    requires Aligned(n) && n > 0
    ensures n >= PAGE
  {
  }

  /** The free bytes of a region are whole pages. */
  lemma NoPartialPage(r: Region)
    requires RegionOk(r) && r.free < PAGE
    ensures r.free == 0
  {
    SumAligned(r.blocks, r.base, r.End());
  }

  lemma {:induction false} SumAligned(blocks: seq<Extent>, lo: nat, hi: nat)
    requires Sorted(blocks, lo, hi)
    ensures Aligned(Sum(blocks))
  {
    hide Aligned;
    if blocks != [] {
      SumAligned(blocks[1..], blocks[0].End(), hi);
      AlignedSum(blocks[0].size, Sum(blocks[1..]));
    } else {
      ZeroAligned();
    }
  }

  lemma ZeroAligned()
    ensures Aligned(0)
  {
  }

  /** How many tables a page number still lacks. */
  function Missing(tables: Tables, v: Vpn): nat {
    (if Mid(v.i2) in tables then 0 else 1) + (if Low(v.i2, v.i1) in tables then 0 else 1)
  }

  /** Mapping succeeds exactly when both addresses are aligned, the page number is unmapped, and the
      tables it lacks can be allocated. */
  lemma MapSucceedsIff(k: Kernel, root: nat, nodes: nat, va: u64, pa: u64, flags: nat)
    requires KInv(k, root, nodes) && pa < LIMIT && FlagsOk(flags)
    ensures MapStep(k, va, pa, flags).1 == Mapped <==>
            && Aligned(va) && Aligned(pa)
            && VpnOf(va) !in k.dict
            && k.w.s.free >= PAGE * Missing(k.tables, VpnOf(va))
            && (Missing(k.tables, VpnOf(va)) > 0 ==> k.w.s.nodes >= 16)
  {
    hide Install, Inv, Owned, VpnOf, FlagsOk, FrameOk, TreeOk, DictOk, AllocStep, Step;
    if Aligned(va) && Aligned(pa) {
      var v := VpnOf(va);
      VpnInRange(va);
      RootTable(k, root, nodes);
      ClosedTree(k, root, nodes, v);
      InstallIff(k, root, nodes, Mid(v.i2));
      var (k1, i1) := Install(k, Mid(v.i2));
      InstallKeeps(k, root, nodes, Mid(v.i2));
      if i1.Ready? {
        InstallIff(k1, root, nodes, Low(v.i2, v.i1));
        InstallKeeps(k1, root, nodes, Low(v.i2, v.i1));
      }
    }
  }

  /** And with which error it fails otherwise: the tests of the source in their order. */
  lemma MapOutcomes(k: Kernel, root: nat, nodes: nat, va: u64, pa: u64, flags: nat)
    requires KInv(k, root, nodes) && pa < LIMIT && FlagsOk(flags)
    ensures var out, missing := MapStep(k, va, pa, flags).1, Missing(k.tables, VpnOf(va));
            var aligned := Aligned(va) && Aligned(pa);
            var short := k.w.s.free < PAGE || (k.w.s.nodes >= 16 && k.w.s.free < PAGE * missing);
            && (out == Unaligned <==> !aligned)
            && (out == SetupTable <==> aligned && missing > 0 && short)
            && (out == MapStuck <==> aligned && missing > 0 && k.w.s.free >= PAGE && k.w.s.nodes < 16)
            && (out == MappingExists <==> aligned && VpnOf(va) in k.dict)
            && (out == Mapped || out == Unaligned || out == SetupTable || out == MapStuck || out == MappingExists)
  {
    hide Install, KInv, VpnOf, FlagsOk, Aligned;
    if Aligned(va) && Aligned(pa) {
      var v := VpnOf(va);
      VpnInRange(va);
      RootTable(k, root, nodes);
      ClosedTree(k, root, nodes, v);
      InstallIff(k, root, nodes, Mid(v.i2));
      InstallRefused(k, root, nodes, Mid(v.i2));
      var (k1, i1) := Install(k, Mid(v.i2));
      InstallKeeps(k, root, nodes, Mid(v.i2));
      if i1.Ready? {
        InstallIff(k1, root, nodes, Low(v.i2, v.i1));
        InstallRefused(k1, root, nodes, Low(v.i2, v.i1));
        InstallKeeps(k1, root, nodes, Low(v.i2, v.i1));
      }
    }
  }

  lemma InstallRefused(k: Kernel, root: nat, nodes: nat, n: Node)
    requires KInv(k, root, nodes)
    ensures Install(k, n).1 == NoMemory ==> k.w.s.free < PAGE
    ensures Install(k, n).1 == InstallStuck ==> k.w.s.free >= PAGE && k.w.s.nodes < 16
  {
    hide AllocStep, Step, TreeOk, DictOk, Owned, Sound;
    PageExact();
    PageIsPow2();
    AllocOutcomes(k.w.s, PAGE, PAGE);
    PageAllocIff(k.w.s);
  }

  /** Unmapping fails for an unaligned address, and for an aligned one that is not mapped. */
  lemma UnmapOutcomes(k: Kernel, va: u64)
    ensures var out := UnmapStep(k, va).1;
            && (out == UnmapUnaligned <==> !Aligned(va))
            && (out == MappingDoesntExist <==> Aligned(va) && VpnOf(va) !in k.dict)
            && (out.Unmapped? <==> Aligned(va) && VpnOf(va) in k.dict)
            && (!out.Unmapped? ==> UnmapStep(k, va).0 == k)
  {
    hide VpnOf;
  }

  lemma ClosedTree(k: Kernel, root: nat, nodes: nat, v: Vpn)
    requires KInv(k, root, nodes)
    ensures Low(v.i2, v.i1) in k.tables ==> Mid(v.i2) in k.tables
    ensures v in k.dict ==> Low(v.i2, v.i1) in k.tables
  {
  }

  lemma InstallIff(k: Kernel, root: nat, nodes: nat, n: Node)
    requires KInv(k, root, nodes) && n != Root && NodeOk(n) && Parent(n) in k.tables
    ensures Install(k, n).1.Ready? <==> n in k.tables || (k.w.s.free >= PAGE && k.w.s.nodes >= SLAB_RESERVE)
    ensures n in k.tables ==> Install(k, n).0 == k
    ensures n !in k.tables && Install(k, n).1.Ready? ==> Install(k, n).0.w.s.free + PAGE == k.w.s.free
  {
    hide AllocStep, Sound, Step, Partition, Disjoint, TreeOk, DictOk, Owned;
    PageAllocIff(k.w.s);
    if AllocStep(k.w.s, PAGE, PAGE).1.Allocated? {
      PageFresh(k, root, nodes);
    }
  }

  // --- framing -------------------------------------------------------------------------------

  /** A successful map answers at its own page and leaves the translation of every other address alone;
      a failing one, including one that installed a table before it failed, changes no translation. */
  lemma MapFrames(k: Kernel, root: nat, nodes: nat, va: u64, pa: u64, flags: nat, x: u64)
    requires KInv(k, root, nodes) && pa < LIMIT && FlagsOk(flags)
    ensures var (k', out) := MapStep(k, va, pa, flags);
            && (out == Mapped && VpnOf(x) == VpnOf(va) ==>
                  Translate(k.dict, x) == None && Translate(k'.dict, x) == Some(Answer(pa, x)))
            && (out != Mapped || VpnOf(x) != VpnOf(va) ==> Translate(k'.dict, x) == Translate(k.dict, x))
  {
    hide KInv, MapStep, VpnOf, Answer, FlagsOk;
    MapKeeps(k, root, nodes, va, pa, flags);
  }

  lemma UnmapFrames(k: Kernel, root: nat, nodes: nat, va: u64, x: u64)
    requires KInv(k, root, nodes)
    ensures var (k', out) := UnmapStep(k, va);
            && (out.Unmapped? && VpnOf(x) == VpnOf(va) ==>
                  Translate(k.dict, x) == Some(Answer(out.pa, x)) && Translate(k'.dict, x) == None)
            && (!out.Unmapped? || VpnOf(x) != VpnOf(va) ==> Translate(k'.dict, x) == Translate(k.dict, x))
  {
    hide KInv, UnmapStep, VpnOf, Answer;
    UnmapKeeps(k, root, nodes, va);
  }

  // --- runs ----------------------------------------------------------------------------------

  datatype KOp = MapOp(va: u64, pa: u64, flags: nat) | UnmapOp(va: u64) | PmmOp(op: Op)

  function KStep(k: Kernel, op: KOp): Kernel {
    match op
    case MapOp(va, pa, flags) => MapStep(k, va, pa, flags).0
    case UnmapOp(va) => UnmapStep(k, va).0
    case PmmOp(o) => k.(w := Step(k.w, o))
  }

  function KRun(k: Kernel, ops: seq<KOp>): Kernel
    decreases ops
  {
    if ops == [] then k else KRun(KStep(k, ops[0]), ops[1..])
  }

  /** Frames lie in physical memory and flags are those of the format; regions stay clear of the root. */
  ghost predicate KAdmissible(k: Kernel, root: nat, op: KOp) {
    match op
    case MapOp(va, pa, flags) => pa < LIMIT && FlagsOk(flags)
    case UnmapOp(va) => true
    case PmmOp(o) =>
      && Admissible(k.w.s, o)
      && (o.AddRegion? ==> root + PAGE <= Trimmed(o.base, o.size).base || Trimmed(o.base, o.size).End() <= root)
  }

  ghost predicate KAdmissibleRun(k: Kernel, root: nat, ops: seq<KOp>)
    decreases ops
  {
    ops != [] ==> KAdmissible(k, root, ops[0]) && KAdmissibleRun(KStep(k, ops[0]), root, ops[1..])
  }

  lemma KStepKeeps(k: Kernel, root: nat, nodes: nat, op: KOp)
    requires KInv(k, root, nodes) && KAdmissible(k, root, op)
    ensures KInv(KStep(k, op), root, nodes)
  {
    hide MapStep, UnmapStep, KInv, FlagsOk, Step, Admissible;
    match op
    case MapOp(va, pa, flags) => MapKeeps(k, root, nodes, va, pa, flags);
    case UnmapOp(va) => UnmapKeeps(k, root, nodes, va);
    case PmmOp(o) => PmmStepKeeps(k, root, nodes, o);
  }

  lemma PmmStepKeeps(k: Kernel, root: nat, nodes: nat, o: Op)
    requires KInv(k, root, nodes) && KAdmissible(k, root, PmmOp(o))
    ensures KInv(k.(w := Step(k.w, o)), root, nodes)
  {
    hide Inv, TreeOk, DictOk, AllocStep, AddStep, Trimmed, AlignUp;
    StepKeepsInv(k.w, o, nodes);
    StepKeepsOwned(k.w, k.tables, root, o, nodes);
    StepKeepsPolicy(k.w, o);
  }

  lemma StepKeepsPolicy(w: World, o: Op)
    ensures Step(w, o).s.policy == w.s.policy
  {
    hide AlignUp, Trimmed, GoodAlignment, Search;
  }

  lemma StepKeepsOwned(w: World, tables: Tables, root: nat, o: Op, nodes: nat)
    requires Inv(w, nodes) && Owned(w, tables, root) && Admissible(w.s, o)
    requires o.AddRegion? ==> root + PAGE <= Trimmed(o.base, o.size).base || Trimmed(o.base, o.size).End() <= root
    ensures Owned(Step(w, o), tables, root)
  {
    hide AlignUp, Trimmed, AllocStep, Sound, Disjoint, Partition, AddStep;
    var w' := Step(w, o);
    forall x: nat | root <= x < root + PAGE
      ensures ManagedCount(w'.s.regions, x) == 0
    {
      match o {
        case Alloc(size, alignment) =>
          AllocRefused(w.s, size, alignment);
          if AllocStep(w.s, size, alignment).1.Allocated? {
            AllocConserves(w.s, size, alignment, x);
          }
        case AddRegion(base, size) =>
          AddManages(w.s, base, size, x);
      }
    }
    forall e | e in w.taken
      ensures e in w'.taken
    {
    }
  }

  lemma AddManages(s: State, base: u64, size: u64, x: nat)
    ensures var rs := AddStep(s, base, size).0.regions;
            ManagedCount(rs, x) > 0 ==> ManagedCount(s.regions, x) > 0 || Trimmed(base, size).Holds(x)
  {
    hide Trimmed, Add, Reaches;
    var e := Trimmed(base, size);
    AppendSums(s.regions, Region(e.base, e.size, e.size, [e]), x);
  }

  /** In every state reached from a good one by mapping, unmapping, adding regions and allocating, the
      tables form a strict tree on pages of their own that were handed out by the allocator. */
  lemma {:induction false} KRunKeeps(k: Kernel, root: nat, nodes: nat, ops: seq<KOp>)
    requires KInv(k, root, nodes) && KAdmissibleRun(k, root, ops)
    ensures KInv(KRun(k, ops), root, nodes)
    decreases ops
  {
    hide KInv, KStep, KAdmissible;
    if ops != [] {
      KStepKeeps(k, root, nodes, ops[0]);
      KRunKeeps(KStep(k, ops[0]), root, nodes, ops[1..]);
    }
  }

  /** The kernel before anything is mapped: a zeroed root outside of physical memory's regions. */
  function AtBoot(nodes: nat, root: nat): Kernel {
    Kernel(World(Initial(nodes), []), map[Root := root], map[])
  }

  lemma BootedInv(nodes: nat, root: nat)
    requires FrameOk(root)
    ensures KInv(AtBoot(nodes, root), root, nodes)
  {
    hide FrameOk;
    InitialInv(nodes);
  }

  /** No table's page ever overlaps another's or a free block: from boot, over any run. */
  lemma TablesSeparate(nodes: nat, root: nat, ops: seq<KOp>, n: Node, q: Node, x: nat)
    requires FrameOk(root) && KAdmissibleRun(AtBoot(nodes, root), root, ops)
    requires var k := KRun(AtBoot(nodes, root), ops);
             n in k.tables && q in k.tables && k.tables[n] <= x < k.tables[n] + PAGE
    ensures var k := KRun(AtBoot(nodes, root), ops);
            && FreeCount(k.w.s.regions, x) == 0
            && (n != q ==> !(k.tables[q] <= x < k.tables[q] + PAGE))
  {
    hide KAdmissibleRun, KRun, KInv, FrameOk;
    BootedInv(nodes, root);
    KRunKeeps(AtBoot(nodes, root), root, nodes, ops);
    SeparateNow(KRun(AtBoot(nodes, root), ops), root, nodes, n, q, x);
  }

  lemma SeparateNow(k: Kernel, root: nat, nodes: nat, n: Node, q: Node, x: nat)
    requires KInv(k, root, nodes) && n in k.tables && q in k.tables
    requires k.tables[n] <= x < k.tables[n] + PAGE
    ensures FreeCount(k.w.s.regions, x) == 0
    ensures n != q ==> !(k.tables[q] <= x < k.tables[q] + PAGE)
  {
    hide Sound, Disjoint, DictOk;
    var w := k.w;
    DisjointCount(w.s.regions, x);
    if n != Root {
      var i :| 0 <= i < |w.taken| && w.taken[i] == Extent(k.tables[n], PAGE);
      CountOf(w.taken, i, x);
    }
    if n != q {
      PageApart(k.tables[n], k.tables[q], x);
    }
  }

  // --- which tables a run installs -----------------------------------------------------------

  function Prefixes(ops: seq<KOp>): set<Node> {
    if ops == [] then {}
    else
      (if ops[0].MapOp? && Aligned(ops[0].va) && Aligned(ops[0].pa) then
         {Mid(VpnOf(ops[0].va).i2), Low(VpnOf(ops[0].va).i2, VpnOf(ops[0].va).i1)}
       else {}) + Prefixes(ops[1..])
  }

  lemma StepTables(k: Kernel, root: nat, nodes: nat, op: KOp)
    requires KInv(k, root, nodes) && KAdmissible(k, root, op)
    requires op.MapOp? ==> MapStep(k, op.va, op.pa, op.flags).1 !in {SetupTable, MapStuck}
    ensures KStep(k, op).tables.Keys == k.tables.Keys + Prefixes([op])
  {
    hide KInv, VpnOf, Install, Step, Aligned, FlagsOk;
    assert [op][1..] == [];
    match op
    case UnmapOp(va) => UnmapKeeps(k, root, nodes, va);
    case PmmOp(o) =>
    case MapOp(va, pa, flags) =>
      if Aligned(va) && Aligned(pa) {
        var v := VpnOf(va);
        VpnInRange(va);
        RootTable(k, root, nodes);
        InstallKeeps(k, root, nodes, Mid(v.i2));
        var (k1, i1) := Install(k, Mid(v.i2));
        if i1.Ready? {
          InstallKeeps(k1, root, nodes, Low(v.i2, v.i1));
        }
      }
  }

  lemma WithoutFirst<T>(a: set<T>, b: set<T>, have: set<T>, have1: set<T>)
    requires have1 == have + (a - have)
    ensures a + b - have == (a - have) + (b - have1)
    ensures |a + b - have| == |a - have| + |b - have1|
  {
    assert a + b - have == (a - have) + (b - have1);
    assert (a - have) !! (b - have1);
  }

  lemma SubsetSize<T>(a: set<T>, b: set<T>)
    requires a <= b
    ensures |a| <= |b|
  {
    assert b == a + (b - a);
  }

  predicate PagingOnly(ops: seq<KOp>) {
    forall i :: 0 <= i < |ops| ==> !ops[i].PmmOp?
  }

  /** Mapping and unmapping turn free memory into tables page for page, and nothing else. */
  lemma {:induction false} RunAccounts(k: Kernel, root: nat, nodes: nat, ops: seq<KOp>)
    requires KInv(k, root, nodes) && KAdmissibleRun(k, root, ops) && PagingOnly(ops)
    ensures Accounted(KRun(k, ops)) == Accounted(k)
    ensures KRun(k, ops).w.s.nodes >= k.w.s.nodes
    decreases ops
  {
    hide KInv, MapStep, UnmapStep, FlagsOk;
    if ops != [] {
      var op := ops[0];
      KStepKeeps(k, root, nodes, op);
      if op.MapOp? {
        MapKeeps(k, root, nodes, op.va, op.pa, op.flags);
      } else {
        UnmapKeeps(k, root, nodes, op.va);
      }
      RunAccounts(KStep(k, op), root, nodes, ops[1..]);
    }
  }

  /** Enough memory for these tables, and enough list nodes if there are any. */
  predicate Spare(s: State, lacking: set<Node>) {
    s.free >= PAGE * |lacking| && (lacking != {} ==> s.nodes >= SLAB_RESERVE)
  }

  /** While the tables of a step fit, none of its allocations fails. */
  lemma StepSpare(k: Kernel, root: nat, nodes: nat, op: KOp)
    requires KInv(k, root, nodes) && KAdmissible(k, root, op) && !op.PmmOp?
    requires Spare(k.w.s, Prefixes([op]) - k.tables.Keys)
    ensures var k' := KStep(k, op);
            && k'.tables.Keys == k.tables.Keys + Prefixes([op])
            && k'.w.s.free + PAGE * |Prefixes([op]) - k.tables.Keys| == k.w.s.free
            && k'.w.s.nodes >= k.w.s.nodes
  {
    hide KInv, VpnOf, MapStep, UnmapStep, Aligned, FlagsOk, Prefixes;
    if op.MapOp? {
      MapKeeps(k, root, nodes, op.va, op.pa, op.flags);
      MapNotShort(k, root, nodes, op);
    } else {
      UnmapKeeps(k, root, nodes, op.va);
    }
    StepTables(k, root, nodes, op);
    GrownSize(k.tables, KStep(k, op).tables, Prefixes([op]));
  }

  lemma GrownSize(tables: Tables, tables': Tables, more: set<Node>)
    requires tables'.Keys == tables.Keys + more
    ensures |tables'| == |tables| + |more - tables.Keys|
  {
    assert tables'.Keys == tables.Keys + (more - tables.Keys);
    assert |tables'| == |tables'.Keys| && |tables| == |tables.Keys|;
  }

  lemma MapNotShort(k: Kernel, root: nat, nodes: nat, op: KOp)
    requires KInv(k, root, nodes) && op.MapOp? && KAdmissible(k, root, op)
    requires Spare(k.w.s, Prefixes([op]) - k.tables.Keys)
    ensures MapStep(k, op.va, op.pa, op.flags).1 !in {SetupTable, MapStuck}
  {
    hide KInv, VpnOf, Install, Aligned, FlagsOk;
    if Aligned(op.va) && Aligned(op.pa) {
      var v := VpnOf(op.va);
      VpnInRange(op.va);
      RootTable(k, root, nodes);
      BothLacking(k, op, v);
      InstallIff(k, root, nodes, Mid(v.i2));
      InstallKeeps(k, root, nodes, Mid(v.i2));
      var k1 := Install(k, Mid(v.i2)).0;
      InstallIff(k1, root, nodes, Low(v.i2, v.i1));
    }
  }

  lemma OnePrefix(op: KOp, v: Vpn)
    requires op.MapOp? && Aligned(op.va) && Aligned(op.pa) && v == VpnOf(op.va)
    ensures Prefixes([op]) == {Mid(v.i2), Low(v.i2, v.i1)}
  {
    hide VpnOf, Aligned;
    assert [op][1..] == [];
  }

  lemma TwoLacking<T>(have: set<T>, a: T, b: T)
    requires a != b
    ensures |{a, b} - have| == (if a in have then 0 else 1) + (if b in have then 0 else 1)
    ensures {a, b} - have == {} <==> a in have && b in have
  {
    assert {a, b} - have == (if a in have then {} else {a}) + (if b in have then {} else {b});
  }

  lemma BothLacking(k: Kernel, op: KOp, v: Vpn)
    requires op.MapOp? && Aligned(op.va) && Aligned(op.pa) && v == VpnOf(op.va)
    requires Spare(k.w.s, Prefixes([op]) - k.tables.Keys)
    ensures k.w.s.free >= PAGE * ((if Mid(v.i2) in k.tables then 0 else 1)
        + (if Low(v.i2, v.i1) in k.tables then 0 else 1))
    ensures Mid(v.i2) !in k.tables || Low(v.i2, v.i1) !in k.tables ==> k.w.s.nodes >= SLAB_RESERVE
  {
    hide VpnOf, Aligned, Prefixes;
    OnePrefix(op, v);
    TwoLacking(k.tables.Keys, Mid(v.i2), Low(v.i2, v.i1));
  }

  /** Without list nodes no table is ever installed. */
  lemma {:induction false} RunStuck(k: Kernel, root: nat, nodes: nat, ops: seq<KOp>)
    requires KInv(k, root, nodes) && KAdmissibleRun(k, root, ops) && PagingOnly(ops) && k.w.s.nodes < SLAB_RESERVE
    ensures KRun(k, ops).tables == k.tables
    decreases ops
  {
    hide KInv, MapStep, UnmapStep, KAdmissible;
    if ops != [] {
      KStepKeeps(k, root, nodes, ops[0]);
      StepStuck(k, root, nodes, ops[0]);
      RunStuck(KStep(k, ops[0]), root, nodes, ops[1..]);
    }
  }

  lemma StepStuck(k: Kernel, root: nat, nodes: nat, op: KOp)
    requires KInv(k, root, nodes) && KAdmissible(k, root, op) && !op.PmmOp? && k.w.s.nodes < SLAB_RESERVE
    ensures KStep(k, op).tables == k.tables && KStep(k, op).w == k.w
  {
    hide KInv, VpnOf, Install, Aligned, FlagsOk;
    if op.UnmapOp? {
      UnmapKeeps(k, root, nodes, op.va);
    } else if Aligned(op.va) && Aligned(op.pa) {
      var v := VpnOf(op.va);
      VpnInRange(op.va);
      RootTable(k, root, nodes);
      InstallIff(k, root, nodes, Mid(v.i2));
      InstallKeeps(k, root, nodes, Mid(v.i2));
      if Install(k, Mid(v.i2)).1.Ready? {
        InstallIff(k, root, nodes, Low(v.i2, v.i1));
        InstallKeeps(k, root, nodes, Low(v.i2, v.i1));
      }
    }
  }

  lemma {:induction false} RunSpare(k: Kernel, root: nat, nodes: nat, ops: seq<KOp>)
    requires KInv(k, root, nodes) && KAdmissibleRun(k, root, ops) && PagingOnly(ops)
    requires Spare(k.w.s, Prefixes(ops) - k.tables.Keys)
    ensures KRun(k, ops).tables.Keys == k.tables.Keys + Prefixes(ops)
    decreases ops
  {
    hide KInv, KStep, KAdmissible;
    if ops != [] {
      var op := ops[0];
      PrefixStep(ops);
      FirstSpare(k.w.s, Prefixes([op]), Prefixes(ops[1..]), k.tables.Keys);
      StepSpare(k, root, nodes, op);
      KStepKeeps(k, root, nodes, op);
      RestSpare(k.w.s, KStep(k, op).w.s, Prefixes([op]), Prefixes(ops[1..]), k.tables.Keys);
      RunSpare(KStep(k, op), root, nodes, ops[1..]);
    }
  }

  lemma PrefixStep(ops: seq<KOp>)
    requires ops != []
    ensures Prefixes(ops) == Prefixes([ops[0]]) + Prefixes(ops[1..])
  {
    hide VpnOf, Aligned;
    assert [ops[0]][1..] == [];
  }

  lemma FirstSpare(s: State, a: set<Node>, b: set<Node>, have: set<Node>)
    requires Spare(s, a + b - have)
    ensures Spare(s, a - have)
  {
    SubsetSize(a - have, a + b - have);
  }

  lemma RestSpare(s: State, s1: State, a: set<Node>, b: set<Node>, have: set<Node>)
    requires Spare(s, a + b - have) && s1.free + PAGE * |a - have| == s.free && s1.nodes >= s.nodes
    ensures Spare(s1, b - (have + a))
  {
    assert have + a == have + (a - have);
    WithoutFirst(a, b, have, have + a);
  }

  /** Over any run of mapping and unmapping, the tables become those there were and one for every distinct
      level-2 prefix and every distinct pair of indices in the run, whatever is unmapped, exactly when the
      tables that are lacking at the start fit into the memory that is free then. */
  lemma RunTablesIff(k: Kernel, root: nat, nodes: nat, ops: seq<KOp>)
    requires KInv(k, root, nodes) && KAdmissibleRun(k, root, ops) && PagingOnly(ops)
    ensures KRun(k, ops).tables.Keys == k.tables.Keys + Prefixes(ops)
       <==> Spare(k.w.s, Prefixes(ops) - k.tables.Keys)
  {
    hide KInv, KRun, KAdmissibleRun, Prefixes;
    if Spare(k.w.s, Prefixes(ops) - k.tables.Keys) {
      RunSpare(k, root, nodes, ops);
    }
    if KRun(k, ops).tables.Keys == k.tables.Keys + Prefixes(ops) {
      GrownSize(k.tables, KRun(k, ops).tables, Prefixes(ops));
      RunAccounts(k, root, nodes, ops);
      if k.w.s.nodes < SLAB_RESERVE {
        RunStuck(k, root, nodes, ops);
        assert Prefixes(ops) - k.tables.Keys == {};
      }
    }
  }
}
