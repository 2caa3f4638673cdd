/** Sv39 page tables in physical memory (src/octiron/paging.c): the radix tree walk, with tables
    allocated on demand, refining the partial map of PagingSpec.
  */
module Paging {
  import opened Words
  import opened Extents
  import opened Ptes
  import opened PhysicalMemory
  import opened Sv39Spec
  import opened PagingSpec
  import opened PhysicalMemoryManager
  import PmmSpec

  /** The address of a leaf found at `level` (paging.c:195-207). Only level 0 is ever reached. */
  function LeafAddress(level: nat, ppn: nat, v: Vpn): nat {
    if level == 2 then Or(Or(Shl(ppn, 30), Shl(v.i1, 21)), Shl(v.i0, 12))
    else if level == 1 then Or(Shl(ppn, 21), Shl(v.i0, 12))
    else Shl(ppn, 12)
  }

  function Index(v: Vpn, level: nat): nat {
    if level == 2 then v.i2 else if level == 1 then v.i1 else v.i0
  }

  /** The level-0 entry of a page number. */
  lemma LeafSlot(m: Words512, tables: Tables, dict: Dict, root: nat, v: Vpn)
    requires TreeOk(tables, root) && DictOk(tables, dict) && Holds(m, tables, dict)
    requires Low(v.i2, v.i1) in tables && v.i0 < ENTRIES
    ensures var p := tables[Low(v.i2, v.i1)];
            && p in m && |m[p]| == ENTRIES
            && (IsValid(m[p][v.i0]) <==> v in dict)
            && (v in dict ==> IsLeaf(m[p][v.i0]) && Paddr(m[p][v.i0]) == Shl(Ppn(m[p][v.i0]), 12) == dict[v].frame)
  {
    hide IsValid, IsLeaf, TreeOk, DictOk, Holds;
    ReadLow(m, tables, dict, root, v);
  }

  /** What the walk finds at each level. */
  lemma EntryAtLevel(m: Words512, tables: Tables, dict: Dict, root: nat, v: Vpn, level: nat)
    requires TreeOk(tables, root) && DictOk(tables, dict) && Holds(m, tables, dict) && level <= 2
    requires v.i2 < ENTRIES && v.i1 < ENTRIES && v.i0 < ENTRIES
    requires level == 1 ==> Mid(v.i2) in tables
    requires level == 0 ==> Low(v.i2, v.i1) in tables
    ensures var n := if level == 2 then Root else if level == 1 then Mid(v.i2) else Low(v.i2, v.i1);
            && n in tables && (level == 2 ==> tables[n] == root)
            && var p := tables[n];
               && p in m && |m[p]| == ENTRIES && Index(v, level) < ENTRIES
               && var e := m[p][Index(v, level)];
                  && (level == 2 ==> (IsValid(e) <==> Mid(v.i2) in tables))
                  && (level == 1 ==> (IsValid(e) <==> Low(v.i2, v.i1) in tables))
                  && (level == 0 ==> (IsValid(e) <==> v in dict))
                  && (IsValid(e) && level == 2 ==> !IsLeaf(e) && Shl(Ppn(e), 12) == tables[Mid(v.i2)])
                  && (IsValid(e) && level == 1 ==> !IsLeaf(e) && Shl(Ppn(e), 12) == tables[Low(v.i2, v.i1)])
                  && (IsValid(e) && level == 0 ==> IsLeaf(e) && Shl(Ppn(e), 12) == dict[v].frame)
  {
    hide IsValid, IsLeaf, Ppn, Paddr, PaddrUnmasked, TreeOk, DictOk, Holds, Shl;
    RootPage(tables, root);
    if level == 2 {
      ReadParent(m, tables, dict, root, Mid(v.i2));
    } else if level == 1 {
      ReadParent(m, tables, dict, root, Low(v.i2, v.i1));
    } else {
      LeafSlot(m, tables, dict, root, v);
    }
  }

  lemma LeafWord(pa: nat, flags: nat)
    requires FrameOk(pa) && FlagsOk(flags)
    ensures LeafEntry(pa, flags) < WORD
  {
    hide LeafEntry;
    LeafRoundTrip(pa, flags);
  }

  /** The cases of Install. */
  lemma InstallIs(k: Kernel, n: Node)
    ensures n in k.tables ==> Install(k, n) == (k, Ready)
    ensures n !in k.tables ==>
              var out := PmmSpec.AllocStep(k.w.s, PAGE, PAGE).1;
              Install(k, n) ==
              if out.Allocated? then
                (Kernel(PmmSpec.Step(k.w, PmmSpec.Alloc(PAGE, PAGE)), k.tables[n := out.addr], k.dict), Ready)
              else (k, if out.Stuck? then InstallStuck else NoMemory)
  {
    hide PmmSpec.AllocStep, PmmSpec.Step;
  }

  lemma Refused(w: PmmSpec.World)
    ensures !PmmSpec.AllocStep(w.s, PAGE, PAGE).1.Allocated? ==> PmmSpec.Step(w, PmmSpec.Alloc(PAGE, PAGE)) == w
  {
    hide PmmSpec.AllocStep;
    PmmSpec.AllocRefused(w.s, PAGE, PAGE);
  }

  lemma PageBacked(s: PmmSpec.State, pages: set<nat>)
    requires PmmSpec.Sound(s) && Backed(pages, s.regions) && PmmSpec.AllocStep(s, PAGE, PAGE).1.Allocated?
    ensures PmmSpec.AllocStep(s, PAGE, PAGE).1.addr in pages
  {
    hide PmmSpec.AllocStep, PmmSpec.Sound;
    AllocOnePage(s);
  }

  /** The parts of the invariant that the table code uses. */
  lemma KParts(k: Kernel, root: nat, nodes: nat)
    requires KInv(k, root, nodes)
    ensures TreeOk(k.tables, root) && DictOk(k.tables, k.dict) && PmmSpec.Sound(k.w.s)
  {
  }

  /** The entry that leads to a table is valid exactly when the table is there. */
  lemma ReadParent(m: Words512, tables: Tables, dict: Dict, root: nat, n: Node)
    requires TreeOk(tables, root) && Holds(m, tables, dict) && n != Root && NodeOk(n) && Parent(n) in tables
    ensures var p := tables[Parent(n)];
            && p in m && |m[p]| == ENTRIES && Slot(n) < ENTRIES
            && (IsValid(m[p][Slot(n)]) <==> n in tables)
            && (n in tables ==>
                  var e := m[p][Slot(n)];
                  !IsLeaf(e) && Paddr(e) == PaddrUnmasked(e) == tables[n] && Shl(Ppn(e), 12) == tables[n])
  {
    hide IsValid, IsLeaf, PaddrUnmasked, Ppn;
    RootPage(tables, root);
    hide TreeOk, Holds;
    match n
    case Mid(i2) => ReadRoot(m, tables, dict, root, i2);
    case Low(i2, i1) => ReadMid(m, tables, dict, root, i2, i1);
  }

  lemma RootPage(tables: Tables, root: nat)
    requires TreeOk(tables, root)
    ensures Root in tables && tables[Root] == root
  {
  }

  /** The zeroed page of a fresh allocation is ready to become a table. */
  lemma ZeroedFresh(
    m: Words512, tables: Tables, dict: Dict, root: nat, n: Node, page: nat)
    requires TreeOk(tables, root) && Holds(m, tables, dict)
    requires n != Root && NodeOk(n) && n !in tables && Parent(n) in tables
    requires FrameOk(page) && (forall q :: q in tables ==> tables[q] != page) && page in m
    ensures Holds(Zeroed(m, page, PAGE), tables, dict) && Fresh(Zeroed(m, page, PAGE), tables, n, page)
  {
    hide TreeOk, Holds;
    ZeroKeepsHolds(m, tables, dict, root, page);
  }

  class PageTables {
    const mem: Memory
    const pmm: Pmm
    const root: nat           // the page of kernel_root
    ghost const nodes: nat    // list nodes of the physical memory manager, free and used
    ghost var tables: Tables
    ghost var dict: Dict

    ghost function State(): Kernel
      reads this, pmm, pmm.slab
    {
      Kernel(pmm.World(), tables, dict)
    }

    ghost predicate Valid()
      reads this, pmm, pmm.slab, pmm.regions, mem.frames.Values
    {
      && mem.Valid() && pmm.Valid() && root != 0
      && KInv(State(), root, nodes)
      && Holds(mem.Snapshot(), tables, dict)
      && Backed(mem.frames.Keys, pmm.view)
    }

    /** The kernel's tables before anything is mapped: `kernel_root` is zero, and no region covers it. */
    constructor (mem: Memory, pmm: Pmm, root: nat)
      requires mem.Valid() && pmm.Valid() && FrameOk(root) && root != 0 && root in mem.frames
      requires mem.Snapshot()[root] == Zeros()
      requires PmmSpec.Inv(pmm.World(), pmm.slab.free + PmmSpec.Nodes(pmm.view)) && pmm.policy == PmmSpec.FirstFit
      requires forall x: nat :: root <= x < root + PAGE ==> PmmSpec.ManagedCount(pmm.view, x) == 0
      requires Backed(mem.frames.Keys, pmm.view)
      ensures Valid() && this.mem == mem && this.pmm == pmm && this.root == root
      ensures dict == map[] && tables == map[Root := root]
    {
      this.mem := mem;
      this.pmm := pmm;
      this.root := root;
      nodes := pmm.slab.free + PmmSpec.Nodes(pmm.view);
      tables := map[Root := root];
      dict := map[];
      new;
      hide PmmSpec.Inv, Pmm.Valid, Memory.Valid, FrameOk, Backed;
      EmptyTree(mem.Snapshot(), pmm.World(), root, nodes);
    }

    lemma EmptyTree(m: Words512, w: PmmSpec.World, root: nat, nodes: nat)
      requires PmmSpec.Inv(w, nodes) && w.s.policy == PmmSpec.FirstFit && FrameOk(root)
      requires root in m && m[root] == Zeros()
      requires forall x: nat :: root <= x < root + PAGE ==> PmmSpec.ManagedCount(w.s.regions, x) == 0
      ensures KInv(Kernel(w, map[Root := root], map[]), root, nodes)
      ensures Holds(m, map[Root := root], map[])
    {
      hide PmmSpec.Inv, FrameOk;
    }

    /** The page for a new table. */
    method AllocTable(ghost n: Node) returns (out: PmmSpec.AllocOutcome)
      requires Valid() && n != Root && NodeOk(n) && n !in tables && Parent(n) in tables
      modifies pmm, pmm.slab, pmm.regions, mem.frames.Values
      ensures pmm.Valid() && Backed(mem.frames.Keys, pmm.view)
      ensures out == PmmSpec.AllocStep(old(pmm.State()), PAGE, PAGE).1
      ensures pmm.World() == PmmSpec.Step(old(pmm.World()), PmmSpec.Alloc(PAGE, PAGE))
      ensures !out.Allocated? ==> pmm.World() == old(pmm.World())
      ensures Holds(mem.Snapshot(), tables, dict)
      ensures out.Allocated? ==> Fresh(mem.Snapshot(), tables, n, out.addr)
    {
      hide KInv, Pmm.Valid, Memory.Valid, Backed, Holds, Fresh, PmmSpec.AllocStep, PmmSpec.Step, Zeroed, TreeOk, DictOk,
           FrameOk, AlignUp, PmmSpec.Sound;
      ghost var k, m := State(), mem.Snapshot();
      KParts(k, root, nodes);
      PageExact();
      Refused(k.w);
      out := pmm.AllocPages(PAGE, mem);
      if out.Allocated? {
        PageFresh(k, root, nodes);
        PageBacked(k.w.s, mem.frames.Keys);
        ZeroedFresh(m, tables, dict, root, n, out.addr);
      }
    }

    /** `if (!VALID(entry)) { pmm_alloc a page; entry = page >> 2 | VALID }` for the entry that leads to `n`. */
    method InstallTable(parent: nat, i: nat, ghost n: Node) returns (out: InstallOutcome)
      requires Valid() && n != Root && NodeOk(n) && Parent(n) in tables
      requires parent == tables[Parent(n)] && i == Slot(n)
      modifies this, pmm, pmm.slab, pmm.regions, mem.frames.Values
      ensures Valid() && (State(), out) == Install(old(State()), n)
    {
      hide KInv, Pmm.Valid, Memory.Valid, Backed, Holds, Fresh, TableEntry, IsValid, Install, Stored, TreeOk, DictOk,
           PmmSpec.AllocStep, PmmSpec.Step;
      ghost var k := State();
      KParts(k, root, nodes);
      ReadParent(mem.Snapshot(), tables, dict, root, n);
      InstallKeeps(k, root, nodes, n);
      InstallIs(k, n);
      var entry := mem.Load(parent, i);
      if IsValid(entry) {
        return Ready;
      }
      var got := AllocTable(n);
      if got.Allocated? {
        LinkTable(parent, i, n, got.addr);
        return Ready;
      }
      return if got.Stuck? then InstallStuck else NoMemory;
    }

    /** `entry = page >> 2 | VALID` */
    method LinkTable(parent: nat, i: nat, ghost n: Node, page: nat)
      requires mem.Valid() && pmm.Valid() && root != 0 && Backed(mem.frames.Keys, pmm.view)
      requires TreeOk(tables, root) && DictOk(tables, dict) && Holds(mem.Snapshot(), tables, dict)
      requires Fresh(mem.Snapshot(), tables, n, page)
      requires n != Root && Parent(n) in tables && parent == tables[Parent(n)] && i == Slot(n)
      requires KInv(Kernel(pmm.World(), tables[n := page], dict), root, nodes)
      modifies this`tables, mem.frames.Values
      ensures Valid() && tables == old(tables)[n := page]
    {
      hide KInv, Pmm.Valid, Memory.Valid, Backed, Holds, Fresh, TableEntry, Stored, TreeOk, DictOk, Pmm.World;
      InstallKeepsHolds(mem.Snapshot(), tables, dict, root, n, page);
      mem.Store(parent, i, TableEntry(page));
      tables := tables[n := page];
    }

    /** The entry that leads to the table of `n`, with the table installed. */
    method Descend(parent: nat, i: nat, ghost n: Node) returns (out: InstallOutcome, entry: nat)
      requires Valid() && n != Root && NodeOk(n) && Parent(n) in tables
      requires parent == tables[Parent(n)] && i == Slot(n)
      modifies this, pmm, pmm.slab, pmm.regions, mem.frames.Values
      ensures Valid() && (State(), out) == Install(old(State()), n)
      ensures out.Ready? ==> n in tables && Paddr(entry) == PaddrUnmasked(entry) == tables[n]
    {
      hide KInv, Pmm.Valid, Memory.Valid, Backed, Holds, IsValid, Install, TreeOk, DictOk, Paddr, PaddrUnmasked,
           IsLeaf, Ppn;
      entry := 0;
      InstallKeeps(State(), root, nodes, n);
      out := InstallTable(parent, i, n);
      if out.Ready? {
        KParts(State(), root, nodes);
        ReadParent(mem.Snapshot(), tables, dict, root, n);
        entry := mem.Load(parent, i);
      }
    }

    /** sv39_map_small_page */
    method MapSmallPage(va: u64, pa: u64, flags: u64) returns (out: MapOutcome)
      requires Valid() && pa < LIMIT && FlagsOk(flags)
      modifies this, pmm, pmm.slab, pmm.regions, mem.frames.Values
      ensures Valid() && (State(), out) == MapStep(old(State()), va, pa, flags)
    {
      hide KInv, Pmm.Valid, Memory.Valid, Backed, Holds, TableEntry, LeafEntry, IsValid, Install, TreeOk, DictOk,
           Pmm.World,
           IsAligned, Aligned, VpnOf, FlagsOk, Paddr, PaddrUnmasked, IsLeaf, Ppn;
      AlignedTest(va);
      AlignedTest(pa);
      if !IsAligned(va) || !IsAligned(pa) {
        return Unaligned;
      }
      var v := VpnOf(va);
      VpnInRange(va);
      KParts(State(), root, nodes);
      RootPage(tables, root);
      InstallKeeps(State(), root, nodes, Mid(v.i2));
      var i1, l2Entry := Descend(root, v.i2, Mid(v.i2));
      if i1 != Ready {
        return Refusal(i1);
      }
      var l1 := Paddr(l2Entry);
      InstallKeeps(State(), root, nodes, Low(v.i2, v.i1));
      var i2, l1Entry := Descend(l1, v.i1, Low(v.i2, v.i1));
      if i2 != Ready {
        return Refusal(i2);
      }
      var l0 := PaddrUnmasked(l1Entry);
      out := WriteLeaf(l0, v, pa, flags);
    }

    /** The last step of sv39_map_small_page: the level-0 entry, unless it is valid already. */
    method WriteLeaf(l0: nat, v: Vpn, pa: u64, flags: u64) returns (out: MapOutcome)
      requires Valid() && Low(v.i2, v.i1) in tables && l0 == tables[Low(v.i2, v.i1)] && v.i0 < ENTRIES
      requires FrameOk(pa) && FlagsOk(flags)
      modifies this`dict, mem.frames.Values
      ensures Valid()
      ensures out == if v in old(dict) then MappingExists else Mapped
      ensures State() == if v in old(dict) then old(State())
                         else old(State()).(dict := old(dict)[v := Mapping(pa, flags)])
    {
      hide KInv, Pmm.Valid, Memory.Valid, Backed, Holds, LeafEntry, IsValid, TreeOk, DictOk, FrameOk, FlagsOk, Stored;
      KParts(State(), root, nodes);
      LeafSlot(mem.Snapshot(), tables, dict, root, v);
      var entry := mem.Load(l0, v.i0);
      if IsValid(entry) {
        return MappingExists;
      }
      LeafWord(pa, flags);
      ghost var dict' := dict[v := Mapping(pa, flags)];
      LeafKeepsHolds(mem.Snapshot(), tables, dict, root, v, LeafEntry(pa, flags), dict');
      InsertKeeps(State(), root, nodes, v, Mapping(pa, flags));
      mem.Store(l0, v.i0, LeafEntry(pa, flags));
      dict := dict';
      return Mapped;
    }

    /** sv39_map */
    method Map(table: nat, va: u64, pa: u64, flags: u64, size: PageType) returns (out: MapOutcome)
      requires Valid() && (table == 0 || table == root) && pa < LIMIT && FlagsOk(flags)
      modifies this, pmm, pmm.slab, pmm.regions, mem.frames.Values
      ensures Valid()
      ensures table != 0 && size == Page ==> (State(), out) == MapStep(old(State()), va, pa, flags)
      ensures table == 0 || size != Page ==>
                && State() == old(State())
                && out == if table == 0 then NullRoot else if size == Other then InvalidType else Unimplemented
    {
      hide KInv, Pmm.Valid, Memory.Valid, Backed, Holds, MapStep, FlagsOk;
      if table == 0 {
        return NullRoot;
      }
      match size {
        case Page => out := MapSmallPage(va, pa, flags);
        case MegaPage => return Unimplemented;
        case GigaPage => return Unimplemented;
        case Other => return InvalidType;
      }
    }

    /** sv39_unmap. The branches for leaves at levels 2 and 1 are never taken: those entries are no leaves. */
    method Unmap(table: nat, va: u64) returns (out: UnmapOutcome)
      requires Valid() && (table == 0 || table == root)
      modifies this`dict, mem.frames.Values
      ensures Valid()
      ensures table == 0 ==> out == UnmapNullRoot && State() == old(State())
      ensures table != 0 ==> (State(), out) == UnmapStep(old(State()), va)
    {
      hide KInv, Pmm.Valid, Memory.Valid, Backed, Holds, LeafEntry, TableEntry, IsValid, IsLeaf, Paddr, PaddrUnmasked,
           Ppn,
           TreeOk, DictOk, VpnOf, IsAligned, Aligned;
      if table == 0 {
        return UnmapNullRoot;
      }
      AlignedTest(va);
      if !IsAligned(va) {
        return UnmapUnaligned;
      }
      var v := VpnOf(va);
      VpnInRange(va);
      var found, l0, l0Entry := FindLeaf(v);
      if !found {
        return MappingDoesntExist;
      }
      UnmapKeeps(State(), root, nodes, va);
      EraseLeaf(l0, v);
      return Unmapped(Paddr(l0Entry));
    }

    /** The three reads of sv39_unmap, down to the level-0 entry of a page number. */
    method FindLeaf(v: Vpn) returns (found: bool, l0: nat, l0Entry: nat)
      requires Valid() && v.i2 < ENTRIES && v.i1 < ENTRIES && v.i0 < ENTRIES
      ensures found <==> v in dict
      ensures found ==> Low(v.i2, v.i1) in tables && l0 == tables[Low(v.i2, v.i1)] && Paddr(l0Entry) == dict[v].frame
    {
      hide KInv, Pmm.Valid, Memory.Valid, Backed, Holds, LeafEntry, TableEntry, IsValid, IsLeaf, Paddr, PaddrUnmasked,
           Ppn, TreeOk, DictOk;
      l0, l0Entry := 0, 0;
      KParts(State(), root, nodes);
      ClosedTree(State(), root, nodes, v);
      RootPage(tables, root);
      ReadParent(mem.Snapshot(), tables, dict, root, Mid(v.i2));
      var l2Entry := mem.Load(root, v.i2);
      if !IsValid(l2Entry) {
        return false, l0, l0Entry;
      }
      assert !IsLeaf(l2Entry);
      var l1 := Paddr(l2Entry);
      ReadParent(mem.Snapshot(), tables, dict, root, Low(v.i2, v.i1));
      var l1Entry := mem.Load(l1, v.i1);
      if !IsValid(l1Entry) {
        return false, l0, l0Entry;
      }
      assert !IsLeaf(l1Entry);
      l0 := Paddr(l1Entry);
      LeafSlot(mem.Snapshot(), tables, dict, root, v);
      l0Entry := mem.Load(l0, v.i0);
      found := IsValid(l0Entry);
    }

    /** `l0[vpn[0]] = 0` */
    method EraseLeaf(l0: nat, v: Vpn)
      requires Valid() && v in dict && Low(v.i2, v.i1) in tables && l0 == tables[Low(v.i2, v.i1)] && v.i0 < ENTRIES
      requires KInv(State().(dict := dict - {v}), root, nodes)
      modifies this`dict, mem.frames.Values
      ensures Valid() && State() == old(State()).(dict := old(dict) - {v})
    {
      hide KInv, Pmm.Valid, Memory.Valid, Backed, Holds, LeafEntry, IsValid, TreeOk, DictOk, Stored;
      KParts(State(), root, nodes);
      LeafSlot(mem.Snapshot(), tables, dict, root, v);
      ghost var dict' := dict - {v};
      LeafKeepsHolds(mem.Snapshot(), tables, dict, root, v, 0, dict');
      mem.Store(l0, v.i0, 0);
      dict := dict';
    }

    /** sv39_virt_to_phys: the walk from level 2 down always ends at a leaf of level 0 or at an invalid entry. */
    method VirtToPhys(va: u64) returns (pa: Option<nat>)
      requires Valid()
      ensures pa == Translate(dict, va)
    {
      hide KInv, Pmm.Valid, Memory.Valid, Backed, Holds, LeafEntry, TableEntry, IsValid, IsLeaf, Paddr, PaddrUnmasked,
           Ppn,
           TreeOk, DictOk, VpnOf, PageOffset, Shl;
      var v := VpnOf(va);
      VpnInRange(va);
      KParts(State(), root, nodes);
      ClosedTree(State(), root, nodes, v);
      RootPage(tables, root);
      var table := root;
      var level := 2;
      while true
        invariant 0 <= level <= 2
        invariant level == 2 ==> table == root
        invariant level == 1 ==> Mid(v.i2) in tables && table == tables[Mid(v.i2)]
        invariant level == 0 ==> Low(v.i2, v.i1) in tables && table == tables[Low(v.i2, v.i1)]
        decreases level
      {
        EntryAtLevel(mem.Snapshot(), tables, dict, root, v, level);
        var pte := mem.Load(table, Index(v, level));
        if !IsValid(pte) {
          return None;
        }
        if IsLeaf(pte) {
          return Some(Or(LeafAddress(level, Ppn(pte), v), PageOffset(va)));
        }
        table := Shl(Ppn(pte), 12);
        level := level - 1;
      }
    }
  }
}
