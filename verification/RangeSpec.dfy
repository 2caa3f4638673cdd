/** Mapping and unmapping a range of pages one after the other: the loops of kernel_id_map_range
    (src/octiron/entry.c:25-38) and of the device tree mapping (device_tree.c:721-745, 833-839).
  */
module RangeSpec {
  import opened Words
  import opened Extents
  import opened Ptes
  import opened Sv39Spec
  import opened PmmSpec
  import opened PagingSpec

  /** `for (pa = from; pa < end; pa += PAGE) sv39_map(root, pa, pa, flags)`, up to the first failure. */
  function MapPages(k: Kernel, from: nat, end: nat, flags: nat): (Kernel, bool)
    requires end <= LIMIT
    decreases end - from
  {
    if from >= end then (k, true)
    else
      var (k', out) := MapStep(k, from, from, flags);
      if out != Mapped then (k', false) else MapPages(k', from + PAGE, end, flags)
  }

  /** `for (pa = from; pa < end; pa += PAGE) sv39_unmap(root, pa)`, up to the first failure. */
  function UnmapPages(k: Kernel, from: nat, end: nat): (Kernel, bool)
    requires end <= LIMIT
    decreases end - from
  {
    if from >= end then (k, true)
    else
      var (k', out) := UnmapStep(k, from);
      if !out.Unmapped? then (k', false) else UnmapPages(k', from + PAGE, end)
  }

  predicate PageIn(p: nat, from: nat, end: nat) {
    Aligned(p) && from <= p < end
  }

  /** `dict'` maps the pages of the range to themselves and is `dict` everywhere else; none was mapped. */
  ghost predicate MapsRange(dict: Dict, dict': Dict, from: nat, end: nat, flags: nat)
    requires end <= LIMIT
  {
    && (forall p: u64 :: PageIn(p, from, end) ==>
          VpnOf(p) !in dict && VpnOf(p) in dict' && dict'[VpnOf(p)] == Mapping(p, flags))
    && (forall v :: (forall p: u64 :: PageIn(p, from, end) ==> VpnOf(p) != v) ==>
          (v in dict' <==> v in dict) && (v in dict ==> dict'[v] == dict[v]))
  }

  /** A range that maps completely becomes an identity mapping, and no other page changes. */
  lemma {:induction false} MapPagesMeaning(k: Kernel, root: nat, nodes: nat, from: nat, end: nat, flags: nat)
    requires KInv(k, root, nodes) && end <= LIMIT && FlagsOk(flags) && Aligned(from)
    ensures var (k', ok) := MapPages(k, from, end, flags);
            && KInv(k', root, nodes)
            && Accounted(k') == Accounted(k)
            && (forall n :: n in k.tables ==> n in k'.tables && k'.tables[n] == k.tables[n])
            && (ok ==> MapsRange(k.dict, k'.dict, from, end, flags))
    decreases end - from
  {
    hide KInv, MapStep, VpnOf, FlagsOk, Aligned, MapsRange, Accounted;
    if from < end {
      MapKeeps(k, root, nodes, from, from, flags);
      StepAligned(from);
      var (k1, out) := MapStep(k, from, from, flags);
      if out == Mapped {
        MapPagesMeaning(k1, root, nodes, from + PAGE, end, flags);
        if MapPages(k1, from + PAGE, end, flags).1 {
          RangeOneMore(k.dict, k1.dict, MapPages(k1, from + PAGE, end, flags).0.dict, from, end, flags);
        }
      }
    } else {
      EmptyRange(k.dict, from, end, flags);
    }
  }

  /** Mapping a range, even one that fails half-way, changes no page that is mapped already. */
  lemma {:induction false} MapPagesGrows(k: Kernel, root: nat, nodes: nat, from: nat, end: nat, flags: nat, v: Vpn)
    requires KInv(k, root, nodes) && end <= LIMIT && FlagsOk(flags) && v in k.dict
    ensures var dict := MapPages(k, from, end, flags).0.dict; v in dict && dict[v] == k.dict[v]
    decreases end - from
  {
    hide KInv, MapStep, VpnOf, FlagsOk, Accounted;
    if from < end {
      MapKeeps(k, root, nodes, from, from, flags);
      var (k1, out) := MapStep(k, from, from, flags);
      if out == Mapped {
        MapPagesGrows(k1, root, nodes, from + PAGE, end, flags, v);
      }
    }
  }

  lemma StepAligned(p: nat)
    requires Aligned(p)
    ensures Aligned(p + PAGE)
  {
  }

  lemma EmptyRange(dict: Dict, from: nat, end: nat, flags: nat)
    requires from >= end && end <= LIMIT
    ensures MapsRange(dict, dict, from, end, flags)
  {
    hide VpnOf;
  }

  lemma SplitRange(p: nat, from: nat, end: nat)
    requires Aligned(from)
    ensures PageIn(p, from, end) <==> (p == from < end || PageIn(p, from + PAGE, end))
  {
  }

  lemma RangeOneMore(dict: Dict, dict1: Dict, dict2: Dict, from: nat, end: nat, flags: nat)
    requires Aligned(from) && from < end <= LIMIT
    requires VpnOf(from) !in dict && dict1 == dict[VpnOf(from) := Mapping(from, flags)]
    requires MapsRange(dict1, dict2, from + PAGE, end, flags)
    ensures MapsRange(dict, dict2, from, end, flags)
  {
    hide VpnOf, PageIn;
    var v0 := VpnOf(from);
    forall p: u64 | PageIn(p, from + PAGE, end)
      ensures VpnOf(p) != v0
    {
    }
    forall p: u64 | PageIn(p, from, end)
      ensures VpnOf(p) !in dict && VpnOf(p) in dict2 && dict2[VpnOf(p)] == Mapping(p, flags)
    {
      SplitRange(p, from, end);
    }
    forall v | forall p: u64 :: PageIn(p, from, end) ==> VpnOf(p) != v
      ensures (v in dict2 <==> v in dict) && (v in dict ==> dict2[v] == dict[v])
    {
      forall p: u64 | PageIn(p, from + PAGE, end)
        ensures VpnOf(p) != v
      {
        SplitRange(p, from, end);
      }
      SplitRange(from, from, end);
    }
  }

  // --- unmapping what was mapped -------------------------------------------------------------

  /** Unmapping a range of mapped pages with page numbers of their own succeeds and removes just them. */
  lemma {:induction false} UnmapPagesMeaning(
    k: Kernel, root: nat, nodes: nat, from: nat, end: nat, base: Dict, flags: nat)
    requires KInv(k, root, nodes) && end <= LIMIT && Aligned(from)
    requires MapsRange(base, k.dict, from, end, flags)
    ensures UnmapPages(k, from, end) == (k.(dict := base), true)
    ensures KInv(k.(dict := base), root, nodes)
    decreases end - from
  {
    hide KInv, UnmapStep, VpnOf, FlagsOk, Aligned, MapsRange;
    if from < end {
      UnmapKeeps(k, root, nodes, from);
      StepAligned(from);
      RangeOneLess(base, k.dict, from, end, flags);
      var k1 := UnmapStep(k, from).0;
      UnmapPagesMeaning(k1, root, nodes, from + PAGE, end, base, flags);
    } else {
      NothingMapped(base, k.dict, from, end, flags);
    }
  }

  lemma NothingMapped(base: Dict, dict: Dict, from: nat, end: nat, flags: nat)
    requires from >= end && end <= LIMIT && MapsRange(base, dict, from, end, flags)
    ensures dict == base
  {
    hide VpnOf;
    assert forall v :: (v in dict <==> v in base) && (v in base ==> dict[v] == base[v]);
  }

  lemma RangeOneLess(base: Dict, dict: Dict, from: nat, end: nat, flags: nat)
    requires Aligned(from) && from < end <= LIMIT && MapsRange(base, dict, from, end, flags)
    ensures VpnOf(from) in dict && MapsRange(base, dict - {VpnOf(from)}, from + PAGE, end, flags)
  {
    hide VpnOf, PageIn;
    var v0 := VpnOf(from);
    SplitRange(from, from, end);
    forall p: u64 | PageIn(p, from + PAGE, end)
      ensures VpnOf(p) !in base && VpnOf(p) in dict - {v0} && dict[VpnOf(p)] == Mapping(p, flags)
    {
      SplitRange(p, from, end);
      LaterPage(p, from, end);
      assert dict[v0] == Mapping(from, flags);
    }
    forall v | forall p: u64 :: PageIn(p, from + PAGE, end) ==> VpnOf(p) != v
      ensures var d := dict - {v0}; (v in d <==> v in base) && (v in base ==> d[v] == base[v])
    {
      if v != v0 {
        forall p: u64 | PageIn(p, from, end)
          ensures VpnOf(p) != v
        {
          SplitRange(p, from, end);
        }
      }
    }
  }

  lemma LaterPage(p: nat, from: nat, end: nat)
    requires PageIn(p, from + PAGE, end)
    ensures p > from
  {
  }

  /** Restoration: mapping a range and unmapping it again gives back the map, so every translation, although
      the tables have grown; and mapping the same range once more allocates nothing. */
  lemma MapUnmapRestores(k: Kernel, root: nat, nodes: nat, from: nat, end: nat, flags: nat)
    requires KInv(k, root, nodes) && end <= LIMIT && FlagsOk(flags) && Aligned(from)
    requires MapPages(k, from, end, flags).1
    ensures var k1 := MapPages(k, from, end, flags).0;
            var (k2, ok) := UnmapPages(k1, from, end);
            && ok && k2 == k1.(dict := k.dict)
            && (forall x: u64 :: Translate(k2.dict, x) == Translate(k.dict, x))
            && MapPages(k2, from, end, flags) == (k1, true)
  {
    hide KInv, VpnOf, MapPages, UnmapPages, MapsRange, FlagsOk, Answer;
    MapPagesMeaning(k, root, nodes, from, end, flags);
    var k1 := MapPages(k, from, end, flags).0;
    UnmapPagesMeaning(k1, root, nodes, from, end, k.dict, flags);
    RangeTables(k1, root, nodes, from, end, k.dict, flags);
    RemapAllocatesNothing(k1.(dict := k.dict), root, nodes, from, end, flags, k1.dict);
  }

  /** The tables for the pages of a range are all there. */
  ghost predicate HasTables(tables: Tables, from: nat, end: nat)
    requires end <= LIMIT
  {
    forall p: u64 :: PageIn(p, from, end) ==>
      Mid(VpnOf(p).i2) in tables && Low(VpnOf(p).i2, VpnOf(p).i1) in tables
  }

  lemma RangeTables(k: Kernel, root: nat, nodes: nat, from: nat, end: nat, base: Dict, flags: nat)
    requires KInv(k, root, nodes) && end <= LIMIT && MapsRange(base, k.dict, from, end, flags)
    ensures HasTables(k.tables, from, end)
  {
    hide KInv, VpnOf, PageIn;
    forall p: u64 | PageIn(p, from, end)
      ensures Mid(VpnOf(p).i2) in k.tables && Low(VpnOf(p).i2, VpnOf(p).i1) in k.tables
    {
      ClosedTree(k, root, nodes, VpnOf(p));
    }
  }

  lemma {:induction false} RemapAllocatesNothing(
    k: Kernel, root: nat, nodes: nat, from: nat, end: nat, flags: nat, dict: Dict)
    requires KInv(k, root, nodes) && end <= LIMIT && FlagsOk(flags) && Aligned(from)
    requires HasTables(k.tables, from, end) && MapsRange(k.dict, dict, from, end, flags)
    ensures MapPages(k, from, end, flags) == (k.(dict := dict), true)
    decreases end - from
  {
    hide KInv, MapStep, VpnOf, FlagsOk, Aligned, MapsRange, HasTables, PageIn;
    if from < end {
      FirstPage(k.dict, dict, k.tables, from, end, flags);
      MapWithTables(k, from, flags);
      MapKeeps(k, root, nodes, from, from, flags);
      StepAligned(from);
      var k1 := k.(dict := k.dict[VpnOf(from) := Mapping(from, flags)]);
      RangeRest(k.dict, dict, from, end, flags);
      TablesRest(k.tables, from, end);
      RemapAllocatesNothing(k1, root, nodes, from + PAGE, end, flags, dict);
    } else {
      NothingMapped(k.dict, dict, from, end, flags);
    }
  }

  lemma FirstPage(base: Dict, dict: Dict, tables: Tables, from: nat, end: nat, flags: nat)
    requires Aligned(from) && from < end <= LIMIT && MapsRange(base, dict, from, end, flags)
    requires HasTables(tables, from, end)
    ensures VpnOf(from) !in base && VpnOf(from) in dict && dict[VpnOf(from)] == Mapping(from, flags)
    ensures Mid(VpnOf(from).i2) in tables && Low(VpnOf(from).i2, VpnOf(from).i1) in tables
  {
    hide VpnOf, PageIn;
    SplitRange(from, from, end);
  }

  /** With its tables in place, mapping an unmapped page touches only the map. */
  lemma MapWithTables(k: Kernel, va: u64, flags: nat)
    requires Aligned(va) && VpnOf(va) !in k.dict
    requires Mid(VpnOf(va).i2) in k.tables && Low(VpnOf(va).i2, VpnOf(va).i1) in k.tables
    ensures MapStep(k, va, va, flags) == (k.(dict := k.dict[VpnOf(va) := Mapping(va, flags)]), Mapped)
  {
    hide VpnOf, AllocStep, Step;
  }

  lemma TablesRest(tables: Tables, from: nat, end: nat)
    requires Aligned(from) && from < end <= LIMIT && HasTables(tables, from, end)
    ensures HasTables(tables, from + PAGE, end)
  {
    hide VpnOf, PageIn;
    forall p: u64 | PageIn(p, from + PAGE, end)
      ensures Mid(VpnOf(p).i2) in tables && Low(VpnOf(p).i2, VpnOf(p).i1) in tables
    {
      SplitRange(p, from, end);
    }
  }

  lemma RangeRest(base: Dict, dict: Dict, from: nat, end: nat, flags: nat)
    requires Aligned(from) && from < end <= LIMIT && MapsRange(base, dict, from, end, flags)
    ensures MapsRange(base[VpnOf(from) := Mapping(from, flags)], dict, from + PAGE, end, flags)
  {
    hide VpnOf, PageIn;
    var v0 := VpnOf(from);
    SplitRange(from, from, end);
    forall p: u64 | PageIn(p, from + PAGE, end)
      ensures VpnOf(p) !in base && VpnOf(p) != v0 && VpnOf(p) in dict && dict[VpnOf(p)] == Mapping(p, flags)
    {
      SplitRange(p, from, end);
      LaterPage(p, from, end);
      assert dict[v0] == Mapping(from, flags);
    }
    forall v | forall p: u64 :: PageIn(p, from + PAGE, end) ==> VpnOf(p) != v
      ensures var d := base[v0 := Mapping(from, flags)]; (v in dict <==> v in d) && (v in d ==> dict[v] == d[v])
    {
      if v != v0 {
        forall p: u64 | PageIn(p, from, end)
          ensures VpnOf(p) != v
        {
          SplitRange(p, from, end);
        }
      }
    }
  }
}
