/** When a sequence of identity mappings succeeds: the loops of kernel_id_map_range (src/octiron/entry.c:25-38),
    of kinit over its six ranges (:98-107), and over the device tree blob.
  */
module MapLists {
  import opened Words
  import opened Extents
  import opened Ptes
  import opened Sv39Spec
  import opened PmmSpec
  import opened PagingSpec
  import opened RangeSpec

  /** One page to be mapped to itself. */
  datatype Request = Request(page: u64, flags: nat)

  ghost predicate RequestsOk(reqs: seq<Request>) {
    forall q :: q in reqs ==> Aligned(q.page) && q.page < LIMIT && FlagsOk(q.flags)
  }

  /** The pages one after the other, up to the first failure. */
  function MapList(k: Kernel, reqs: seq<Request>): (Kernel, bool)
    decreases reqs
  {
    if reqs == [] then (k, true)
    else
      var (k', out) := MapStep(k, reqs[0].page, reqs[0].page, reqs[0].flags);
      if out != Mapped then (k', false) else MapList(k', reqs[1..])
  }

  function TablesOf(v: Vpn): set<Node> {
    {Mid(v.i2), Low(v.i2, v.i1)}
  }

  /** The tables that the pages go through. */
  function Needs(reqs: seq<Request>): set<Node> {
    if reqs == [] then {} else TablesOf(VpnOf(reqs[0].page)) + Needs(reqs[1..])
  }

  function Lacking(tables: Tables, reqs: seq<Request>): set<Node> {
    Needs(reqs) - tables.Keys
  }

  /** No two pages have the same page number. */
  ghost predicate Apart(reqs: seq<Request>) {
    forall i, j :: 0 <= i < j < |reqs| ==> VpnOf(reqs[i].page) != VpnOf(reqs[j].page)
  }

  ghost predicate Unmapped(dict: Dict, reqs: seq<Request>) {
    forall q :: q in reqs ==> VpnOf(q.page) !in dict
  }

  /** There is memory, and there are list nodes if any are needed, for the tables that are lacking. */
  predicate TablesFit(k: Kernel, reqs: seq<Request>) {
    Spare(k.w.s, Lacking(k.tables, reqs))
  }

  ghost predicate CanMap(k: Kernel, reqs: seq<Request>) {
    Unmapped(k.dict, reqs) && Apart(reqs) && TablesFit(k, reqs)
  }

  // --- one page ------------------------------------------------------------------------------

  lemma MissingIsLacking(tables: Tables, v: Vpn)
    ensures |TablesOf(v) - tables.Keys| == Missing(tables, v)
  {
    var mid, low := Mid(v.i2), Low(v.i2, v.i1);
    var s := (if mid in tables then {} else {mid}) + (if low in tables then {} else {low});
    assert TablesOf(v) - tables.Keys == s;
  }

  /** What mapping one page does to tables, memory and nodes. */
  lemma OnePage(k: Kernel, root: nat, nodes: nat, page: u64, flags: nat)
    requires KInv(k, root, nodes) && Aligned(page) && page < LIMIT && FlagsOk(flags)
    ensures var (k', out) := MapStep(k, page, page, flags);
            var lack := TablesOf(VpnOf(page)) - k.tables.Keys;
            && KInv(k', root, nodes)
            && (out == Mapped <==>
                  && VpnOf(page) !in k.dict
                  && k.w.s.free >= PAGE * |lack|
                  && (lack != {} ==> k.w.s.nodes >= SLAB_RESERVE))
            && (out == Mapped ==>
                  && k'.tables.Keys == k.tables.Keys + lack
                  && k'.w.s.free + PAGE * |lack| == k.w.s.free
                  && k'.dict == k.dict[VpnOf(page) := Mapping(page, flags)]
                  && k'.w.s.nodes >= k.w.s.nodes
                  && (lack == {} ==> k'.w == k.w))
  {
    hide KInv, MapStep, VpnOf, FlagsOk, Missing;
    MapKeeps(k, root, nodes, page, page, flags);
    MapSucceedsIff(k, root, nodes, page, page, flags);
    var v := VpnOf(page);
    MissingIsLacking(k.tables, v);
    NoneMissing(k.tables, v);
    var (k', out) := MapStep(k, page, page, flags);
    if out == Mapped {
      ClosedTree(k', root, nodes, v);
      TablesGrown(k.tables, k'.tables, v);
      if Missing(k.tables, v) == 0 {
        MapWithTables(k, page, flags);
      }
    }
  }

  lemma NoneMissing(tables: Tables, v: Vpn)
    ensures TablesOf(v) - tables.Keys == {} <==> Missing(tables, v) == 0
    ensures Missing(tables, v) == 0 <==> Mid(v.i2) in tables && Low(v.i2, v.i1) in tables
  {
    assert Mid(v.i2) in TablesOf(v) && Low(v.i2, v.i1) in TablesOf(v);
    if Mid(v.i2) !in tables {
      assert Mid(v.i2) in TablesOf(v) - tables.Keys;
    }
    if Low(v.i2, v.i1) !in tables {
      assert Low(v.i2, v.i1) in TablesOf(v) - tables.Keys;
    }
  }

  lemma TablesGrown(tables: Tables, tables': Tables, v: Vpn)
    requires forall q :: q in tables ==> q in tables'
    requires forall q :: q in tables' && q !in tables ==> q == Mid(v.i2) || q == Low(v.i2, v.i1)
    requires Mid(v.i2) in tables' && Low(v.i2, v.i1) in tables'
    ensures tables'.Keys == tables.Keys + (TablesOf(v) - tables.Keys)
    ensures |tables'| == |tables| + |TablesOf(v) - tables.Keys|
  {
    assert tables'.Keys == tables.Keys + (TablesOf(v) - tables.Keys);
    assert |tables'| == |tables'.Keys| && |tables| == |tables.Keys|;
  }

  // --- the list ------------------------------------------------------------------------------

  lemma ApartStep(reqs: seq<Request>)
    requires reqs != []
    ensures Apart(reqs) <==>
              Apart(reqs[1..]) && forall q :: q in reqs[1..] ==> VpnOf(q.page) != VpnOf(reqs[0].page)
  {
    hide VpnOf;
    var rest := reqs[1..];
    assert forall j :: 0 <= j < |rest| ==> rest[j] == reqs[j + 1];
    if Apart(reqs) {
      forall q | q in rest
        ensures VpnOf(q.page) != VpnOf(reqs[0].page)
      {
        var j :| 0 <= j < |rest| && rest[j] == q;
        assert VpnOf(reqs[0].page) != VpnOf(reqs[j + 1].page);
      }
    }
    if Apart(rest) && forall q :: q in rest ==> VpnOf(q.page) != VpnOf(reqs[0].page) {
      forall i, j | 0 <= i < j < |reqs|
        ensures VpnOf(reqs[i].page) != VpnOf(reqs[j].page)
      {
        assert reqs[j] == rest[j - 1];
        if i > 0 {
          assert reqs[i] == rest[i - 1];
        } else {
          assert rest[j - 1] in rest;
        }
      }
    }
  }

  lemma UnmappedStep(k: Kernel, k1: Kernel, reqs: seq<Request>)
    requires reqs != []
    requires VpnOf(reqs[0].page) !in k.dict
    requires k1.dict == k.dict[VpnOf(reqs[0].page) := Mapping(reqs[0].page, reqs[0].flags)]
    ensures Unmapped(k.dict, reqs) && Apart(reqs) <==> Unmapped(k1.dict, reqs[1..]) && Apart(reqs[1..])
  {
    hide VpnOf, Apart;
    ApartStep(reqs);
    assert forall q :: q in reqs <==> q == reqs[0] || q in reqs[1..];
  }

  /** Memory and nodes for the first page and then for the rest are memory and nodes for all. */
  lemma FitStep(k: Kernel, k1: Kernel, reqs: seq<Request>)
    requires reqs != []
    requires var lack := TablesOf(VpnOf(reqs[0].page)) - k.tables.Keys;
             && k1.tables.Keys == k.tables.Keys + lack
             && k1.w.s.free + PAGE * |lack| == k.w.s.free
             && k1.w.s.nodes >= k.w.s.nodes
             && (lack == {} ==> k1.w == k.w)
             && (lack != {} ==> k.w.s.nodes >= SLAB_RESERVE)
    ensures TablesFit(k, reqs) <==> TablesFit(k1, reqs[1..])
  {
    hide VpnOf, TablesOf, Needs;
    LackingStep(k.tables, k1.tables, reqs);
  }

  lemma LackingStep(tables: Tables, tables1: Tables, reqs: seq<Request>)
    requires reqs != [] && tables1.Keys == tables.Keys + (TablesOf(VpnOf(reqs[0].page)) - tables.Keys)
    ensures var lack, rest := TablesOf(VpnOf(reqs[0].page)) - tables.Keys, Lacking(tables1, reqs[1..]);
            && Lacking(tables, reqs) == lack + rest
            && |Lacking(tables, reqs)| == |lack| + |rest|
  {
    hide VpnOf, TablesOf;
    WithoutFirst(TablesOf(VpnOf(reqs[0].page)), Needs(reqs[1..]), tables.Keys, tables1.Keys);
  }

  lemma LackingFirst(tables: Tables, reqs: seq<Request>)
    requires reqs != []
    ensures var lack := TablesOf(VpnOf(reqs[0].page)) - tables.Keys;
            lack <= Lacking(tables, reqs) && |lack| <= |Lacking(tables, reqs)|
  {
    hide VpnOf, TablesOf;
    var lack, all := TablesOf(VpnOf(reqs[0].page)) - tables.Keys, Lacking(tables, reqs);
    assert lack <= all;
    SubsetSize(lack, all);
  }

  /** A sequence of pages is mapped completely exactly when their page numbers are unmapped and pairwise
      distinct, and the tables they lack fit into free memory. */
  lemma {:induction false} MapListIff(k: Kernel, root: nat, nodes: nat, reqs: seq<Request>)
    requires KInv(k, root, nodes) && RequestsOk(reqs)
    ensures MapList(k, reqs).1 <==> CanMap(k, reqs)
    decreases reqs
  {
    hide KInv, MapStep, VpnOf, FlagsOk, Unmapped, Apart, TablesFit, Lacking, Aligned, TablesOf;
    if reqs == [] {
      NothingToMap(k);
    } else {
      var q := reqs[0];
      OnePage(k, root, nodes, q.page, q.flags);
      var (k1, out) := MapStep(k, q.page, q.page, q.flags);
      if out == Mapped {
        MapListIff(k1, root, nodes, reqs[1..]);
        UnmappedStep(k, k1, reqs);
        FitStep(k, k1, reqs);
      } else {
        FirstFails(k, reqs);
      }
    }
  }

  lemma NothingToMap(k: Kernel)
    ensures CanMap(k, [])
  {
  }

  lemma FirstFails(k: Kernel, reqs: seq<Request>)
    requires reqs != []
    requires var lack := TablesOf(VpnOf(reqs[0].page)) - k.tables.Keys;
             || VpnOf(reqs[0].page) in k.dict
             || k.w.s.free < PAGE * |lack|
             || (lack != {} && k.w.s.nodes < SLAB_RESERVE)
    ensures !CanMap(k, reqs)
  {
    hide VpnOf, TablesOf, Apart, Needs;
    LackingFirst(k.tables, reqs);
    assert reqs[0] in reqs;
  }

  lemma {:induction false} MapListConcat(k: Kernel, a: seq<Request>, b: seq<Request>)
    ensures MapList(k, a + b) == if MapList(k, a).1 then MapList(MapList(k, a).0, b) else MapList(k, a)
    decreases a
  {
    hide MapStep;
    if a == [] {
      assert a + b == b;
    } else {
      assert (a + b)[1..] == a[1..] + b;
      var (k1, out) := MapStep(k, a[0].page, a[0].page, a[0].flags);
      if out == Mapped {
        MapListConcat(k1, a[1..], b);
      }
    }
  }

  /** Mapping a list maps no other page. */
  lemma {:induction false} MapListOnly(k: Kernel, reqs: seq<Request>, v: Vpn)
    requires v in MapList(k, reqs).0.dict && v !in k.dict
    ensures exists q :: q in reqs && VpnOf(q.page) == v
    decreases reqs
  {
    hide VpnOf, Install, Aligned;
    var (k1, out) := MapStep(k, reqs[0].page, reqs[0].page, reqs[0].flags);
    if v in k1.dict {
      MapStepOnly(k, reqs[0], v);
      assert reqs[0] in reqs;
    } else {
      MapListOnly(k1, reqs[1..], v);
      var q :| q in reqs[1..] && VpnOf(q.page) == v;
      assert q in reqs;
    }
  }

  lemma MapStepOnly(k: Kernel, q: Request, v: Vpn)
    requires v !in k.dict && v in MapStep(k, q.page, q.page, q.flags).0.dict
    ensures VpnOf(q.page) == v
  {
    hide VpnOf, AllocStep, Step, Aligned;
  }

  // --- ranges --------------------------------------------------------------------------------

  /** The pages of a range. */
  function Pages(from: nat, end: nat, flags: nat): seq<Request>
    requires end <= LIMIT
    decreases end - from
  {
    if from >= end then [] else [Request(from, flags)] + Pages(from + PAGE, end, flags)
  }

  lemma {:induction false} MapPagesIsList(k: Kernel, from: nat, end: nat, flags: nat)
    requires end <= LIMIT
    ensures MapPages(k, from, end, flags) == MapList(k, Pages(from, end, flags))
    decreases end - from
  {
    hide MapStep;
    if from < end {
      var (k', out) := MapStep(k, from, from, flags);
      if out == Mapped {
        MapPagesIsList(k', from + PAGE, end, flags);
      }
      assert Pages(from, end, flags)[1..] == Pages(from + PAGE, end, flags);
    }
  }

  lemma {:induction false} PagesAre(from: nat, end: nat, flags: nat, q: Request)
    requires end <= LIMIT && Aligned(from)
    ensures q in Pages(from, end, flags) <==> PageIn(q.page, from, end) && q.flags == flags
    decreases end - from
  {
    hide PageIn, Aligned;
    if from < end {
      StepAligned(from);
      PagesAre(from + PAGE, end, flags, q);
      SplitRange(q.page, from, end);
    } else {
      NoPages(q.page, from, end);
    }
  }

  lemma NoPages(p: nat, from: nat, end: nat)
    requires from >= end
    ensures !PageIn(p, from, end)
  {
  }

  lemma PagesOk(from: nat, end: nat, flags: nat)
    requires end <= LIMIT && Aligned(from) && FlagsOk(flags)
    ensures RequestsOk(Pages(from, end, flags))
  {
    hide FlagsOk, Pages;
    forall q | q in Pages(from, end, flags)
      ensures Aligned(q.page) && q.page < LIMIT && q.flags == flags
    {
      PagesAre(from, end, flags, q);
    }
  }

  const SPAN: nat := 0x80_0000_0000  // the 2^39 bytes that page numbers tell apart

  /** The page numbers of a range are distinct exactly when it is no longer than 2^39 bytes. */
  lemma PagesApartIff(from: nat, end: nat, flags: nat)
    requires end <= LIMIT && Aligned(from) && from <= end
    ensures Apart(Pages(from, end, flags)) <==> end - from <= SPAN
  {
    hide Pages, Aligned, VpnOf;
    PageCount(from, end, flags);
    var reqs := Pages(from, end, flags);
    var n := |reqs|;
    forall i, j | 0 <= i < j < n
      ensures reqs[i].page == from + PAGE * i && reqs[j].page == from + PAGE * j
      ensures VpnOf(reqs[i].page) == VpnOf(reqs[j].page) <==> (j - i) % 0x800_0000 == 0
    {
      PageAt(from, end, flags, i);
      PageAt(from, end, flags, j);
      SamePageNumber(from, i, j);
    }
    if end - from > SPAN {
      assert 0 < 0x800_0000 < n;
      assert VpnOf(reqs[0].page) == VpnOf(reqs[0x800_0000].page);
    }
  }

  lemma {:induction false} PageCount(from: nat, end: nat, flags: nat)
    requires end <= LIMIT
    ensures var n := |Pages(from, end, flags)|;
            if from >= end then n == 0 else PAGE * (n - 1) < end - from <= PAGE * n
    decreases end - from
  {
    if from < end {
      PageCount(from + PAGE, end, flags);
    }
  }

  lemma {:induction false} PageAt(from: nat, end: nat, flags: nat, i: nat)
    requires end <= LIMIT && i < |Pages(from, end, flags)|
    ensures Pages(from, end, flags)[i].page == from + PAGE * i
    decreases i
  {
    if i > 0 {
      PageAt(from + PAGE, end, flags, i - 1);
    }
  }

  lemma SamePageNumber(from: nat, i: nat, j: nat)
    requires Aligned(from) && i < j && from + PAGE * j < LIMIT
    ensures VpnOf(from + PAGE * i) == VpnOf(from + PAGE * j) <==> (j - i) % 0x800_0000 == 0
  {
    hide VpnOf;
    SameVpn(from + PAGE * i, from + PAGE * j);
    var n := from / PAGE;
    assert (from + PAGE * i) / PAGE == n + i && (from + PAGE * j) / PAGE == n + j;
    ModDifference(n + i, n + j, 0x800_0000);
  }

  lemma ModDifference(a: nat, b: nat, m: nat)
    requires a <= b && m > 0
    ensures a % m == b % m <==> (b - a) % m == 0
  {
    var x, y := a / m, b / m;
    assert a == x * m + a % m && b == y * m + b % m;
    MulDistributes(y, x, m);
    if a % m == b % m {
      MulOrder(x, y, m, a % m);
      MultipleMod(y - x, m);
    } else if (b - a) % m == 0 {
      var z := (b - a) / m;
      MultipleOf(b - a, m);
      MulDistributes(x, z, m);
      DivModUnique(b, m, x + z, a % m);
    }
  }

  lemma MulOrder(x: nat, y: nat, m: nat, r: nat)
    requires m > 0 && x * m + r <= y * m + r
    ensures x <= y
  {
    if x > y {
      MulMonotone(y + 1, x, m);
      MulDistributes(y, 1, m);
    }
  }

  /** None of the pages is mapped, the range is no longer than 2^39 bytes, and the tables it lacks fit. */
  ghost predicate CanMapRange(k: Kernel, from: nat, end: nat, flags: nat)
    requires end <= LIMIT
  {
    && (forall p: u64 :: PageIn(p, from, end) ==> VpnOf(p) !in k.dict)
    && end - from <= SPAN
    && TablesFit(k, Pages(from, end, flags))
  }

  /** Exactly then a range becomes mapped: every page to itself, and no other page changes. */
  lemma MapPagesSucceedsIff(k: Kernel, root: nat, nodes: nat, from: nat, end: nat, flags: nat)
    requires KInv(k, root, nodes) && end <= LIMIT && FlagsOk(flags) && Aligned(from) && from <= end
    ensures var (k', ok) := MapPages(k, from, end, flags);
            && (ok <==> CanMapRange(k, from, end, flags))
            && (ok ==> MapsRange(k.dict, k'.dict, from, end, flags))
            && KInv(k', root, nodes) && Accounted(k') == Accounted(k)
  {
    hide KInv, VpnOf, FlagsOk, Aligned, MapPages, MapList, Pages, Apart, TablesFit, PageIn, MapsRange, Accounted;
    MapPagesMeaning(k, root, nodes, from, end, flags);
    MapPagesIsList(k, from, end, flags);
    PagesOk(from, end, flags);
    MapListIff(k, root, nodes, Pages(from, end, flags));
    PagesApartIff(from, end, flags);
    PagesUnmapped(k.dict, from, end, flags);
  }

  lemma PagesUnmapped(dict: Dict, from: nat, end: nat, flags: nat)
    requires end <= LIMIT && Aligned(from)
    ensures Unmapped(dict, Pages(from, end, flags)) <==> forall p: u64 :: PageIn(p, from, end) ==> VpnOf(p) !in dict
  {
    hide VpnOf, Pages, PageIn, Aligned;
    forall q
      ensures q in Pages(from, end, flags) <==> PageIn(q.page, from, end) && q.flags == flags
    {
      PagesAre(from, end, flags, q);
    }
    if Unmapped(dict, Pages(from, end, flags)) {
      forall p: u64 | PageIn(p, from, end)
        ensures VpnOf(p) !in dict
      {
        assert Request(p, flags) in Pages(from, end, flags);
      }
    }
  }

  // --- several ranges ------------------------------------------------------------------------

  lemma ApartConcat(a: seq<Request>, b: seq<Request>)
    ensures Apart(a + b) <==>
              && Apart(a) && Apart(b)
              && forall p, q :: p in a && q in b ==> VpnOf(p.page) != VpnOf(q.page)
  {
    hide VpnOf;
    var c := a + b;
    if Apart(c) {
      forall i, j | 0 <= i < j < |b|
        ensures VpnOf(b[i].page) != VpnOf(b[j].page)
      {
        assert c[|a| + i] == b[i] && c[|a| + j] == b[j];
      }
      forall i, j | 0 <= i < j < |a|
        ensures VpnOf(a[i].page) != VpnOf(a[j].page)
      {
        assert c[i] == a[i] && c[j] == a[j];
      }
      forall p, q | p in a && q in b
        ensures VpnOf(p.page) != VpnOf(q.page)
      {
        var i :| 0 <= i < |a| && a[i] == p;
        var j :| 0 <= j < |b| && b[j] == q;
        assert c[i] == p && c[|a| + j] == q;
      }
    }
    if Apart(a) && Apart(b) && forall p, q :: p in a && q in b ==> VpnOf(p.page) != VpnOf(q.page) {
      forall i, j | 0 <= i < j < |c|
        ensures VpnOf(c[i].page) != VpnOf(c[j].page)
      {
        assert c[i] == if i < |a| then a[i] else b[i - |a|];
        assert c[j] == if j < |a| then a[j] else b[j - |a|];
      }
    }
  }

  /** Below 2^39 different pages have different page numbers. */
  lemma LowPages(p: u64, q: u64)
    requires Aligned(p) && Aligned(q) && p < SPAN && q < SPAN
    ensures VpnOf(p) == VpnOf(q) <==> p == q
  {
    hide VpnOf;
    SameVpn(p, q);
    DivModUnique(p / PAGE, 0x800_0000, 0, p / PAGE);
    DivModUnique(q / PAGE, 0x800_0000, 0, q / PAGE);
  }
}
