/** The three-level table tree and the partial map it stands for (src/octiron/paging.c). */
module Sv39Spec {
  import opened Words
  import opened Extents
  import opened Ptes
  import opened PhysicalMemory

  /** The places a table can have: the root, one table per level-2 index, one per pair of indices. */
  datatype Node = Root | Mid(i2: nat) | Low(i2: nat, i1: nat)

  datatype Mapping = Mapping(frame: nat, flags: nat)

  type Tables = map<Node, nat>  // the page of every installed table
  type Dict = map<Vpn, Mapping>

  predicate NodeOk(n: Node) {
    match n
    case Root => true
    case Mid(i2) => i2 < ENTRIES
    case Low(i2, i1) => i2 < ENTRIES && i1 < ENTRIES
  }

  /** A strict tree: closed under parents, each table on a page of its own. */
  ghost predicate TreeOk(tables: Tables, root: nat) {
    && Root in tables && tables[Root] == root
    && (forall n :: n in tables ==> NodeOk(n) && FrameOk(tables[n]))
    && (forall i2, i1 :: Low(i2, i1) in tables ==> Mid(i2) in tables)
    && (forall n, k :: n in tables && k in tables && n != k ==> tables[n] != tables[k])
  }

  ghost predicate DictOk(tables: Tables, dict: Dict) {
    forall v :: v in dict ==>
      && Low(v.i2, v.i1) in tables && v.i0 < ENTRIES
      && FrameOk(dict[v].frame) && FlagsOk(dict[v].flags)
  }

  /** The word a table holds at an index, given the tables and the map. */
  ghost function EntryAt(tables: Tables, dict: Dict, n: Node, i: nat): nat {
    match n
    case Root => if Mid(i) in tables then TableEntry(tables[Mid(i)]) else 0
    case Mid(i2) => if Low(i2, i) in tables then TableEntry(tables[Low(i2, i)]) else 0
    case Low(i2, i1) =>
      var v := Vpn(i2, i1, i);
      if v in dict then LeafEntry(dict[v].frame, dict[v].flags) else 0
  }

  ghost predicate TableHolds(m: Words512, page: nat, tables: Tables, dict: Dict, n: Node) {
    && page in m && |m[page]| == ENTRIES
    && forall i :: 0 <= i < ENTRIES ==> m[page][i] == EntryAt(tables, dict, n, i)
  }

  /** The tables in memory are those of the map, word for word. */
  ghost predicate Holds(m: Words512, tables: Tables, dict: Dict) {
    forall n :: n in tables ==> TableHolds(m, tables[n], tables, dict, n)
  }

  // --- reading an entry ----------------------------------------------------------------------

  /** A level-2 entry is absent or names the next table; it is never a leaf. */
  lemma ReadRoot(m: Words512, tables: Tables, dict: Dict, root: nat, i2: nat)
    requires TreeOk(tables, root) && Holds(m, tables, dict) && i2 < ENTRIES
    ensures root in m && |m[root]| == ENTRIES
    ensures var e := m[root][i2];
            && (IsValid(e) <==> Mid(i2) in tables)
            && (Mid(i2) in tables ==>
                  !IsLeaf(e) && Paddr(e) == PaddrUnmasked(e) == tables[Mid(i2)] && Ppn(e) == tables[Mid(i2)] / PAGE)
  {
    hide IsValid, IsLeaf, Ppn, Paddr, PaddrUnmasked, TableEntry, LeafEntry, FrameOk;
    assert TableHolds(m, tables[Root], tables, dict, Root);
    ZeroEntry();
    if Mid(i2) in tables {
      TableRoundTrip(tables[Mid(i2)]);
    }
  }

  /** So is a level-1 entry. */
  lemma ReadMid(m: Words512, tables: Tables, dict: Dict, root: nat, i2: nat, i1: nat)
    requires TreeOk(tables, root) && Holds(m, tables, dict) && i1 < ENTRIES && Mid(i2) in tables
    ensures tables[Mid(i2)] in m && |m[tables[Mid(i2)]]| == ENTRIES
    ensures var e := m[tables[Mid(i2)]][i1];
            && (IsValid(e) <==> Low(i2, i1) in tables)
            && (Low(i2, i1) in tables ==>
                  !IsLeaf(e) && Paddr(e) == PaddrUnmasked(e) == tables[Low(i2, i1)]
                      && Ppn(e) == tables[Low(i2, i1)] / PAGE)
  {
    hide IsValid, IsLeaf, Ppn, Paddr, PaddrUnmasked, TableEntry, LeafEntry, FrameOk;
    assert TableHolds(m, tables[Mid(i2)], tables, dict, Mid(i2));
    ZeroEntry();
    if Low(i2, i1) in tables {
      TableRoundTrip(tables[Low(i2, i1)]);
    }
  }

  /** A valid level-0 entry is a leaf. */
  lemma ReadLow(m: Words512, tables: Tables, dict: Dict, root: nat, v: Vpn)
    requires TreeOk(tables, root) && DictOk(tables, dict) && Holds(m, tables, dict)
    requires Low(v.i2, v.i1) in tables && v.i0 < ENTRIES
    ensures var page := tables[Low(v.i2, v.i1)]; page in m && |m[page]| == ENTRIES
    ensures var e := m[tables[Low(v.i2, v.i1)]][v.i0];
            && (IsValid(e) <==> v in dict)
            && (v in dict ==>
                  IsLeaf(e) && Paddr(e) == dict[v].frame && Ppn(e) == dict[v].frame / PAGE && Aligned(dict[v].frame))
  {
    hide IsValid, IsLeaf, Ppn, Paddr, PaddrUnmasked, TableEntry, LeafEntry;
    assert TableHolds(m, tables[Low(v.i2, v.i1)], tables, dict, Low(v.i2, v.i1));
    ZeroEntry();
    if v in dict {
      LeafRoundTrip(dict[v].frame, dict[v].flags);
    }
  }

  // --- writing an entry ----------------------------------------------------------------------

  /** Zeroing a page that is no table disturbs no table. */
  lemma ZeroKeepsHolds(m: Words512, tables: Tables, dict: Dict, root: nat, page: nat)
    requires TreeOk(tables, root) && Holds(m, tables, dict)
    requires Aligned(page) && forall n :: n in tables ==> tables[n] != page
    ensures Holds(Zeroed(m, page, PAGE), tables, dict)
    ensures page in m ==> TableHolds(Zeroed(m, page, PAGE), page, map[], map[], Root)
  {
    hide EntryAt, FrameOk;
    var m' := Zeroed(m, page, PAGE);
    forall n | n in tables
      ensures TableHolds(m', tables[n], tables, dict, n)
    {
      assert TableHolds(m, tables[n], tables, dict, n);
      PageApart(tables[n], page, tables[n]) by {
        FrameAligned(tables[n]);
      }
    }
    if page in m {
      assert m'[page] == Zeros();
      EmptyEntries();
    }
  }

  lemma EmptyEntries()
    ensures forall i :: EntryAt(map[], map[], Root, i) == 0
  {
  }

  lemma FrameAligned(p: nat)
    requires FrameOk(p)
    ensures Aligned(p)
  {
  }

  function Parent(n: Node): Node
    requires n != Root
  {
    if n.Mid? then Root else Mid(n.i2)
  }

  function Slot(n: Node): nat
    requires n != Root
  {
    if n.Mid? then n.i2 else n.i1
  }

  /** A new table node: its parent is there, it is not, and its page is zeroed and no other table's. */
  ghost predicate Fresh(m: Words512, tables: Tables, n: Node, page: nat) {
    && n != Root && NodeOk(n) && n !in tables && Parent(n) in tables
    && FrameOk(page) && page in m && m[page] == Zeros()
    && forall k :: k in tables ==> tables[k] != page
  }

  /** Pointing the parent's entry at a zeroed page installs a table without mappings. */
  lemma InstallKeepsHolds(m: Words512, tables: Tables, dict: Dict, root: nat, n: Node, page: nat)
    requires TreeOk(tables, root) && DictOk(tables, dict) && Holds(m, tables, dict) && Fresh(m, tables, n, page)
    ensures var p := tables[Parent(n)]; p in m && |m[p]| == ENTRIES && Slot(n) < ENTRIES && TableEntry(page) < WORD
    ensures Holds(Stored(m, tables[Parent(n)], Slot(n), TableEntry(page)), tables[n := page], dict)
  {
    hide FrameOk, FlagsOk, TableEntry, LeafEntry, Zeros;
    TableRoundTrip(page);
    var p := tables[Parent(n)];
    assert TableHolds(m, p, tables, dict, Parent(n));
    var m', tables' := Stored(m, p, Slot(n), TableEntry(page)), tables[n := page];
    forall k | k in tables'
      ensures TableHolds(m', tables'[k], tables', dict, k)
    {
      if k == n {
        NewTableHolds(m', tables, dict, root, n, page);
      } else {
        assert TableHolds(m, tables[k], tables, dict, k);
        EntriesElsewhere(tables, dict, n, page, k);
      }
    }
  }

  /** Which entries the new table changes. */
  lemma EntriesElsewhere(tables: Tables, dict: Dict, n: Node, page: nat, k: Node)
    requires n != Root && n !in tables
    ensures forall i: nat :: !(k == Parent(n) && i == Slot(n)) ==>
              EntryAt(tables[n := page], dict, k, i) == EntryAt(tables, dict, k, i)
    ensures EntryAt(tables[n := page], dict, Parent(n), Slot(n)) == TableEntry(page)
  {
    hide TableEntry, LeafEntry;
  }

  lemma NewTableHolds(m: Words512, tables: Tables, dict: Dict, root: nat, n: Node, page: nat)
    requires TreeOk(tables, root) && DictOk(tables, dict) && n != Root && n !in tables
    requires page in m && m[page] == Zeros()
    ensures TableHolds(m, page, tables[n := page], dict, n)
  {
    hide TableEntry, LeafEntry, FrameOk, FlagsOk;
  }

  /** Writing a level-0 entry changes the map at one page number and nowhere else. */
  lemma LeafKeepsHolds(m: Words512, tables: Tables, dict: Dict, root: nat, v: Vpn, e: nat, dict': Dict)
    requires TreeOk(tables, root) && Holds(m, tables, dict)
    requires Low(v.i2, v.i1) in tables && v.i0 < ENTRIES && e < WORD
    requires forall u :: u != v ==> (u in dict' <==> u in dict) && (u in dict ==> dict'[u] == dict[u])
    requires e == EntryAt(tables, dict', Low(v.i2, v.i1), v.i0)
    ensures var p := tables[Low(v.i2, v.i1)]; p in m && |m[p]| == ENTRIES
    ensures Holds(Stored(m, tables[Low(v.i2, v.i1)], v.i0, e), tables, dict')
  {
    hide FrameOk, TableEntry, LeafEntry;
    var n := Low(v.i2, v.i1);
    var p := tables[n];
    assert TableHolds(m, p, tables, dict, n);
    var m' := Stored(m, p, v.i0, e);
    forall k | k in tables
      ensures TableHolds(m', tables[k], tables, dict', k)
    {
      assert TableHolds(m, tables[k], tables, dict, k);
      LeavesElsewhere(tables, dict, dict', v, k);
    }
  }

  lemma LeavesElsewhere(tables: Tables, dict: Dict, dict': Dict, v: Vpn, k: Node)
    requires forall u :: u != v ==> (u in dict' <==> u in dict) && (u in dict ==> dict'[u] == dict[u])
    ensures forall i: nat :: !(k == Low(v.i2, v.i1) && i == v.i0) ==>
              EntryAt(tables, dict', k, i) == EntryAt(tables, dict, k, i)
  {
    hide TableEntry, LeafEntry;
  }
}
