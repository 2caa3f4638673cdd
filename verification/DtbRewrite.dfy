/** The rewrite pass (src/octiron/devices/device_tree/device_tree.c:439-505, 816-828) on the arrays that the
    parser built: properties are decoded in place, and cell sizes passed down along child and sibling pointers.
  */
module DtbRewrite {
  import opened Endian
  import opened Extents
  import opened DtbModel
  import opened DtbTree
  import opened DtbLayout
  import opened DtbDecode
  import opened DtbCells
  import opened DeviceTreeParser

  // --- the pass on the arrays ----------------------------------------------------------------

  function Erase(n: DtNode): DtNode {
    n.(addressCells := 0, sizeCells := 0)
  }

  /** The nodes but for their cell sizes, which is what the pass leaves alone. */
  function Erased(nodes: seq<DtNode>): (r: seq<DtNode>)
    ensures |r| == |nodes|
  {
    seq(|nodes|, i requires 0 <= i < |nodes| => Erase(nodes[i]))
  }

  /** Only the data of the properties from `lo` differ, and they are `datas`. */
  ghost predicate Redone(a: seq<DtProp>, b: seq<DtProp>, lo: nat, datas: seq<Data>) {
    && |a| == |b| && lo + |datas| <= |a|
    && (forall k :: 0 <= k < |a| ==> b[k] == if lo <= k < lo + |datas| then a[k].(data := datas[k - lo]) else a[k])
  }

  /** Only the cell sizes of the nodes from `lo` differ, and they are `cells`. */
  ghost predicate Recelled(a: seq<DtNode>, b: seq<DtNode>, lo: nat, cells: seq<Cells>) {
    && |a| == |b| && lo + |cells| <= |a|
    && (forall k :: 0 <= k < |a| ==>
          b[k] == if lo <= k < lo + |cells|
              then a[k].(addressCells := cells[k - lo].address, sizeCells := cells[k - lo].size)
                  else a[k])
  }

  /** Whatever the pass did so far, it changed only the data of properties from `lo` to `hi`. */
  ghost predicate OnlyData(a: seq<DtProp>, b: seq<DtProp>, lo: nat, hi: nat) {
    && |a| == |b|
    && (forall k :: 0 <= k < |a| ==> b[k] == if lo <= k < hi then a[k].(data := b[k].data) else a[k])
  }

  /** And only the cell sizes of nodes from `lo` to `hi`. */
  ghost predicate OnlyCells(a: seq<DtNode>, b: seq<DtNode>, lo: nat, hi: nat) {
    && |a| == |b|
    && (forall k :: 0 <= k < |a| ==>
          b[k] == if lo <= k < hi then a[k].(addressCells := b[k].addressCells, sizeCells := b[k].sizeCells) else a[k])
  }

  lemma OnlyDataTwice(a: seq<DtProp>, b: seq<DtProp>, c: seq<DtProp>, lo: nat, mid: nat, mid': nat, hi: nat)
    requires OnlyData(a, b, lo, mid) && OnlyData(b, c, mid', hi) && mid <= hi && lo <= mid'
    ensures OnlyData(a, c, lo, hi)
  {
    forall k | 0 <= k < |a|
      ensures c[k] == if lo <= k < hi then a[k].(data := c[k].data) else a[k]
    {
      assert b[k] == if lo <= k < mid then a[k].(data := b[k].data) else a[k];
    }
  }

  lemma OnlyCellsTwice(a: seq<DtNode>, b: seq<DtNode>, c: seq<DtNode>, lo: nat, mid: nat, mid': nat, hi: nat)
    requires OnlyCells(a, b, lo, mid) && OnlyCells(b, c, mid', hi) && mid <= hi && lo <= mid'
    ensures OnlyCells(a, c, lo, hi)
  {
    forall k | 0 <= k < |a|
      ensures c[k] == if lo <= k < hi then a[k].(addressCells := c[k].addressCells, sizeCells := c[k].sizeCells)
          else a[k]
    {
      assert b[k] == if lo <= k < mid then a[k].(addressCells := b[k].addressCells, sizeCells := b[k].sizeCells)
          else a[k];
    }
  }

  lemma RedoneIsOnlyData(a: seq<DtProp>, b: seq<DtProp>, lo: nat, datas: seq<Data>, from: nat, hi: nat)
    requires Redone(a, b, lo, datas) && from <= lo && lo + |datas| <= hi
    ensures OnlyData(a, b, from, hi)
  {
  }

  lemma RecelledIsOnlyCells(a: seq<DtNode>, b: seq<DtNode>, lo: nat, cells: seq<Cells>, from: nat, hi: nat)
    requires Recelled(a, b, lo, cells) && from <= lo && lo + |cells| <= hi
    ensures OnlyCells(a, b, from, hi)
  {
  }

  lemma OwnCells(a: seq<DtNode>, i: nat, ac: nat, sc: nat)
    requires i < |a|
    ensures OnlyCells(a, a[i := a[i].(addressCells := ac, sizeCells := sc)], i, i + 1)
  {
  }

  lemma RedoneNothing(a: seq<DtProp>, lo: nat)
    requires lo <= |a|
    ensures Redone(a, a, lo, [])
  {
  }

  lemma RecelledNothing(a: seq<DtNode>, lo: nat)
    requires lo <= |a|
    ensures Recelled(a, a, lo, [])
  {
  }

  lemma RedoneTwice(a: seq<DtProp>, b: seq<DtProp>, c: seq<DtProp>, lo: nat, d: seq<Data>, e: seq<Data>)
    requires Redone(a, b, lo, d) && Redone(b, c, lo + |d|, e)
    ensures Redone(a, c, lo, d + e)
  {
    forall k | 0 <= k < |a|
      ensures c[k] == if lo <= k < lo + |d + e| then a[k].(data := (d + e)[k - lo]) else a[k]
    {
      assert b[k] == if lo <= k < lo + |d| then a[k].(data := d[k - lo]) else a[k];
    }
  }

  lemma RecelledTwice(a: seq<DtNode>, b: seq<DtNode>, c: seq<DtNode>, lo: nat, d: seq<Cells>, e: seq<Cells>)
    requires Recelled(a, b, lo, d) && Recelled(b, c, lo + |d|, e)
    ensures Recelled(a, c, lo, d + e)
  {
    forall k | 0 <= k < |a|
      ensures c[k] == if lo <= k < lo + |d + e|
          then a[k].(addressCells := (d + e)[k - lo].address, sizeCells := (d + e)[k - lo].size)
                      else a[k]
    {
      assert b[k] == if lo <= k < lo + |d| then a[k].(addressCells := d[k - lo].address, sizeCells := d[k - lo].size)
          else a[k];
    }
  }

  /** One property ahead of those already decoded. */
  lemma RedoneBefore(a: seq<DtProp>, b: seq<DtProp>, lo: nat, d: Data, e: seq<Data>)
    requires lo < |a| && Redone(a, b, lo + 1, e)
    ensures b[lo] == a[lo] && Redone(a, b[lo := a[lo].(data := d)], lo, [d] + e)
  {
    var c := b[lo := a[lo].(data := d)];
    forall k | 0 <= k < |a|
      ensures c[k] == if lo <= k < lo + |[d] + e| then a[k].(data := ([d] + e)[k - lo]) else a[k]
    {
      assert b[k] == if lo + 1 <= k < lo + 1 + |e| then a[k].(data := e[k - lo - 1]) else a[k];
    }
  }

  lemma RecelledErased(a: seq<DtNode>, b: seq<DtNode>, lo: nat, cells: seq<Cells>)
    requires Recelled(a, b, lo, cells)
    ensures Erased(a) == Erased(b)
  {
  }

  /** Properties behind those decoded are untouched. */
  lemma RedoneBehind(a: seq<DtProp>, b: seq<DtProp>, lo: nat, datas: seq<Data>, i: nat, j: nat)
    requires Redone(a, b, lo, datas) && lo + |datas| <= i <= j <= |a|
    ensures b[i..j] == a[i..j]
  {
  }

  /** What earlier properties decoded to, put in front or behind. */
  function Around(ds: seq<Data>, r: Pass, es: seq<Data>): Pass {
    match r
    case Pass(d, used) => Pass(ds + d + es, used)
    case Failed(why) => r
  }

  lemma PropsTurn(strings: seq<byte>, ps: seq<TreeProp>, k: nat, ac: nat, sc: nat, used: nat, arena: nat, es: seq<Data>)
    requires 0 < k <= |ps| && arena < MAX_BLOB
    ensures var o := Decode(NameOf(strings, ps[k - 1]), RawOf(ps[k - 1].value), ac, sc, used, arena);
            Around([], PropsPass(strings, ps[..k], ac, sc, used, arena), es)
            == if o.Decoded? then Around([], PropsPass(strings, ps[..k - 1], ac, sc, o.used, arena), [o.data] + es)
                else Failed(o)
  {
    hide NameOf, Decode;
    assert ps[..k][..k - 1] == ps[..k - 1];
    var o := Decode(NameOf(strings, ps[k - 1]), RawOf(ps[k - 1].value), ac, sc, used, arena);
    if o.Decoded? {
      var r := PropsPass(strings, ps[..k - 1], ac, sc, o.used, arena);
      if r.Pass? {
        assert [] + (r.datas + [o.data]) + es == [] + r.datas + ([o.data] + es);
      }
    }
  }

  lemma CellNames(raw: Data, ac: nat, sc: nat, used: nat, arena: nat)
    requires raw.Raw? && arena < MAX_BLOB
    ensures var o := Decode(ADDRESS_CELLS, raw, ac, sc, used, arena);
            o.Decoded? ==> FirstU32(raw.value).Some? && o.data == AddressCells(FirstU32(raw.value).value)
    ensures var o := Decode(SIZE_CELLS, raw, ac, sc, used, arena);
            o.Decoded? ==> FirstU32(raw.value).Some? && o.data == SizeCells(FirstU32(raw.value).value)
    ensures ADDRESS_CELLS != SIZE_CELLS
  {
    hide FirstU32;
  }

  lemma DeclaredStep(strings: seq<byte>, ps: seq<TreeProp>, k: nat, name: seq<byte>, own: nat)
    requires 0 < k <= |ps|
    ensures NextCells(strings, ps[k - 1..], name, own)
         == if NameOf(strings, ps[k - 1]) == name then FirstU32(RawOf(ps[k - 1].value).value).GetOr(own)
            else NextCells(strings, ps[k..], name, own)
  {
    hide NameOf, FirstU32;
    assert ps[k - 1..][1..] == ps[k..];
  }

  /** The property at turn k is as the parser left it, and its `next` is the pointer of the next turn. */
  lemma PropAtTurn(
    strings: seq<byte>, props0: seq<DtProp>, props: seq<DtProp>, ps: seq<TreeProp>, pbase: nat, k: nat, ds: seq<Data>)
    requires 0 < k <= |ps| && pbase + |ps| <= |props0|
        && props0[pbase..pbase + |ps|] == PropArray(strings, ps, pbase, None)
    requires Redone(props0, props, pbase + k, ds)
    ensures |props| == |props0| && props[pbase + k - 1] == props0[pbase + k - 1]
    ensures props0[pbase + k - 1] == MakeProp(strings, ps[k - 1], LastProp(ps[..k - 1], pbase, None))
  {
    hide PropArray, NameOf, RawOf;
    PropArrayAt(strings, ps, pbase, None, k - 1);
    assert props0[pbase + k - 1] == props0[pbase..pbase + |ps|][k - 1];
  }

  lemma LoopStart(strings: seq<byte>, ps: seq<TreeProp>, name: seq<byte>, own: nat)
    ensures ps[..|ps|] == ps && NextCells(strings, ps[|ps|..], name, own) == own
  {
    assert ps[|ps|..] == [];
  }

  lemma LoopEnd(strings: seq<byte>, ps: seq<TreeProp>, ac: nat, sc: nat, used: nat, arena: nat, ds: seq<Data>)
    requires arena < MAX_BLOB
    ensures ps[0..] == ps && Around([], PropsPass(strings, ps[..0], ac, sc, used, arena), ds) == Pass(ds, used)
  {
    assert [] + [] + ds == ds;
  }

  lemma AroundNothing(r: Pass)
    ensures Around([], r, []) == r
  {
    if r.Pass? {
      assert [] + r.datas + [] == r.datas;
    }
  }

  /** The property loop of dtb_recursive_property_rewrite. Every property it meets is still raw, as Decode
      demands. */
  method RewriteProps(dt: DeviceTree, i: nat, ghost strings: seq<byte>, ghost ps: seq<TreeProp>, ghost pbase: nat)
    returns (why: Option<DecodeOutcome>, nextAc: nat, nextSc: nat)
    requires i < |dt.nodes| && dt.nodes[i].properties == LastProp(ps, pbase, None) && dt.arena < MAX_BLOB
    requires pbase + |ps| <= |dt.props| && dt.props[pbase..pbase + |ps|] == PropArray(strings, ps, pbase, None)
    modifies dt`props, dt`used
    ensures match PropsPass(strings, ps, dt.nodes[i].addressCells, dt.nodes[i].sizeCells, old(dt.used), dt.arena)
            case Failed(w) => why == Some(w)
            case Pass(ds, used) => why == None && dt.used == used && Redone(old(dt.props), dt.props, pbase, ds)
    ensures OnlyData(old(dt.props), dt.props, pbase, pbase + |ps|)
    ensures why == None ==> nextAc == NextCells(strings, ps, ADDRESS_CELLS, dt.nodes[i].addressCells)
    ensures why == None ==> nextSc == NextCells(strings, ps, SIZE_CELLS, dt.nodes[i].sizeCells)
  {
    hide Decode, NameOf, Redone, PropArray, PropsPass, NextCells, OnlyData;
    var ac, sc := dt.nodes[i].addressCells, dt.nodes[i].sizeCells;
    nextAc, nextSc := ac, sc;
    var ptr := dt.nodes[i].properties;
    ghost var k: nat, ds: seq<Data> := |ps|, [];
    ghost var props0 := dt.props;
    RedoneNothing(dt.props, pbase + |ps|);
    LoopStart(strings, ps, ADDRESS_CELLS, ac);
    LoopStart(strings, ps, SIZE_CELLS, sc);
    AroundNothing(PropsPass(strings, ps, ac, sc, dt.used, dt.arena));
    while ptr != None
      invariant k <= |ps| && ptr == LastProp(ps[..k], pbase, None)
      invariant Redone(props0, dt.props, pbase + k, ds) && k + |ds| == |ps|
      invariant Around([], PropsPass(strings, ps, ac, sc, old(dt.used), dt.arena), [])
             == Around([], PropsPass(strings, ps[..k], ac, sc, dt.used, dt.arena), ds)
      invariant nextAc == NextCells(strings, ps[k..], ADDRESS_CELLS, ac)
      invariant nextSc == NextCells(strings, ps[k..], SIZE_CELLS, sc)
      decreases k
    {
      PropAtTurn(strings, props0, dt.props, ps, pbase, k, ds);
      var prop := dt.props[ptr.value];
      PropsTurn(strings, ps, k, ac, sc, dt.used, dt.arena, ds);
      var outcome := Decode(prop.name.value, prop.data, ac, sc, dt.used, dt.arena);
      if !outcome.Decoded? {
        RedoneIsOnlyData(props0, dt.props, pbase + k, ds, pbase, pbase + |ps|);
        return Some(outcome), nextAc, nextSc;
      }
      RedoneBefore(props0, dt.props, pbase + k - 1, outcome.data, ds);
      CellNames(prop.data, ac, sc, dt.used, dt.arena);
      DeclaredStep(strings, ps, k, ADDRESS_CELLS, ac);
      DeclaredStep(strings, ps, k, SIZE_CELLS, sc);
      dt.props := dt.props[ptr.value := prop.(data := outcome.data)];
      dt.used := outcome.used;
      if prop.name.value == ADDRESS_CELLS {
        nextAc := outcome.data.addressCells;
      } else if prop.name.value == SIZE_CELLS {
        nextSc := outcome.data.sizeCells;
      }
      ptr := prop.next;
      k, ds := k - 1, [outcome.data] + ds;
    }
    LoopEnd(strings, ps, ac, sc, dt.used, dt.arena, ds);
    RedoneIsOnlyData(props0, dt.props, pbase, ds, pbase, pbase + |ps|);
    return None, nextAc, nextSc;
  }

  /** The layout of the subtree at node i, whatever its cell sizes, its properties still raw. */
  ghost predicate Laid(
    strings: seq<byte>, nodes: seq<DtNode>, props: seq<DtProp>, t: Tree, i: nat, pbase: nat, root: DtNode) {
    && i + Size(t) <= |nodes| && pbase + PropCount(t) <= |props|
    && Erased(nodes)[i..i + Size(t)] == TreeNodes(t, i, pbase, root.parent, root.sibling, root.name)
    && props[pbase..pbase + PropCount(t)] == TreeProps(strings, t, pbase)
  }

  ghost predicate ForestLaid(
    strings: seq<byte>, nodes: seq<DtNode>, props: seq<DtProp>, ts: seq<Tree>, i: nat, pbase: nat, parent: nat) {
    && i + ForestSize(ts) <= |nodes| && pbase + ForestPropCount(ts) <= |props|
    && Erased(nodes)[i..i + ForestSize(ts)] == ForestNodes(ts, i, pbase, parent)
    && props[pbase..pbase + ForestPropCount(ts)] == ForestProps(strings, ts, pbase)
  }

  /** The root of a laid-out tree, its properties and its children. */
  lemma LaidParts(strings: seq<byte>, nodes: seq<DtNode>, props: seq<DtProp>, t: Tree, i: nat, pbase: nat, root: DtNode)
    requires Laid(strings, nodes, props, t, i, pbase, root)
    ensures i < |nodes| && pbase + |t.props| <= |props|
    ensures nodes[i].properties == LastProp(t.props, pbase, None)
    ensures nodes[i].children == if t.children == [] then None else Some(i + 1)
    ensures props[pbase..pbase + |t.props|] == PropArray(strings, t.props, pbase, None)
    ensures ForestLaid(strings, nodes, props, t.children, i + 1, pbase + |t.props|, i)
  {
    hide PropArray, LastProp, ForestNodes, ForestProps, ForestSize, ForestPropCount;
    var whole, pwhole := TreeNodes(t, i, pbase, root.parent, root.sibling, root.name), TreeProps(strings, t, pbase);
    var e := Erased(nodes);
    assert e[i] == e[i..i + Size(t)][0] == whole[0];
    Part(e, i, whole, 1, |whole|);
    assert whole[1..] == ForestNodes(t.children, i + 1, pbase + |t.props|, i);
    Part(props, pbase, pwhole, 0, |t.props|);
    Part(props, pbase, pwhole, |t.props|, |pwhole|);
    assert pwhole[..|t.props|] == PropArray(strings, t.props, pbase, None);
    assert pwhole[|t.props|..] == ForestProps(strings, t.children, pbase + |t.props|);
  }

  lemma ErasedSibling(nodes: seq<DtNode>, i: nat)
    ensures |Erased(nodes)| == |nodes|
    ensures i < |nodes| ==> Erased(nodes)[i].sibling == nodes[i].sibling
  {
  }

  /** The first tree of a laid-out forest and the rest. */
  lemma ForestLaidParts(
    strings: seq<byte>, nodes: seq<DtNode>, props: seq<DtProp>, ts: seq<Tree>, i: nat, pbase: nat, parent: nat)
    requires ForestLaid(strings, nodes, props, ts, i, pbase, parent) && ts != []
    ensures i < |nodes| && ForestSize(ts) == Size(ts[0]) + ForestSize(ts[1..])
    ensures ForestPropCount(ts) == PropCount(ts[0]) + ForestPropCount(ts[1..])
    ensures nodes[i].sibling == if ts[1..] == [] then None else Some(i + Size(ts[0]))
    ensures Laid(strings, nodes, props, ts[0], i, pbase,
              DtNode(ts[0].name, Some(parent), None, nodes[i].sibling, None, 0, 0))
    ensures ForestLaid(strings, nodes, props, ts[1..], i + Size(ts[0]), pbase + PropCount(ts[0]), parent)
  {
    hide TreeNodes, TreeProps, Size, PropCount, ForestNodes, ForestProps, ForestSize, ForestPropCount, Erased;
    ErasedSibling(nodes, i);
    NodeParts(Erased(nodes), ts, i, pbase, parent);
    PropParts(strings, props, ts, pbase);
  }

  /** The pass on other nodes and on earlier properties does not disturb a layout. */
  lemma ForestStaysLaid(
    strings: seq<byte>, nodes: seq<DtNode>, nodes': seq<DtNode>, props: seq<DtProp>, props': seq<DtProp>,
    ts: seq<Tree>, i: nat,
    pbase: nat, parent: nat, lo: nat, datas: seq<Data>)
    requires ForestLaid(strings, nodes, props, ts, i, pbase, parent)
    requires Erased(nodes) == Erased(nodes') && Redone(props, props', lo, datas) && lo + |datas| <= pbase
    ensures ForestLaid(strings, nodes', props', ts, i, pbase, parent)
  {
    hide Redone, ForestNodes, ForestProps, ForestSize, ForestPropCount, Erased;
    RedoneBehind(props, props', lo, datas, pbase, pbase + ForestPropCount(ts));
    SameLength(nodes);
    SameLength(nodes');
    RedoneLength(props, props', lo, datas);
  }

  lemma SameLength(nodes: seq<DtNode>)
    ensures |Erased(nodes)| == |nodes|
  {
  }

  lemma RedoneLength(a: seq<DtProp>, b: seq<DtProp>, lo: nat, datas: seq<Data>)
    requires Redone(a, b, lo, datas)
    ensures |a| == |b| && lo + |datas| <= |a|
  {
  }

  /** dtb_recursive_property_rewrite */
  method RewriteNode(
    dt: DeviceTree, i: nat, ghost strings: seq<byte>, ghost t: Tree, ghost pbase: nat, ghost root: DtNode)
    returns (why: Option<DecodeOutcome>)
    requires Laid(strings, dt.nodes, dt.props, t, i, pbase, root) && dt.arena < MAX_BLOB
    modifies dt`nodes, dt`props, dt`used
    ensures var n := old(dt.nodes[i]);
            match TreePass(strings, t, n.addressCells, n.sizeCells, old(dt.used), dt.arena)
            case Failed(w) => why == Some(w)
            case Pass(ds, used) =>
              && why == None && dt.used == used && Redone(old(dt.props), dt.props, pbase, ds)
              && Recelled(old(dt.nodes), dt.nodes, i, TreeCells(strings, t, n.addressCells, n.sizeCells))
    ensures OnlyData(old(dt.props), dt.props, pbase, pbase + PropCount(t))
    ensures OnlyCells(old(dt.nodes), dt.nodes, i + 1, i + Size(t))
    decreases t, 1
  {
    hide OnlyData, OnlyCells, Redone, Recelled, PropsPass, NextCells, Declared, Erased, ForestLaid, Laid, Size,
         PropCount, LastProp, ForestPass, ForestCells,
         TreePass, TreeCells, PropArray;
    LaidParts(strings, dt.nodes, dt.props, t, i, pbase, root);
    TreeParts(strings, t, dt.nodes[i].addressCells, dt.nodes[i].sizeCells, dt.used, dt.arena);
    var nextAc, nextSc;
    ghost var props0, nodes0 := dt.props, dt.nodes;
    why, nextAc, nextSc := RewriteProps(dt, i, strings, t.props, pbase);
    NothingElse(props0, dt.props, dt.nodes, i, pbase, t);
    if why == None {
      ghost var ds := PropsPass(strings, t.props, dt.nodes[i].addressCells, dt.nodes[i].sizeCells, old(dt.used),
          dt.arena).datas;
      ForestStaysLaid(strings, dt.nodes, dt.nodes, props0, dt.props, t.children, i + 1, pbase + |t.props|, i, pbase,
          ds);
      ghost var props1, used1 := dt.props, dt.used;
      why := RewriteChildren(dt, dt.nodes[i].children, nextAc, nextSc, strings, t.children, i + 1, pbase + |t.props|,
          i);
      OnlyDataTwice(props0, props1, dt.props, pbase, pbase + |t.props|, pbase + |t.props|, pbase + PropCount(t));
      if why == None {
        ghost var es := ForestPass(strings, t.children, nextAc, nextSc, used1, dt.arena).datas;
        RedoneTwice(props0, props1, dt.props, pbase, ds, es);
        RootCells(nodes0, dt.nodes, i, ForestCells(strings, t.children, nextAc, nextSc));
      }
    }
  }

  /** The properties of a node are among those of its subtree. */
  lemma NothingElse(a: seq<DtProp>, b: seq<DtProp>, nodes: seq<DtNode>, i: nat, pbase: nat, t: Tree)
    requires OnlyData(a, b, pbase, pbase + |t.props|)
    ensures OnlyData(a, b, pbase, pbase + PropCount(t)) && OnlyCells(nodes, nodes, i + 1, i + Size(t))
    ensures |t.props| + ForestPropCount(t.children) == PropCount(t) && 1 + ForestSize(t.children) == Size(t)
  {
  }

  /** A node keeps its own cell sizes. */
  lemma RootCells(a: seq<DtNode>, b: seq<DtNode>, i: nat, cells: seq<Cells>)
    requires i < |a| && Recelled(a, b, i + 1, cells)
    ensures Recelled(a, b, i, [Cells(a[i].addressCells, a[i].sizeCells)] + cells)
  {
    var all := [Cells(a[i].addressCells, a[i].sizeCells)] + cells;
    forall k | 0 <= k < |a|
      ensures b[k] == if i <= k < i + |all|
          then a[k].(addressCells := all[k - i].address, sizeCells := all[k - i].size) else a[k]
    {
    }
  }

  /** Writing a node's cell sizes before its subtree is rewritten is part of rewriting it. */
  lemma RecelledOver(a: seq<DtNode>, b: seq<DtNode>, i: nat, ac: nat, sc: nat, cells: seq<Cells>)
    requires i < |a| && cells != [] && Recelled(a[i := a[i].(addressCells := ac, sizeCells := sc)], b, i, cells)
    ensures Recelled(a, b, i, cells)
  {
    var a' := a[i := a[i].(addressCells := ac, sizeCells := sc)];
    forall k | 0 <= k < |a|
      ensures b[k] == if i <= k < i + |cells|
          then a[k].(addressCells := cells[k - i].address, sizeCells := cells[k - i].size)
                      else a[k]
    {
      assert k != i ==> a'[k] == a[k];
    }
  }

  lemma CellsLaid(
    strings: seq<byte>, nodes: seq<DtNode>, props: seq<DtProp>, t: Tree, i: nat, pbase: nat, root: DtNode, ac: nat,
    sc: nat)
    requires i < |nodes| && Laid(strings, nodes, props, t, i, pbase, root)
    ensures Laid(strings, nodes[i := nodes[i].(addressCells := ac, sizeCells := sc)], props, t, i, pbase, root)
  {
    hide Size, PropCount, TreeNodes, TreeProps;
    assert Erased(nodes[i := nodes[i].(addressCells := ac, sizeCells := sc)]) == Erased(nodes);
  }

  lemma SiblingStays(a: seq<DtNode>, b: seq<DtNode>, lo: nat, cells: seq<Cells>, i: nat)
    requires Recelled(a, b, lo, cells) && i < |a|
    ensures |b| == |a| && b[i].sibling == a[i].sibling
  {
  }

  lemma ForestTurn(strings: seq<byte>, ts: seq<Tree>, ac: nat, sc: nat, used: nat, arena: nat, ds: seq<Data>)
    requires ts != [] && arena < MAX_BLOB
    ensures var r := TreePass(strings, ts[0], ac, sc, used, arena);
            Around(ds, ForestPass(strings, ts, ac, sc, used, arena), [])
            == if r.Pass? then Around(ds + r.datas, ForestPass(strings, ts[1..], ac, sc, r.used, arena), []) else r
    ensures ForestCells(strings, ts, ac, sc) == TreeCells(strings, ts[0], ac, sc)
        + ForestCells(strings, ts[1..], ac, sc)
    ensures TreeCells(strings, ts[0], ac, sc) != []
  {
    hide TreePass;
    var r := TreePass(strings, ts[0], ac, sc, used, arena);
    if r.Pass? {
      var f := ForestPass(strings, ts[1..], ac, sc, r.used, arena);
      if f.Pass? {
        assert ds + (r.datas + f.datas) + [] == ds + r.datas + f.datas + [];
      }
    }
  }

  lemma RestStart(strings: seq<byte>, ts: seq<Tree>, ac: nat, sc: nat, used: nat, arena: nat)
    requires arena < MAX_BLOB
    ensures ForestPass(strings, ts, ac, sc, used, arena) == Around([], ForestPass(strings, ts, ac, sc, used, arena), [])
    ensures ForestCells(strings, ts, ac, sc) == [] + ForestCells(strings, ts, ac, sc)
  {
    AroundNothing(ForestPass(strings, ts, ac, sc, used, arena));
  }

  lemma RestEnd(strings: seq<byte>, ac: nat, sc: nat, used: nat, arena: nat, ds: seq<Data>, cs: seq<Cells>)
    requires arena < MAX_BLOB
    ensures Around(ds, ForestPass(strings, [], ac, sc, used, arena), []) == Pass(ds, used)
    ensures cs + ForestCells(strings, [], ac, sc) == cs
  {
    assert ds + [] + [] == ds;
  }

  /** The rewritten arrays after one child. */
  lemma ChildDone(
    strings: seq<byte>, n0: seq<DtNode>, n1: seq<DtNode>, n2: seq<DtNode>, p0: seq<DtProp>, p1: seq<DtProp>,
    p2: seq<DtProp>,
    ts: seq<Tree>, i: nat, pbase: nat, parent: nat, lo: nat, plo: nat, cs: seq<Cells>, ds: seq<Data>, ac: nat, sc: nat,
    cells: seq<Cells>, datas: seq<Data>)
    requires ts != [] && ForestLaid(strings, n1, p1, ts[1..], i + Size(ts[0]), pbase + PropCount(ts[0]), parent)
        && i < |n1|
    requires |cells| == Size(ts[0]) && |datas| == PropCount(ts[0]) && cells != []
    requires Recelled(n1[i := n1[i].(addressCells := ac, sizeCells := sc)], n2, i, cells)
        && Redone(p1, p2, pbase, datas)
    requires Recelled(n0, n1, lo, cs) && lo + |cs| == i && Redone(p0, p1, plo, ds) && plo + |ds| == pbase
    ensures Recelled(n0, n2, lo, cs + cells) && Redone(p0, p2, plo, ds + datas)
    ensures ForestLaid(strings, n2, p2, ts[1..], i + Size(ts[0]), pbase + PropCount(ts[0]), parent)
    ensures i < |n2| && n2[i].sibling == n1[i].sibling
  {
    hide Redone, Recelled, ForestLaid, Erased, Size, PropCount;
    RecelledOver(n1, n2, i, ac, sc, cells);
    RecelledTwice(n0, n1, n2, lo, cs, cells);
    RedoneTwice(p0, p1, p2, plo, ds, datas);
    SiblingStays(n1, n2, i, cells, i);
    RecelledErased(n1, n2, i, cells);
    ForestStaysLaid(strings, n1, n2, p1, p2, ts[1..], i + Size(ts[0]), pbase + PropCount(ts[0]), parent, pbase, datas);
  }

  /** Its loop over the children. */
  method RewriteChildren(
    dt: DeviceTree, first: Ptr, nextAc: nat, nextSc: nat, ghost strings: seq<byte>, ghost ts: seq<Tree>, ghost i: nat,
    ghost pbase: nat, ghost parent: nat)
    returns (why: Option<DecodeOutcome>)
    requires ForestLaid(strings, dt.nodes, dt.props, ts, i, pbase, parent) && dt.arena < MAX_BLOB
    requires first == if ts == [] then None else Some(i)
    modifies dt`nodes, dt`props, dt`used
    ensures match ForestPass(strings, ts, nextAc, nextSc, old(dt.used), dt.arena)
            case Failed(w) => why == Some(w)
            case Pass(ds, used) =>
              && why == None && dt.used == used && Redone(old(dt.props), dt.props, pbase, ds)
              && Recelled(old(dt.nodes), dt.nodes, i, ForestCells(strings, ts, nextAc, nextSc))
    ensures OnlyData(old(dt.props), dt.props, pbase, pbase + ForestPropCount(ts))
    ensures OnlyCells(old(dt.nodes), dt.nodes, i, i + ForestSize(ts))
    decreases ts, 0
  {
    hide OnlyData, OnlyCells, Redone, Recelled, Erased, ForestLaid, Laid, Size, PropCount, TreePass, TreeCells,
         ForestPass, ForestCells, ForestSize, ForestPropCount;
    var child := first;
    ghost var j: nat, rest: seq<Tree>, at: nat, q: nat := 0, ts, i, pbase;
    ghost var ds: seq<Data>, cs: seq<Cells> := [], [];
    ghost var nodes0, props0 := dt.nodes, dt.props;
    RestStart(strings, ts, nextAc, nextSc, dt.used, dt.arena);
    ForestLaidFits(strings, nodes0, props0, ts, i, pbase, parent);
    RecelledNothing(nodes0, i);
    RedoneNothing(props0, pbase);
    RedoneIsOnlyData(props0, props0, pbase, [], pbase, pbase);
    RecelledIsOnlyCells(nodes0, nodes0, i, [], i, i);
    while child != None
      invariant child == if rest == [] then None else Some(at)
      invariant j <= |ts| && rest == ts[j..]
      invariant ForestLaid(strings, dt.nodes, dt.props, rest, at, q, parent)
      invariant Redone(props0, dt.props, pbase, ds) && q == pbase + |ds|
      invariant Recelled(nodes0, dt.nodes, i, cs) && at == i + |cs|
      invariant ForestPass(strings, ts, nextAc, nextSc, old(dt.used), dt.arena)
             == Around(ds, ForestPass(strings, rest, nextAc, nextSc, dt.used, dt.arena), [])
      invariant ForestCells(strings, ts, nextAc, nextSc) == cs + ForestCells(strings, rest, nextAc, nextSc)
      invariant q + ForestPropCount(rest) == pbase + ForestPropCount(ts) && at + ForestSize(rest) == i + ForestSize(ts)
      decreases |ts| - j
    {
      var c := child.value;
      ghost var nodes1, props1, used1, t := dt.nodes, dt.props, dt.used, rest[0];
      ForestLaidParts(strings, nodes1, props1, rest, at, q, parent);
      ForestTurn(strings, rest, nextAc, nextSc, used1, dt.arena, ds);
      ghost var root := DtNode(t.name, Some(parent), None, nodes1[c].sibling, None, 0, 0);
      CellsLaid(strings, nodes1, props1, t, c, q, root, nextAc, nextSc);
      dt.nodes := dt.nodes[c := dt.nodes[c].(addressCells := nextAc, sizeCells := nextSc)];
      why := RewriteNode(dt, c, strings, t, q, root);
      if why != None {
        ChildFailed(nodes0, nodes1, dt.nodes, props0, props1, dt.props, rest, c, q, i, pbase, cs, ds, nextAc, nextSc);
        return;
      }
      ghost var datas := TreePass(strings, t, nextAc, nextSc, used1, dt.arena).datas;
      ghost var cells := TreeCells(strings, t, nextAc, nextSc);
      ChildDone(strings, nodes0, nodes1, dt.nodes, props0, props1, dt.props, rest, at, q, parent, i, pbase, cs, ds,
                nextAc, nextSc, cells, datas);
      child := dt.nodes[c].sibling;
      j, rest, at, q := j + 1, rest[1..], at + Size(t), q + PropCount(t);
      ds, cs := ds + datas, cs + cells;
    }
    RedoneIsOnlyData(props0, dt.props, pbase, ds, pbase, pbase + ForestPropCount(ts));
    RecelledIsOnlyCells(nodes0, dt.nodes, i, cs, i, i + ForestSize(ts));
    RestEnd(strings, nextAc, nextSc, dt.used, dt.arena, ds, cs);
    return None;
  }

  /** A child whose rewriting ended early. */
  lemma ChildFailed(
    n0: seq<DtNode>, n1: seq<DtNode>, n2: seq<DtNode>, p0: seq<DtProp>, p1: seq<DtProp>, p2: seq<DtProp>,
    rest: seq<Tree>,
    c: nat, q: nat, lo: nat, plo: nat, cs: seq<Cells>, ds: seq<Data>, ac: nat, sc: nat)
    requires rest != [] && c < |n1| && Recelled(n0, n1, lo, cs) && lo + |cs| == c
    requires Redone(p0, p1, plo, ds) && plo + |ds| == q
    requires OnlyCells(n1[c := n1[c].(addressCells := ac, sizeCells := sc)], n2, c + 1, c + Size(rest[0]))
    requires OnlyData(p1, p2, q, q + PropCount(rest[0]))
    ensures OnlyCells(n0, n2, lo, c + ForestSize(rest)) && OnlyData(p0, p2, plo, q + ForestPropCount(rest))
  {
    hide Redone, Recelled, OnlyCells, OnlyData, Size, PropCount;
    SomeNodes(rest);
    var n1' := n1[c := n1[c].(addressCells := ac, sizeCells := sc)];
    RecelledIsOnlyCells(n0, n1, lo, cs, lo, c);
    OwnCells(n1, c, ac, sc);
    OnlyCellsTwice(n0, n1, n1', lo, c, c, c + 1);
    OnlyCellsTwice(n0, n1', n2, lo, c + 1, c + 1, c + Size(rest[0]));
    OnlyCellsWider(n0, n2, lo, c + Size(rest[0]), c + ForestSize(rest));
    RedoneIsOnlyData(p0, p1, plo, ds, plo, q);
    OnlyDataTwice(p0, p1, p2, plo, q, q, q + PropCount(rest[0]));
    OnlyDataWider(p0, p2, plo, q + PropCount(rest[0]), q + ForestPropCount(rest));
  }

  lemma SomeNodes(ts: seq<Tree>)
    requires ts != []
    ensures 0 < Size(ts[0]) <= ForestSize(ts) && PropCount(ts[0]) <= ForestPropCount(ts)
  {
  }

  lemma OnlyCellsWider(a: seq<DtNode>, b: seq<DtNode>, lo: nat, hi: nat, hi': nat)
    requires OnlyCells(a, b, lo, hi) && hi <= hi'
    ensures OnlyCells(a, b, lo, hi')
  {
  }

  lemma OnlyDataWider(a: seq<DtProp>, b: seq<DtProp>, lo: nat, hi: nat, hi': nat)
    requires OnlyData(a, b, lo, hi) && hi <= hi'
    ensures OnlyData(a, b, lo, hi')
  {
  }

  lemma ForestLaidFits(
    strings: seq<byte>, nodes: seq<DtNode>, props: seq<DtProp>, ts: seq<Tree>, i: nat, pbase: nat, parent: nat)
    requires ForestLaid(strings, nodes, props, ts, i, pbase, parent)
    ensures i <= |nodes| && pbase <= |props|
  {
  }

  datatype RewriteOutcome = Rewritten | NoNodes | RewriteFailed(why: DecodeOutcome)

  /** The end of dt_initialize: the pass on what the token loop has built, with 2 and 1 cells at the root. */
  method RewriteTree(dt: DeviceTree, ghost strings: seq<byte>, ghost t: Tree) returns (out: RewriteOutcome)
    requires dt.arena < MAX_BLOB
    requires dt.nodes != [] ==> dt.nodes == TreeNodes(t, 0, 0, None, None, StoredName(0, t.name))
    requires dt.nodes != [] ==> dt.props == TreeProps(strings, t, 0)
    modifies dt`nodes, dt`props, dt`used
    ensures old(dt.nodes) == [] <==> out == NoNodes
    ensures old(dt.nodes) != [] ==>
              match TreePass(strings, t, 2, 1, old(dt.used), dt.arena)
              case Failed(why) => out == RewriteFailed(why)
              case Pass(ds, used) =>
                && out == Rewritten && dt.used == used && Redone(old(dt.props), dt.props, 0, ds)
                && Recelled(old(dt.nodes), dt.nodes, 0, TreeCells(strings, t, 2, 1))
    ensures OnlyData(old(dt.props), dt.props, 0, |dt.props|) && OnlyCells(old(dt.nodes), dt.nodes, 0, |dt.nodes|)
  {
    hide TreePass, TreeCells, TreeProps, Redone, Recelled, Laid, TreeNodes, Size, PropCount, OnlyData, OnlyCells;
    if |dt.nodes| == 0 {
      NothingChanged(dt.nodes, dt.props);
      return NoNodes;
    }
    TreeSizes(strings, t, StoredName(0, t.name));
    ghost var root := DtNode(StoredName(0, t.name), None, None, None, None, 0, 0);
    BuiltIsLaid(strings, dt.nodes, dt.props, t, root);
    CellsLaid(strings, dt.nodes, dt.props, t, 0, 0, root, 2, 1);
    CellsOfTree(strings, t, 2, 1);
    ghost var nodes0 := dt.nodes;
    dt.nodes := dt.nodes[0 := dt.nodes[0].(addressCells := 2, sizeCells := 1)];
    var why := RewriteNode(dt, 0, strings, t, 0, root);
    OwnCells(nodes0, 0, 2, 1);
    OnlyCellsTwice(nodes0, nodes0[0 := nodes0[0].(addressCells := 2, sizeCells := 1)], dt.nodes, 0, 1, 1, Size(t));
    SameLengths(nodes0, dt.nodes, old(dt.props), dt.props, Size(t), PropCount(t));
    if why != None {
      return RewriteFailed(why.value);
    }
    RecelledOver(nodes0, dt.nodes, 0, 2, 1, TreeCells(strings, t, 2, 1));
    return Rewritten;
  }

  lemma SameLengths(a: seq<DtNode>, b: seq<DtNode>, p: seq<DtProp>, q: seq<DtProp>, n: nat, m: nat)
    requires OnlyCells(a, b, 0, n) && OnlyData(p, q, 0, m)
    ensures |a| == |b| && |p| == |q|
  {
  }

  lemma NothingChanged(nodes: seq<DtNode>, props: seq<DtProp>)
    ensures OnlyCells(nodes, nodes, 0, |nodes|) && OnlyData(props, props, 0, |props|)
  {
  }

  lemma TreeSizes(strings: seq<byte>, t: Tree, name: seq<byte>)
    ensures |TreeNodes(t, 0, 0, None, None, name)| == Size(t) >= 1 && |TreeProps(strings, t, 0)| == PropCount(t)
  {
  }

  lemma CellsOfTree(strings: seq<byte>, t: Tree, ac: nat, sc: nat)
    ensures TreeCells(strings, t, ac, sc) != []
  {
  }

  lemma BuiltIsLaid(strings: seq<byte>, nodes: seq<DtNode>, props: seq<DtProp>, t: Tree, root: DtNode)
    requires nodes == TreeNodes(t, 0, 0, None, None, root.name) && props == TreeProps(strings, t, 0)
    requires root.parent == None && root.sibling == None
    ensures Laid(strings, nodes, props, t, 0, 0, root)
  {
    hide TreeNodes, TreeProps;
    NoCellsYet(t, 0, 0, None, None, root.name);
    assert Erased(nodes)[0..0 + Size(t)] == Erased(nodes);
    assert props[0..0 + PropCount(t)] == props;
  }

  /** The parser leaves all cell sizes 0. */
  lemma {:induction false} NoCellsYet(t: Tree, base: nat, pbase: nat, parent: Ptr, sibling: Ptr, name: seq<byte>)
    ensures var nodes := TreeNodes(t, base, pbase, parent, sibling, name); Erased(nodes) == nodes
    decreases t, 1
  {
    hide ForestNodes, ForestSize;
    NoForestCellsYet(t.children, base + 1, pbase + |t.props|, base);
    var nodes, rest := TreeNodes(t, base, pbase, parent, sibling, name),
        ForestNodes(t.children, base + 1, pbase + |t.props|, base);
    assert nodes == [nodes[0]] + rest;
    ErasedConcat([nodes[0]], rest);
  }

  lemma {:induction false} NoForestCellsYet(ts: seq<Tree>, base: nat, pbase: nat, parent: nat)
    ensures var nodes := ForestNodes(ts, base, pbase, parent); Erased(nodes) == nodes
    decreases ts, 0
  {
    hide TreeNodes, Size, PropCount;
    if ts != [] {
      var sibling := if |ts| > 1 then Some(base + Size(ts[0])) else None;
      NoCellsYet(ts[0], base, pbase, Some(parent), sibling, ts[0].name);
      NoForestCellsYet(ts[1..], base + Size(ts[0]), pbase + PropCount(ts[0]), parent);
      ErasedConcat(TreeNodes(ts[0], base, pbase, Some(parent), sibling, ts[0].name),
                   ForestNodes(ts[1..], base + Size(ts[0]), pbase + PropCount(ts[0]), parent));
    }
  }

  lemma ErasedConcat(a: seq<DtNode>, b: seq<DtNode>)
    ensures Erased(a + b) == Erased(a) + Erased(b)
  {
  }
}
