/** What the device tree is after dt_initialize (src/octiron/devices/device_tree/device_tree.c:773-828), read by
    following its pointers.
  */
module DtbWalk {
  import opened Endian
  import opened Extents
  import opened DtbModel
  import opened DtbTree
  import opened DtbLayout
  import opened DtbDecode
  import opened DtbMeaning
  import opened DtbCells
  import opened DtbRewrite
  import opened DeviceTreeParser

  // --- nodes ---------------------------------------------------------------------------------

  /** The k-th further sibling of a node. */
  function Nth(nodes: seq<DtNode>, ptr: Ptr, k: nat): Ptr
    decreases k
  {
    if ptr.None? || ptr.value >= |nodes| then None
    else if k == 0 then ptr
    else Nth(nodes, nodes[ptr.value].sibling, k - 1)
  }

  /** From node i down a path of child positions, by `children` and `sibling` pointers only. */
  function Walk(nodes: seq<DtNode>, ptr: Ptr, path: seq<nat>): Ptr
    decreases |path|
  {
    if ptr.None? || ptr.value >= |nodes| then None
    else if path == [] then ptr
    else Walk(nodes, Nth(nodes, nodes[ptr.value].children, path[0]), path[1..])
  }

  lemma {:induction false} NthChild(nodes: seq<DtNode>, ts: seq<Tree>, base: nat, pbase: nat, parent: nat, k: nat)
    returns (at: nat, q: nat, sibling: Ptr)
    requires base + ForestSize(ts) <= |nodes| && k < |ts|
    requires nodes[base..base + ForestSize(ts)] == ForestNodes(ts, base, pbase, parent)
    ensures q == pbase + ForestPropCount(ts[..k])
    ensures at == base + ForestSize(ts[..k]) && at + Size(ts[k]) <= |nodes| && Nth(nodes, Some(base), k) == Some(at)
    ensures nodes[at..at + Size(ts[k])] == TreeNodes(ts[k], at, q, Some(parent), sibling, ts[k].name)
    decreases k
  {
    hide Size, PropCount, TreeNodes, ForestNodes;
    NodeParts(nodes, ts, base, pbase, parent);
    if k == 0 {
      assert ts[..0] == [];
      at, q, sibling := base, pbase, if |ts| > 1 then Some(base + Size(ts[0])) else None;
    } else {
      at, q, sibling := NthChild(nodes, ts[1..], base + Size(ts[0]), pbase + PropCount(ts[0]), parent, k - 1);
      assert ts[..k][1..] == ts[1..][..k - 1] && ts[..k][0] == ts[0];
    }
  }

  lemma {:induction false} IndexFits(ts: seq<Tree>, i: nat, x: nat)
    requires i < |ts| && x < Size(ts[i])
    ensures ForestSize(ts[..i]) + x < ForestSize(ts)
    decreases ts
  {
    hide Size;
    if i == 0 {
      assert ts[..0] == [];
    } else {
      IndexFits(ts[1..], i - 1, x);
      assert ts[..i][1..] == ts[1..][..i - 1] && ts[..i][0] == ts[0];
    }
  }

  /** The root of a laid-out tree, and where its children are. */
  lemma RootInPlace(nodes: seq<DtNode>, t: Tree, base: nat, pbase: nat, parent: Ptr, sibling: Ptr, name: seq<byte>)
    requires base + Size(t) <= |nodes|
    requires nodes[base..base + Size(t)] == TreeNodes(t, base, pbase, parent, sibling, name)
    ensures Size(t) == 1 + ForestSize(t.children)
    ensures nodes[base].properties == LastProp(t.props, pbase, None)
    ensures nodes[base].children == if t.children == [] then None else Some(base + 1)
    ensures nodes[base + 1..base + 1 + ForestSize(t.children)]
        == ForestNodes(t.children, base + 1, pbase + |t.props|, base)
  {
    hide ForestNodes, ForestSize, LastProp;
    var whole := TreeNodes(t, base, pbase, parent, sibling, name);
    assert nodes[base] == nodes[base..base + Size(t)][0] == whole[0];
    Part(nodes, base, whole, 1, |whole|);
    assert whole[1..] == ForestNodes(t.children, base + 1, pbase + |t.props|, base);
  }

  /** Pointers lead to the place in blob order, and there to the node's own properties. */
  lemma {:induction false} WalkFinds(
    nodes: seq<DtNode>, t: Tree, base: nat, pbase: nat, parent: Ptr, sibling: Ptr, name: seq<byte>, path: seq<nat>)
    requires base + Size(t) <= |nodes| && IsPath(t, path)
    requires nodes[base..base + Size(t)] == TreeNodes(t, base, pbase, parent, sibling, name)
    ensures IndexAt(t, path) < Size(t) && Walk(nodes, Some(base), path) == Some(base + IndexAt(t, path))
    ensures nodes[base + IndexAt(t, path)].properties
        == LastProp(NodeAt(t, path).props, pbase + PropIndex(t, path), None)
    decreases |path|
  {
    hide ForestNodes, TreeNodes, ForestSize, ForestPropCount, Size, LastProp, Nth;
    RootInPlace(nodes, t, base, pbase, parent, sibling, name);
    if path != [] {
      var at, q, s := NthChild(nodes, t.children, base + 1, pbase + |t.props|, base, path[0]);
      var c := t.children[path[0]];
      WalkFinds(nodes, c, at, q, Some(base), s, c.name, path[1..]);
      IndexFits(t.children, path[0], IndexAt(c, path[1..]));
    }
  }

  lemma {:induction false} NthErased(a: seq<DtNode>, b: seq<DtNode>, ptr: Ptr, k: nat)
    requires Erased(a) == Erased(b)
    ensures Nth(a, ptr, k) == Nth(b, ptr, k)
    decreases k
  {
    SameLength(a);
    SameLength(b);
    if ptr.Some? && ptr.value < |a| && k > 0 {
      assert Erased(a)[ptr.value] == Erased(b)[ptr.value];
      NthErased(a, b, a[ptr.value].sibling, k - 1);
    }
  }

  lemma {:induction false} WalkErased(a: seq<DtNode>, b: seq<DtNode>, ptr: Ptr, path: seq<nat>)
    requires Erased(a) == Erased(b)
    ensures Walk(a, ptr, path) == Walk(b, ptr, path)
    decreases |path|
  {
    SameLength(a);
    SameLength(b);
    if ptr.Some? && ptr.value < |a| && path != [] {
      assert Erased(a)[ptr.value] == Erased(b)[ptr.value];
      NthErased(a, b, a[ptr.value].children, path[0]);
      WalkErased(a, b, Nth(a, a[ptr.value].children, path[0]), path[1..]);
    }
  }

  /** After a successful pass over what the parser built, walking down any path of children from the root
      leads to a node whose cell sizes are those its nearest declaring proper ancestor declares, and 2 and 1
      if there is none. */
  lemma RewrittenCells(strings: seq<byte>, t: Tree, name: seq<byte>, nodes: seq<DtNode>, path: seq<nat>)
    requires IsPath(t, path) && Recelled(TreeNodes(t, 0, 0, None, None, name), nodes, 0, TreeCells(strings, t, 2, 1))
    ensures var found := Walk(nodes, Some(0), path);
            && found.Some? && found.value < |nodes|
            && nodes[found.value].addressCells == Inherited(strings, t, path, ADDRESS_CELLS, 2)
            && nodes[found.value].sizeCells == Inherited(strings, t, path, SIZE_CELLS, 1)
  {
    hide TreeNodes, TreeCells, Inherited, Erased, IndexAt, Walk, IsPath;
    var built := TreeNodes(t, 0, 0, None, None, name);
    assert built[0..0 + Size(t)] == built;
    WalkFinds(built, t, 0, 0, None, None, name, path);
    RecelledErased(built, nodes, 0, TreeCells(strings, t, 2, 1));
    WalkErased(built, nodes, Some(0), path);
    CellsAreInherited(strings, t, 2, 1, path);
  }

  /** The same without mention of how cells are propagated: where the m-th node on the way down is the nearest
      proper ancestor with a property "#address-cells", and the k-th of its properties the first of that name,
      the four bytes of that property are the node's address cells; */
  lemma NearestAddressCells(
    strings: seq<byte>, t: Tree, name: seq<byte>, used: nat, arena: nat, nodes: seq<DtNode>, path: seq<nat>, m: nat,
    k: nat)
    requires arena < MAX_BLOB && TreePass(strings, t, 2, 1, used, arena).Pass?
    requires IsPath(t, path) && Recelled(TreeNodes(t, 0, 0, None, None, name), nodes, 0, TreeCells(strings, t, 2, 1))
    requires Nearest(strings, t, path, Ascii("#address-cells"), m, k)
    ensures Walk(nodes, Some(0), path).Some? && Walk(nodes, Some(0), path).value < |nodes|
    ensures StartsWithNumber(NodeAt(t, path[..m]).props[k].value, nodes[Walk(nodes, Some(0), path).value].addressCells)
  {
    hide TreePass, TreeNodes, TreeCells, Recelled, Inherited, Walk, IsPath, NodeAt, Ascii, StartsWithNumber,
         NoneDeclares, HasNone, PropIndex, PropCount;
    Names();
    RewrittenCells(strings, t, name, nodes, path);
    var u := PropertyDecoded(strings, t, 2, 1, used, arena, path[..m], k);
    NumberLong(NodeAt(t, path[..m]).props[k].value);
    InheritsNearest(strings, t, path, ADDRESS_CELLS, 2, m, k);
  }

  /** and those of "#size-cells" are its size cells; */
  lemma NearestSizeCells(
    strings: seq<byte>, t: Tree, name: seq<byte>, used: nat, arena: nat, nodes: seq<DtNode>, path: seq<nat>, m: nat,
    k: nat)
    requires arena < MAX_BLOB && TreePass(strings, t, 2, 1, used, arena).Pass?
    requires IsPath(t, path) && Recelled(TreeNodes(t, 0, 0, None, None, name), nodes, 0, TreeCells(strings, t, 2, 1))
    requires Nearest(strings, t, path, Ascii("#size-cells"), m, k)
    ensures Walk(nodes, Some(0), path).Some? && Walk(nodes, Some(0), path).value < |nodes|
    ensures StartsWithNumber(NodeAt(t, path[..m]).props[k].value, nodes[Walk(nodes, Some(0), path).value].sizeCells)
  {
    hide TreePass, TreeNodes, TreeCells, Recelled, Inherited, Walk, IsPath, NodeAt, Ascii, StartsWithNumber,
         NoneDeclares, HasNone, PropIndex, PropCount;
    Names();
    RewrittenCells(strings, t, name, nodes, path);
    var u := PropertyDecoded(strings, t, 2, 1, used, arena, path[..m], k);
    NumberLong(NodeAt(t, path[..m]).props[k].value);
    InheritsNearest(strings, t, path, SIZE_CELLS, 1, m, k);
  }

  /** and where there is none they are 2 and 1. */
  lemma DefaultCells(strings: seq<byte>, t: Tree, name: seq<byte>, nodes: seq<DtNode>, path: seq<nat>)
    requires IsPath(t, path) && Recelled(TreeNodes(t, 0, 0, None, None, name), nodes, 0, TreeCells(strings, t, 2, 1))
    ensures Walk(nodes, Some(0), path).Some? && Walk(nodes, Some(0), path).value < |nodes|
    ensures NoneDeclares(strings, t, path, 0, Ascii("#address-cells")) ==>
              nodes[Walk(nodes, Some(0), path).value].addressCells == 2
    ensures NoneDeclares(strings, t, path, 0, Ascii("#size-cells")) ==>
              nodes[Walk(nodes, Some(0), path).value].sizeCells == 1
  {
    hide TreeNodes, TreeCells, Recelled, Inherited, Walk, IsPath, NodeAt, Ascii, NoneDeclares;
    Names();
    RewrittenCells(strings, t, name, nodes, path);
    if NoneDeclares(strings, t, path, 0, ADDRESS_CELLS) {
      InheritsDefault(strings, t, path, ADDRESS_CELLS, 2);
    }
    if NoneDeclares(strings, t, path, 0, SIZE_CELLS) {
      InheritsDefault(strings, t, path, SIZE_CELLS, 1);
    }
  }

  /** The m-th node on the way down is the nearest proper ancestor with a property of that name, and its k-th
      property the first of them. */
  ghost predicate Nearest(strings: seq<byte>, t: Tree, path: seq<nat>, name: seq<byte>, m: nat, k: nat)
    requires IsPath(t, path)
  {
    && m < |path| && IsPath(t, path[..m]) && NoneDeclares(strings, t, path, m + 1, name)
    && k < |NodeAt(t, path[..m]).props| && NameOf(strings, NodeAt(t, path[..m]).props[k]) == name
    && HasNone(strings, NodeAt(t, path[..m]).props[..k], name)
  }

  /** The data of a cell size declaration are four bytes at least. */
  lemma NumberLong(value: seq<byte>)
    ensures forall n :: StartsWithNumber(value, n) ==> |value| >= 4
  {
  }

  // --- properties ----------------------------------------------------------------------------

  /** The j-th further property of a list. */
  function NthProp(props: seq<DtProp>, ptr: Ptr, j: nat): Ptr
    decreases j
  {
    if ptr.None? || ptr.value >= |props| then None
    else if j == 0 then ptr
    else NthProp(props, props[ptr.value].next, j - 1)
  }

  lemma {:induction false} ChildProps(strings: seq<byte>, props: seq<DtProp>, ts: seq<Tree>, pbase: nat, k: nat)
    requires pbase + ForestPropCount(ts) <= |props| && k < |ts|
    requires props[pbase..pbase + ForestPropCount(ts)] == ForestProps(strings, ts, pbase)
    ensures var q := pbase + ForestPropCount(ts[..k]);
            q + PropCount(ts[k]) <= |props| && props[q..q + PropCount(ts[k])] == TreeProps(strings, ts[k], q)
    decreases k
  {
    hide PropCount, TreeProps, ForestProps;
    PropParts(strings, props, ts, pbase);
    if k == 0 {
      assert ts[..0] == [];
    } else {
      ChildProps(strings, props, ts[1..], pbase + PropCount(ts[0]), k - 1);
      assert ts[..k][1..] == ts[1..][..k - 1] && ts[..k][0] == ts[0];
    }
  }

  /** The properties of the node at a path, in their place. */
  lemma {:induction false} PropsInPlace(strings: seq<byte>, props: seq<DtProp>, t: Tree, pbase: nat, path: seq<nat>)
    requires pbase + PropCount(t) <= |props| && IsPath(t, path)
    requires props[pbase..pbase + PropCount(t)] == TreeProps(strings, t, pbase)
    ensures var q, ps := pbase + PropIndex(t, path), NodeAt(t, path).props;
            q + |ps| <= |props| && props[q..q + |ps|] == PropArray(strings, ps, q, None)
    decreases |path|
  {
    hide ForestProps, ForestPropCount, PropArray;
    var whole := TreeProps(strings, t, pbase);
    Part(props, pbase, whole, 0, |t.props|);
    Part(props, pbase, whole, |t.props|, |whole|);
    assert whole[..|t.props|] == PropArray(strings, t.props, pbase, None);
    assert whole[|t.props|..] == ForestProps(strings, t.children, pbase + |t.props|);
    if path != [] {
      ChildProps(strings, props, t.children, pbase + |t.props|, path[0]);
      PropsInPlace(strings, props, t.children[path[0]], pbase + |t.props| + ForestPropCount(t.children[..path[0]]),
          path[1..]);
    }
  }

  /** The list of a node runs through its properties from the last to the first. */
  lemma {:induction false} NthPropFinds(
    strings: seq<byte>, props: seq<DtProp>, ps: seq<TreeProp>, base: nat, m: nat, j: nat)
    requires base + |ps| <= |props| && props[base..base + |ps|] == PropArray(strings, ps, base, None) && j < m <= |ps|
    ensures NthProp(props, LastProp(ps[..m], base, None), j) == Some(base + (m - 1 - j))
    decreases j
  {
    hide PropArray, NameOf, RawOf;
    PropArrayAt(strings, ps, base, None, m - 1);
    assert props[base + (m - 1)] == props[base..base + |ps|][m - 1];
    if j > 0 {
      NthPropFinds(strings, props, ps, base, m - 1, j - 1);
    }
  }

  lemma {:induction false} NthPropRedone(a: seq<DtProp>, b: seq<DtProp>, datas: seq<Data>, ptr: Ptr, j: nat)
    requires Redone(a, b, 0, datas)
    ensures NthProp(b, ptr, j) == NthProp(a, ptr, j)
    decreases j
  {
    hide Redone;
    if ptr.Some? && ptr.value < |a| {
      OneRedone(a, b, datas, ptr.value);
    }
    RedoneLength(a, b, 0, datas);
    if ptr.Some? && ptr.value < |a| && j > 0 {
      NthPropRedone(a, b, datas, a[ptr.value].next, j - 1);
    }
  }

  lemma OneRedone(a: seq<DtProp>, b: seq<DtProp>, datas: seq<Data>, i: nat)
    requires Redone(a, b, 0, datas) && i < |a|
    ensures i < |b| && b[i].next == a[i].next && b[i].name == a[i].name
    ensures i < |datas| ==> b[i].data == datas[i]
  {
  }

  /** After a successful pass over what the parser built, walking down any path of children and along that node's
      property list leads to every property of the node, the last in the blob first, decoded by its name under
      the cell sizes the node holds. `u` is what was used of the arena when its turn came. */
  lemma RewrittenData(
    strings: seq<byte>, t: Tree, name: seq<byte>, used: nat, arena: nat, nodes: seq<DtNode>, props: seq<DtProp>,
    path: seq<nat>, k: nat)
    returns (u: nat)
    requires arena < MAX_BLOB && TreePass(strings, t, 2, 1, used, arena).Pass?
    requires Recelled(TreeNodes(t, 0, 0, None, None, name), nodes, 0, TreeCells(strings, t, 2, 1))
    requires Redone(TreeProps(strings, t, 0), props, 0, TreePass(strings, t, 2, 1, used, arena).datas)
    requires IsPath(t, path) && k < |NodeAt(t, path).props|
    ensures Walk(nodes, Some(0), path).Some? && Walk(nodes, Some(0), path).value < |nodes|
    ensures var node, prop := nodes[Walk(nodes, Some(0), path).value], NodeAt(t, path).props[k];
            var p := NthProp(props, node.properties, |NodeAt(t, path).props| - 1 - k);
            var o := Decode(NameOf(strings, prop), RawOf(prop.value), node.addressCells, node.sizeCells, u, arena);
            && p.Some? && p.value < |props|
            && props[p.value].name == Some(NameOf(strings, prop))
            && o.Decoded? && props[p.value].data == o.data
            && PropertyHolds(NameOf(strings, prop), prop.value, node.addressCells, node.sizeCells, props[p.value].data)
  {
    hide PropertyHolds, TreePass, TreeNodes, TreeProps, TreeCells, PropArray, Redone, Recelled, Inherited, Declared,
         Decode, NameOf, Walk, NthProp,
         IsPath, NodeAt, PropIndex, IndexAt, PropCount, Size, LastProp;
    var ps, q := NodeAt(t, path).props, PropIndex(t, path);
    u := PropertyDecoded(strings, t, 2, 1, used, arena, path, k);
    RewrittenCells(strings, t, name, nodes, path);
    PropsPointer(t, name, nodes, TreeCells(strings, t, 2, 1), path);
    var built := TreeProps(strings, t, 0);
    assert built[0..0 + PropCount(t)] == built;
    PropsInPlace(strings, built, t, 0, path);
    assert ps[..|ps|] == ps;
    NthPropFinds(strings, built, ps, q, |ps|, |ps| - 1 - k);
    NthPropRedone(built, props, TreePass(strings, t, 2, 1, used, arena).datas, LastProp(ps, q, None), |ps| - 1 - k);
    PropArrayAt(strings, ps, q, None, k);
    assert built[q + k] == built[q..q + |ps|][k];
    OneRedone(built, props, TreePass(strings, t, 2, 1, used, arena).datas, q + k);
  }

  lemma PropsPointer(t: Tree, name: seq<byte>, nodes: seq<DtNode>, cells: seq<Cells>, path: seq<nat>)
    requires IsPath(t, path) && Recelled(TreeNodes(t, 0, 0, None, None, name), nodes, 0, cells)
    ensures var found := Walk(nodes, Some(0), path);
            && found.Some? && found.value < |nodes|
            && nodes[found.value].properties == LastProp(NodeAt(t, path).props, PropIndex(t, path), None)
  {
    hide TreeNodes, Erased, IndexAt, Walk, IsPath, PropIndex, NodeAt, LastProp;
    var built := TreeNodes(t, 0, 0, None, None, name);
    assert built[0..0 + Size(t)] == built;
    WalkFinds(built, t, 0, 0, None, None, name, path);
    RecelledErased(built, nodes, 0, cells);
    WalkErased(built, nodes, Some(0), path);
  }

  // --- from bytes to the decoded tree --------------------------------------------------------

  /** dt_initialize from the structure and strings blocks of a well-formed blob on: the blob of any tree whose
      copies fit the arena, with any FDT_NOPs, is parsed and rewritten to exactly the laid-out tree with the data
      and the cells of the pass, which RewrittenCells and RewrittenData read back, or fails as the pass does. */
  method Initialize(dt: DeviceTree, bytes: seq<byte>, strings: seq<byte>, ghost t: Tree, ghost toks: seq<Token>)
    returns (out: RewriteOutcome)
    requires dt.State() == START && dt.arena < MAX_BLOB
    requires Named(strings, t) && TreeCopy(strings, t) <= dt.arena
    requires StripNops(toks) == TreeTokens(t) + [Fin] && forall tok :: tok in toks ==> TokenOk(strings, tok)
    requires |bytes| <= MAX_BLOB && EncodeAll(strings, toks) <= bytes
    modifies dt
    ensures match TreePass(strings, t, 2, 1, TreeCopy(strings, t), dt.arena)
            case Failed(why) => out == RewriteFailed(why)
            case Pass(ds, used) =>
              && out == Rewritten && dt.used == used && dt.curr == None && dt.depth == 0
              && Recelled(TreeNodes(t, 0, 0, None, None, StoredName(0, t.name)), dt.nodes, 0,
                  TreeCells(strings, t, 2, 1))
              && Redone(TreeProps(strings, t, 0), dt.props, 0, ds)
  {
    hide TreePass, TreeNodes, TreeProps, TreeCells, Redone, Recelled, EncodeAll, TokenOk, Named, Loop, TreeCopy,
         CString;
    ParserRoundTrip(strings, dt.arena, t, toks, bytes);
    var parsed := dt.Parse(bytes, strings);
    assert parsed == Parsed;
    SomeTree(t, StoredName(0, t.name));
    out := RewriteTree(dt, strings, t);
  }

  lemma SomeTree(t: Tree, name: seq<byte>)
    ensures TreeNodes(t, 0, 0, None, None, name) != []
  {
  }
}
