/** The parser round trip: the token loop on a flattened tree builds exactly the arrays that lay the tree
    out in blob order, and these arrays read back as the tree.
  */
module DtbLayout {
  import opened Endian
  import opened Extents
  import opened DtbModel
  import opened DtbTree

  // --- the arrays a tree is laid out in ------------------------------------------------------

  function Size(t: Tree): nat
    decreases t, 1
  {
    1 + ForestSize(t.children)
  }

  function ForestSize(ts: seq<Tree>): nat
    decreases ts, 0
  {
    if ts == [] then 0 else Size(ts[0]) + ForestSize(ts[1..])
  }

  function PropCount(t: Tree): nat
    decreases t, 1
  {
    |t.props| + ForestPropCount(t.children)
  }

  function ForestPropCount(ts: seq<Tree>): nat
    decreases ts, 0
  {
    if ts == [] then 0 else PropCount(ts[0]) + ForestPropCount(ts[1..])
  }

  function NameOf(strings: seq<byte>, prop: TreeProp): seq<byte> {
    match CString(strings, prop.nameOff)
    case None => []
    case Some(name) => name
  }

  /** A copied value; bump_copy turns an empty one into NULL. */
  function RawOf(value: seq<byte>): Data {
    Raw(if value == [] then None else Some(value), |value|)
  }

  function MakeProp(strings: seq<byte>, prop: TreeProp, next: Ptr): DtProp {
    DtProp(Some(NameOf(strings, prop)), next, RawOf(prop.value))
  }

  /** Each property points at the one before it in the blob; the first at `head`. */
  function PropArray(strings: seq<byte>, props: seq<TreeProp>, base: nat, head: Ptr): (a: seq<DtProp>)
    ensures |a| == |props|
  {
    if props == [] then []
    else [MakeProp(strings, props[0], head)] + PropArray(strings, props[1..], base + 1, Some(base))
  }

  function LastProp(props: seq<TreeProp>, base: nat, head: Ptr): Ptr {
    if props == [] then head else Some(base + |props| - 1)
  }

  /** The nodes of a tree in blob order, from index `base`, its properties from index `pbase`. */
  function TreeNodes(t: Tree, base: nat, pbase: nat, parent: Ptr, sibling: Ptr, name: seq<byte>): (a: seq<DtNode>)
    ensures |a| == Size(t)
    decreases t, 1
  {
    [DtNode(name, parent, if t.children == [] then None else Some(base + 1), sibling,
            LastProp(t.props, pbase, None), 0, 0)]
    + ForestNodes(t.children, base + 1, pbase + |t.props|, base)
  }

  function ForestNodes(ts: seq<Tree>, base: nat, pbase: nat, parent: nat): (a: seq<DtNode>)
    ensures |a| == ForestSize(ts)
    decreases ts, 0
  {
    if ts == [] then []
    else
      TreeNodes(ts[0], base, pbase, Some(parent), if |ts| > 1 then Some(base + Size(ts[0])) else None, ts[0].name)
      + ForestNodes(ts[1..], base + Size(ts[0]), pbase + PropCount(ts[0]), parent)
  }

  function TreeProps(strings: seq<byte>, t: Tree, pbase: nat): (a: seq<DtProp>)
    ensures |a| == PropCount(t)
    decreases t, 1
  {
    PropArray(strings, t.props, pbase, None) + ForestProps(strings, t.children, pbase + |t.props|)
  }

  function ForestProps(strings: seq<byte>, ts: seq<Tree>, pbase: nat): (a: seq<DtProp>)
    ensures |a| == ForestPropCount(ts)
    decreases ts, 0
  {
    if ts == [] then []
    else TreeProps(strings, ts[0], pbase) + ForestProps(strings, ts[1..], pbase + PropCount(ts[0]))
  }

  /** The bytes the bump allocator hands out for a tree. */
  function PropsCopy(strings: seq<byte>, props: seq<TreeProp>): nat {
    if props == [] then 0
    else |NameOf(strings, props[0])| + 1 + |props[0].value| + PropsCopy(strings, props[1..])
  }

  function TreeCopy(strings: seq<byte>, t: Tree): nat
    decreases t, 1
  {
    |t.name| + 1 + PropsCopy(strings, t.props) + ForestCopy(strings, t.children)
  }

  function ForestCopy(strings: seq<byte>, ts: seq<Tree>): nat
    decreases ts, 0
  {
    if ts == [] then 0 else TreeCopy(strings, ts[0]) + ForestCopy(strings, ts[1..])
  }

  // --- names ---------------------------------------------------------------------------------

  predicate PropsNamed(strings: seq<byte>, props: seq<TreeProp>) {
    forall i :: 0 <= i < |props| ==> CString(strings, props[i].nameOff).Some?
  }

  predicate Named(strings: seq<byte>, t: Tree)
    decreases t, 1
  {
    PropsNamed(strings, t.props) && ForestNamed(strings, t.children)
  }

  predicate ForestNamed(strings: seq<byte>, ts: seq<Tree>)
    decreases ts, 0
  {
    ts == [] || (Named(strings, ts[0]) && ForestNamed(strings, ts[1..]))
  }

  // --- properties ----------------------------------------------------------------------------

  /** The parser after a node's properties. */
  function AfterProps(strings: seq<byte>, p: Parser, c: nat, props: seq<TreeProp>): Parser
    requires c < |p.nodes|
  {
    var head := p.nodes[c].properties;
    Parser(p.nodes[c := p.nodes[c].(properties := LastProp(props, |p.props|, head))],
           p.props + PropArray(strings, props, |p.props|, head), p.curr, p.depth, p.used + PropsCopy(strings, props))
  }

  lemma OneProperty(strings: seq<byte>, size: nat, p: Parser, c: nat, prop: TreeProp)
    requires ParserOk(p) && p.curr == Some(c) && c < |p.nodes| && CString(strings, prop.nameOff).Some?
    requires p.used + PropsCopy(strings, [prop]) <= size
    ensures TokenTurn(strings, size, p, Property(prop), 0) == More(AfterProps(strings, p, c, [prop]), 0)
  {
    hide CString;
    assert [prop][1..] == [];
    assert PropArray(strings, [prop], |p.props|, p.nodes[c].properties)
        == [MakeProp(strings, prop, p.nodes[c].properties)];
  }

  lemma {:induction false} BuildProps(strings: seq<byte>, size: nat, p: Parser, c: nat, props: seq<TreeProp>)
    requires ParserOk(p) && p.curr == Some(c) && c < |p.nodes| && PropsNamed(strings, props)
    requires p.used + PropsCopy(strings, props) <= size
    ensures RunTokens(strings, size, p, PropTokens(props)) == More(AfterProps(strings, p, c, props), 0)
    decreases props
  {
    hide CString, ParserOk, TokenTurn, AfterProps, PropsCopy;
    if props == [] {
      NoProps(strings, p, c);
    } else {
      OkIsCurrOk(p);
      AfterPropsStep(strings, p, c, props);
      OneProperty(strings, size, p, c, props[0]);
      TokenKeepsOk(strings, size, p, Property(props[0]), 0);
      BuildProps(strings, size, AfterProps(strings, p, c, [props[0]]), c, props[1..]);
    }
  }

  lemma NoProps(strings: seq<byte>, p: Parser, c: nat)
    requires c < |p.nodes|
    ensures AfterProps(strings, p, c, []) == p
  {
    assert p.nodes[c := p.nodes[c].(properties := p.nodes[c].properties)] == p.nodes;
  }

  lemma AfterPropsStep(strings: seq<byte>, p: Parser, c: nat, props: seq<TreeProp>)
    requires c < |p.nodes| && props != []
    ensures var p1 := AfterProps(strings, p, c, [props[0]]);
            && c < |p1.nodes| && p1.curr == p.curr
            && p1.used + PropsCopy(strings, props[1..]) == p.used + PropsCopy(strings, props)
            && AfterProps(strings, p1, c, props[1..]) == AfterProps(strings, p, c, props)
    ensures PropsCopy(strings, [props[0]]) + PropsCopy(strings, props[1..]) == PropsCopy(strings, props)
  {
    hide MakeProp, NameOf;
    assert [props[0]][1..] == [];
    assert PropArray(strings, [props[0]], |p.props|, p.nodes[c].properties)
        == [MakeProp(strings, props[0], p.nodes[c].properties)];
  }

  // --- trees ---------------------------------------------------------------------------------

  function StoredName(depth: int, name: seq<byte>): seq<byte> {
    if depth == 0 && name == [] then ROOT_NAME else name
  }

  /** The parser after a whole tree: its nodes and properties follow what was there, and the new root is
      linked in as the last child of the current node. */
  function AfterTree(strings: seq<byte>, p: Parser, t: Tree): Parser
    requires CurrOk(p)
  {
    var n := |p.nodes|;
    Parser(LinkChild(p.nodes, p.curr, n) + TreeNodes(t, n, |p.props|, p.curr, None, StoredName(p.depth, t.name)),
           p.props + TreeProps(strings, t, |p.props|), p.curr, p.depth, p.used + TreeCopy(strings, t))
  }

  /** The parser after trees that follow child `l`, the last so far, of the current node. */
  function AfterRest(strings: seq<byte>, p: Parser, c: nat, l: nat, ts: seq<Tree>): Parser
    requires l < |p.nodes|
  {
    var n := |p.nodes|;
    Parser(p.nodes[l := p.nodes[l].(sibling := if ts == [] then None else Some(n))] + ForestNodes(ts, n, |p.props|, c),
           p.props + ForestProps(strings, ts, |p.props|), p.curr, p.depth, p.used + ForestCopy(strings, ts))
  }

  /** The parser after all children of the current node, which is the last node and has none yet. */
  function AfterForest(strings: seq<byte>, p: Parser, c: nat, ts: seq<Tree>): Parser
    requires c < |p.nodes|
  {
    var n := |p.nodes|;
    Parser(p.nodes[c := p.nodes[c].(children := if ts == [] then None else Some(n))] + ForestNodes(ts, n, |p.props|, c),
           p.props + ForestProps(strings, ts, |p.props|), p.curr, p.depth, p.used + ForestCopy(strings, ts))
  }

  ghost predicate LastChild(nodes: seq<DtNode>, c: nat, l: nat) {
    && c < |nodes| && nodes[c].children.Some? && nodes[c].children.value < |nodes|
    && LastSibling(nodes, nodes[c].children.value) == l
  }

  /** A sibling list grows at its end. */
  lemma {:induction false} ChainExtend(nodes: seq<DtNode>, extra: seq<DtNode>, i: nat, l: nat)
    requires i < |nodes| && LastSibling(nodes, i) == l && extra != [] && extra[0].sibling == None
    ensures LastSibling(nodes[l := nodes[l].(sibling := Some(|nodes|))] + extra, i) == |nodes|
    decreases |nodes| - i
  {
    var nodes' := nodes[l := nodes[l].(sibling := Some(|nodes|))] + extra;
    assert nodes'[|nodes|] == extra[0];
    var s := nodes[i].sibling;
    if s.Some? && i < s.value < |nodes| {
      ChainExtend(nodes, extra, s.value, l);
      LastNotBefore(nodes, s.value);
      assert nodes'[i] == nodes[i];
    } else {
      assert nodes'[i].sibling == Some(|nodes|);
      assert LastSibling(nodes', |nodes|) == |nodes|;
    }
  }

  lemma {:induction false} LastNotBefore(nodes: seq<DtNode>, i: nat)
    requires i < |nodes|
    ensures i <= LastSibling(nodes, i)
    decreases |nodes| - i
  {
    var s := nodes[i].sibling;
    if s.Some? && i < s.value < |nodes| {
      LastNotBefore(nodes, s.value);
    }
  }

  /** The parser inside a node it has just begun. */
  function Opened(p: Parser, name: seq<byte>): Parser
    requires CurrOk(p)
  {
    Parser(LinkChild(p.nodes, p.curr, |p.nodes|) + [NewNode(StoredName(p.depth, name), p.curr)], p.props,
           Some(|p.nodes|), p.depth + 1, p.used + |name| + 1)
  }

  /** FDT_BEGIN_NODE opens a node without properties or children. */
  lemma OpenNode(strings: seq<byte>, size: nat, p: Parser, name: seq<byte>)
    requires ParserOk(p) && p.used + |name| + 1 <= size
    ensures TokenTurn(strings, size, p, Begin(name), 0)
         == More(Opened(p, name), 0)
  {
    hide LastSibling;
  }

  /** The token loop on the tokens of a subtree appends the subtree, links it in, and comes back to the node
      it started from. */
  lemma {:induction false} BuildTree(strings: seq<byte>, size: nat, p: Parser, t: Tree)
    requires ParserOk(p) && p.depth >= 0 && Named(strings, t) && p.used + TreeCopy(strings, t) <= size
    ensures RunTokens(strings, size, p, TreeTokens(t)) == More(AfterTree(strings, p, t), 0)
    decreases t, 2
  {
    hide CString, ParserOk, TokenTurn, RunTokens, AfterProps, AfterForest, AfterTree, PropsNamed, ForestNamed,
         LinkChild, StoredName,
         PropTokens, ForestTokens, PropsCopy, ForestCopy;
    OkIsCurrOk(p);
    var n := |p.nodes|;
    OpenNode(strings, size, p, t.name);
    TokenKeepsOk(strings, size, p, Begin(t.name), 0);
    var p1 := TokenTurn(strings, size, p, Begin(t.name), 0).p;
    RunOne(strings, size, p, Begin(t.name));
    BuildProps(strings, size, p1, n, t.props);
    var p2 := AfterProps(strings, p1, n, t.props);
    RunConcat(strings, size, p1, PropTokens(t.props), ForestTokens(t.children) + [End]);
    PropsOpen(strings, p, t, p1);
    BuildForest(strings, size, p2, n, t.children);
    var p3 := AfterForest(strings, p2, n, t.children);
    RunConcat(strings, size, p2, ForestTokens(t.children), [End]);
    RunOne(strings, size, p3, End);
    assert TreeTokens(t) == [Begin(t.name)] + (PropTokens(t.props) + (ForestTokens(t.children) + [End]));
    RunConcat(strings, size, p, [Begin(t.name)], PropTokens(t.props) + (ForestTokens(t.children) + [End]));
    CloseNode(strings, size, p, t, p1, p2, p3);
  }

  lemma RunOne(strings: seq<byte>, size: nat, p: Parser, tok: Token)
    requires ParserOk(p)
    ensures CurrOk(p)
    ensures var t := TokenTurn(strings, size, p, tok, 0);
            t.More? ==> ParserOk(t.p) && RunTokens(strings, size, p, [tok]) == More(t.p, 0)
  {
    hide CString, TokenTurn;
    TokenKeepsOk(strings, size, p, tok, 0);
    assert [tok][1..] == [];
  }

  /** The opened node is the last one, still without children. */
  lemma PropsOpen(strings: seq<byte>, p: Parser, t: Tree, p1: Parser)
    requires CurrOk(p) && p.depth >= 0
    requires p1 == Opened(p, t.name)
    ensures var p2 := AfterProps(strings, p1, |p.nodes|, t.props);
            && p2.curr == Some(|p.nodes|) && |p2.nodes| == |p.nodes| + 1 && p2.nodes[|p.nodes|].children == None
            && p2.depth > 0 && p2.used == p1.used + PropsCopy(strings, t.props)
  {
    hide LinkChild;
  }

  /** FDT_END_NODE completes the subtree. */
  lemma CloseNode(strings: seq<byte>, size: nat, p: Parser, t: Tree, p1: Parser, p2: Parser, p3: Parser)
    requires CurrOk(p)
    requires p1 == Opened(p, t.name)
    requires p2 == AfterProps(strings, p1, |p.nodes|, t.props)
    requires |p2.nodes| == |p.nodes| + 1 && p3 == AfterForest(strings, p2, |p.nodes|, t.children) && CurrOk(p3)
    ensures TokenTurn(strings, size, p3, End, 0) == More(AfterTree(strings, p, t), 0)
  {
    hide LinkChild, CString, PropArray, LastProp, ForestNodes, ForestProps, StoredName, PropsCopy, ForestCopy, NewNode;
    var n, linked := |p.nodes|, LinkChild(p.nodes, p.curr, |p.nodes|);
    NewNodeFields(StoredName(p.depth, t.name), p.curr);
    var root := DtNode(StoredName(p.depth, t.name), p.curr, if t.children == [] then None else Some(n + 1), None,
                       LastProp(t.props, |p.props|, None), 0, 0);
    var rest := ForestNodes(t.children, n + 1, |p.props| + |t.props|, n);
    assert p1.nodes[n] == NewNode(StoredName(p.depth, t.name), p.curr);
    assert p3.nodes == (linked + [root]) + rest;
    assert (linked + [root]) + rest == linked + ([root] + rest);
    assert p3.props == p.props + TreeProps(strings, t, |p.props|);
  }

  lemma NewNodeFields(name: seq<byte>, parent: Ptr)
    ensures NewNode(name, parent) == DtNode(name, parent, None, None, None, 0, 0)
  {
  }

  /** The children of a node without children. */
  lemma {:induction false} BuildForest(strings: seq<byte>, size: nat, p: Parser, c: nat, ts: seq<Tree>)
    requires ParserOk(p) && p.curr == Some(c) && |p.nodes| == c + 1 && p.nodes[c].children == None && p.depth > 0
    requires ForestNamed(strings, ts) && p.used + ForestCopy(strings, ts) <= size
    ensures RunTokens(strings, size, p, ForestTokens(ts)) == More(AfterForest(strings, p, c, ts), 0)
    decreases ts, 1
  {
    hide CString, ParserOk, TokenTurn, Named, AfterTree, AfterRest;
    if ts == [] {
      assert p.nodes[c := p.nodes[c].(children := None)] == p.nodes;
      assert p.nodes + [] == p.nodes && p.props + [] == p.props;
    } else {
      OkIsCurrOk(p);
      BuildTree(strings, size, p, ts[0]);
      var p1 := AfterTree(strings, p, ts[0]);
      RunConcat(strings, size, p, TreeTokens(ts[0]), ForestTokens(ts[1..]));
      FirstChild(strings, p, c, ts);
      BuildRest(strings, size, p1, c, c + 1, ts[1..]);
    }
  }

  /** The state after the first child. */
  lemma FirstChild(strings: seq<byte>, p: Parser, c: nat, ts: seq<Tree>)
    requires p.curr == Some(c) && |p.nodes| == c + 1 && p.nodes[c].children == None && p.depth > 0 && ts != []
    ensures var p1 := AfterTree(strings, p, ts[0]);
            && p1.curr == Some(c) && p1.depth > 0 && p1.used == p.used + TreeCopy(strings, ts[0])
            && LastChild(p1.nodes, c, c + 1)
            && AfterRest(strings, p1, c, c + 1, ts[1..]) == AfterForest(strings, p, c, ts)
  {
    hide TreeProps, TreeCopy, TreeNodes, ForestNodes;
    var n, t := c + 1, ts[0];
    var p1 := AfterTree(strings, p, t);
    var linked := p.nodes[c := p.nodes[c].(children := Some(n))];
    RootSibling(t, n, |p.props|, Some(c), None, t.name);
    assert p1.nodes == linked + TreeNodes(t, n, |p.props|, Some(c), None, t.name);
    assert p1.nodes[c] == linked[c];
    assert LastSibling(p1.nodes, n) == n;
    SiblingOf(strings, p1, linked, t, c, n, |p.props|, ts[1..]);
    assert [t] + ts[1..] == ts;
    PropsOfForest(strings, ts, |p.props|);
  }

  lemma PropsOfForest(strings: seq<byte>, ts: seq<Tree>, pbase: nat)
    requires ts != []
    ensures ForestProps(strings, ts, pbase)
         == TreeProps(strings, ts[0], pbase) + ForestProps(strings, ts[1..], pbase + PropCount(ts[0]))
  {
    hide TreeProps;
  }

  /** Setting the sibling of a tree's root afterwards gives the tree laid out with that sibling. */
  lemma SiblingOf(
    strings: seq<byte>, p1: Parser, before: seq<DtNode>, t: Tree, c: nat, n: nat, pbase: nat, rest: seq<Tree>)
    requires |before| == n && p1.nodes == before + TreeNodes(t, n, pbase, Some(c), None, t.name)
    ensures |p1.nodes| == n + Size(t)
    ensures p1.nodes[n := p1.nodes[n].(sibling := if rest == [] then None else Some(|p1.nodes|))]
              + ForestNodes(rest, |p1.nodes|, pbase + PropCount(t), c)
         == before + ForestNodes([t] + rest, n, pbase, c)
  {
    var ts := [t] + rest;
    assert ts[1..] == rest;
    var s := if rest == [] then None else Some(|p1.nodes|);
    var without, with' := TreeNodes(t, n, pbase, Some(c), None, t.name), TreeNodes(t, n, pbase, Some(c), s, t.name);
    assert with' == without[0 := without[0].(sibling := s)];
    assert p1.nodes[n := p1.nodes[n].(sibling := s)] == before + with';
  }

  /** Further children behind child `l`. */
  lemma {:induction false} BuildRest(strings: seq<byte>, size: nat, p: Parser, c: nat, l: nat, ts: seq<Tree>)
    requires ParserOk(p) && p.curr == Some(c) && LastChild(p.nodes, c, l) && p.depth > 0
    requires ForestNamed(strings, ts) && p.used + ForestCopy(strings, ts) <= size
    ensures RunTokens(strings, size, p, ForestTokens(ts)) == More(AfterRest(strings, p, c, l, ts), 0)
    decreases ts, 0
  {
    hide CString, TokenTurn, Named, AfterTree, ParserOk, LastChild;
    LastHasNoSibling(p, c, l);
    if ts == [] {
      assert p.nodes[l := p.nodes[l].(sibling := None)] == p.nodes;
      assert p.nodes + [] == p.nodes && p.props + [] == p.props;
    } else {
      OkIsCurrOk(p);
      BuildTree(strings, size, p, ts[0]);
      var p1 := AfterTree(strings, p, ts[0]);
      RunConcat(strings, size, p, TreeTokens(ts[0]), ForestTokens(ts[1..]));
      NextChild(strings, p, c, l, ts);
      BuildRest(strings, size, p1, c, |p.nodes|, ts[1..]);
    }
  }

  lemma LastHasNoSibling(p: Parser, c: nat, l: nat)
    requires ParserOk(p) && LastChild(p.nodes, c, l)
    ensures l < |p.nodes| && p.nodes[l].sibling == None
  {
    LastIsLast(p.nodes, p.nodes[c].children.value);
  }

  /** The state after one more child. */
  lemma NextChild(strings: seq<byte>, p: Parser, c: nat, l: nat, ts: seq<Tree>)
    requires p.curr == Some(c) && LastChild(p.nodes, c, l) && p.depth > 0 && ts != []
    ensures var p1, n := AfterTree(strings, p, ts[0]), |p.nodes|;
            && p1.curr == Some(c) && p1.depth > 0 && p1.used == p.used + TreeCopy(strings, ts[0])
            && LastChild(p1.nodes, c, n)
            && AfterRest(strings, p1, c, n, ts[1..]) == AfterRest(strings, p, c, l, ts)
  {
    hide TreeProps, TreeCopy, LastSibling, TreeNodes, ForestNodes;
    var n, t := |p.nodes|, ts[0];
    var p1 := AfterTree(strings, p, t);
    var linked := p.nodes[l := p.nodes[l].(sibling := Some(n))];
    var tree := TreeNodes(t, n, |p.props|, Some(c), None, t.name);
    RootSibling(t, n, |p.props|, Some(c), None, t.name);
    assert p1.nodes == linked + tree;
    ChainExtend(p.nodes, tree, p.nodes[c].children.value, l);
    assert p1.nodes[c].children == p.nodes[c].children;
    SiblingOf(strings, p1, linked, t, c, n, |p.props|, ts[1..]);
    assert [t] + ts[1..] == ts;
    PropsOfForest(strings, ts, |p.props|);
  }

  /** The parser round trip. For every tree, the token loop on its flattened form, with any number of FDT_NOPs
      in any places, ends at FDT_END with no current node and depth 0, having built exactly the arrays that
      lay the tree out. */
  lemma ParserRoundTrip(strings: seq<byte>, size: nat, t: Tree, toks: seq<Token>, bytes: seq<byte>)
    requires Named(strings, t) && TreeCopy(strings, t) <= size
    requires StripNops(toks) == TreeTokens(t) + [Fin] && forall tok :: tok in toks ==> TokenOk(strings, tok)
    requires |bytes| <= MAX_BLOB && EncodeAll(strings, toks) <= bytes
    ensures ParserOk(START)
    ensures Loop(bytes, strings, size, START, 0)
         == Done(Parser(TreeNodes(t, 0, 0, None, None, StoredName(0, t.name)), TreeProps(strings, t, 0), None, 0,
                        TreeCopy(strings, t)))
  {
    hide CString, Loop, TokenTurn, TreeNodes, TreeProps, TreeCopy, EncodeAll, TokenOk, Named, RunTokens;
    BuildTree(strings, size, START, t);
    var p := AfterTree(strings, START, t);
    RunConcat(strings, size, START, TreeTokens(t), [Fin]);
    RunFin(strings, size, p);
    NopsDontMatter(strings, size, START, toks);
    assert bytes[0..] == bytes;
    LoopOnTokens(bytes, strings, size, START, 0, toks);
    assert [] + TreeNodes(t, 0, 0, None, None, StoredName(0, t.name))
        == TreeNodes(t, 0, 0, None, None, StoredName(0, t.name));
    assert [] + TreeProps(strings, t, 0) == TreeProps(strings, t, 0);
  }

  lemma RunFin(strings: seq<byte>, size: nat, p: Parser)
    requires ParserOk(p) && p.curr == None
    ensures RunTokens(strings, size, p, [Fin]) == Done(p)
  {
  }

  // --- reading the arrays back ---------------------------------------------------------------

  /** The property has the name at its offset in the strings block, and its value raw, an empty one as NULL. */
  ghost predicate PropIs(strings: seq<byte>, made: DtProp, prop: TreeProp) {
    && (CString(strings, prop.nameOff).Some? ==> made.name == CString(strings, prop.nameOff))
    && made.data == Raw(if prop.value == [] then None else Some(prop.value), |prop.value|)
  }

  lemma MadePropIs(strings: seq<byte>, prop: TreeProp, next: Ptr)
    ensures PropIs(strings, MakeProp(strings, prop, next), prop)
  {
    hide CString;
  }

  /** Following `next` from a property gives a node's properties in reverse blob order. */
  ghost predicate IsPropList(strings: seq<byte>, props: seq<DtProp>, ptr: Ptr, ps: seq<TreeProp>)
    decreases ps
  {
    if ps == [] then ptr == None
    else
      && ptr.Some? && ptr.value < |props|
      && PropIs(strings, props[ptr.value], ps[|ps| - 1])
      && IsPropList(strings, props, props[ptr.value].next, ps[..|ps| - 1])
  }

  /** The linked structure at node i is the tree: its name, its properties, its parent, and through `children`
      and `sibling` its children in blob order. */
  ghost predicate IsTree(
    strings: seq<byte>, nodes: seq<DtNode>, props: seq<DtProp>, i: nat, parent: Ptr, t: Tree, name: seq<byte>)
    decreases t, 1
  {
    && i < |nodes|
    && nodes[i].name == name && nodes[i].parent == parent
    && IsPropList(strings, props, nodes[i].properties, t.props)
    && IsForest(strings, nodes, props, nodes[i].children, i, t.children)
  }

  ghost predicate IsForest(
    strings: seq<byte>, nodes: seq<DtNode>, props: seq<DtProp>, ptr: Ptr, parent: nat, ts: seq<Tree>)
    decreases ts, 0
  {
    if ts == [] then ptr == None
    else
      && ptr.Some? && ptr.value < |nodes|
      && IsTree(strings, nodes, props, ptr.value, Some(parent), ts[0], ts[0].name)
      && IsForest(strings, nodes, props, nodes[ptr.value].sibling, parent, ts[1..])
  }

  lemma {:induction false} PropArrayAt(strings: seq<byte>, ps: seq<TreeProp>, base: nat, head: Ptr, i: nat)
    requires i < |ps|
    ensures PropArray(strings, ps, base, head)[i]
        == MakeProp(strings, ps[i], if i == 0 then head else Some(base + i - 1))
    decreases i
  {
    hide MakeProp;
    if i > 0 {
      PropArrayAt(strings, ps[1..], base + 1, Some(base), i - 1);
    }
  }

  lemma NextOf(strings: seq<byte>, prop: TreeProp, next: Ptr)
    ensures MakeProp(strings, prop, next).next == next
  {
  }

  lemma {:induction false} ArrayIsPropList(strings: seq<byte>, props: seq<DtProp>, base: nat, ps: seq<TreeProp>, k: nat)
    requires base + |ps| <= |props| && props[base..base + |ps|] == PropArray(strings, ps, base, None) && k <= |ps|
    ensures IsPropList(strings, props, LastProp(ps[..k], base, None), ps[..k])
    decreases k
  {
    hide MakeProp, PropIs;
    if k > 0 {
      ArrayIsPropList(strings, props, base, ps, k - 1);
      PropArrayAt(strings, ps, base, None, k - 1);
      MadePropIs(strings, ps[k - 1], if k == 1 then None else Some(base + k - 2));
      NextOf(strings, ps[k - 1], if k == 1 then None else Some(base + k - 2));
      assert props[base + k - 1] == props[base..base + |ps|][k - 1];
      assert ps[..k][..k - 1] == ps[..k - 1];
    }
  }

  /** The laid-out arrays are the tree. */
  lemma {:induction false} LayoutIsTree(
    strings: seq<byte>, nodes: seq<DtNode>, props: seq<DtProp>, t: Tree, base: nat, pbase: nat, parent: Ptr,
    sibling: Ptr,
    name: seq<byte>)
    requires base + Size(t) <= |nodes| && pbase + PropCount(t) <= |props|
    requires nodes[base..base + Size(t)] == TreeNodes(t, base, pbase, parent, sibling, name)
    requires props[pbase..pbase + PropCount(t)] == TreeProps(strings, t, pbase)
    ensures IsTree(strings, nodes, props, base, parent, t, name)
    decreases t, 1
  {
    hide ForestNodes, ForestProps, PropArray, MakeProp, LastProp, ForestSize, ForestPropCount, IsForest, IsPropList;
    var whole, pwhole := TreeNodes(t, base, pbase, parent, sibling, name), TreeProps(strings, t, pbase);
    assert nodes[base] == nodes[base..base + Size(t)][0] == whole[0];
    Part(nodes, base, whole, 1, |whole|);
    Part(props, pbase, pwhole, 0, |t.props|);
    Part(props, pbase, pwhole, |t.props|, |pwhole|);
    assert whole[1..] == ForestNodes(t.children, base + 1, pbase + |t.props|, base);
    assert pwhole[..|t.props|] == PropArray(strings, t.props, pbase, None);
    assert pwhole[|t.props|..] == ForestProps(strings, t.children, pbase + |t.props|);
    ArrayIsPropList(strings, props, pbase, t.props, |t.props|);
    assert t.props[..|t.props|] == t.props;
    LayoutIsForest(strings, nodes, props, t.children, base + 1, pbase + |t.props|, base);
  }

  lemma {:induction false} LayoutIsForest(
    strings: seq<byte>, nodes: seq<DtNode>, props: seq<DtProp>, ts: seq<Tree>, base: nat, pbase: nat, parent: nat)
    requires base + ForestSize(ts) <= |nodes| && pbase + ForestPropCount(ts) <= |props|
    requires nodes[base..base + ForestSize(ts)] == ForestNodes(ts, base, pbase, parent)
    requires props[pbase..pbase + ForestPropCount(ts)] == ForestProps(strings, ts, pbase)
    ensures IsForest(strings, nodes, props, if ts == [] then None else Some(base), parent, ts)
    decreases ts, 0
  {
    hide PropArray, MakeProp, IsPropList, IsTree, TreeNodes, TreeProps;
    if ts != [] {
      var n, q := Size(ts[0]), PropCount(ts[0]);
      var sibling := if |ts| > 1 then Some(base + n) else None;
      ForestParts(strings, nodes, props, ts, base, pbase, parent);
      LayoutIsTree(strings, nodes, props, ts[0], base, pbase, Some(parent), sibling, ts[0].name);
      LayoutIsForest(strings, nodes, props, ts[1..], base + n, pbase + q, parent);
    }
  }

  /** The first tree of a forest and the rest, each in its place. */
  lemma ForestParts(
    strings: seq<byte>, nodes: seq<DtNode>, props: seq<DtProp>, ts: seq<Tree>, base: nat, pbase: nat, parent: nat)
    requires ts != [] && base + ForestSize(ts) <= |nodes| && pbase + ForestPropCount(ts) <= |props|
    requires nodes[base..base + ForestSize(ts)] == ForestNodes(ts, base, pbase, parent)
    requires props[pbase..pbase + ForestPropCount(ts)] == ForestProps(strings, ts, pbase)
    ensures var n, q, m, r := Size(ts[0]), PropCount(ts[0]), ForestSize(ts[1..]), ForestPropCount(ts[1..]);
            && 0 < n && n + m == ForestSize(ts) && q + r == ForestPropCount(ts)
            && nodes[base..base + n] == TreeNodes(ts[0], base, pbase, Some(parent),
                 if |ts| > 1 then Some(base + n) else None, ts[0].name)
            && nodes[base + n..base + n + m] == ForestNodes(ts[1..], base + n, pbase + q, parent)
            && props[pbase..pbase + q] == TreeProps(strings, ts[0], pbase)
            && props[pbase + q..pbase + q + r] == ForestProps(strings, ts[1..], pbase + q)
            && nodes[base].sibling == (if |ts| > 1 then Some(base + n) else None)
  {
    hide TreeNodes, TreeProps, Size, PropCount, ForestNodes, ForestProps;
    NodeParts(nodes, ts, base, pbase, parent);
    PropParts(strings, props, ts, pbase);
  }

  lemma NodeParts(nodes: seq<DtNode>, ts: seq<Tree>, base: nat, pbase: nat, parent: nat)
    requires ts != [] && base + ForestSize(ts) <= |nodes|
    requires nodes[base..base + ForestSize(ts)] == ForestNodes(ts, base, pbase, parent)
    ensures var n, q, m := Size(ts[0]), PropCount(ts[0]), ForestSize(ts[1..]);
            && 0 < n && n + m == ForestSize(ts)
            && nodes[base..base + n] == TreeNodes(ts[0], base, pbase, Some(parent),
                 if |ts| > 1 then Some(base + n) else None, ts[0].name)
            && nodes[base + n..base + n + m] == ForestNodes(ts[1..], base + n, pbase + q, parent)
            && nodes[base].sibling == (if |ts| > 1 then Some(base + n) else None)
  {
    hide TreeNodes, Size, PropCount;
    var whole := ForestNodes(ts, base, pbase, parent);
    var n := Size(ts[0]);
    Part(nodes, base, whole, 0, n);
    Part(nodes, base, whole, n, |whole|);
    RootSibling(ts[0], base, pbase, Some(parent), if |ts| > 1 then Some(base + n) else None, ts[0].name);
    assert nodes[base] == nodes[base..base + n][0];
  }

  lemma PropParts(strings: seq<byte>, props: seq<DtProp>, ts: seq<Tree>, pbase: nat)
    requires ts != [] && pbase + ForestPropCount(ts) <= |props|
    requires props[pbase..pbase + ForestPropCount(ts)] == ForestProps(strings, ts, pbase)
    ensures var q, r := PropCount(ts[0]), ForestPropCount(ts[1..]);
            && q + r == ForestPropCount(ts)
            && props[pbase..pbase + q] == TreeProps(strings, ts[0], pbase)
            && props[pbase + q..pbase + q + r] == ForestProps(strings, ts[1..], pbase + q)
  {
    hide TreeProps, PropCount;
    var whole := ForestProps(strings, ts, pbase);
    Part(props, pbase, whole, 0, PropCount(ts[0]));
    Part(props, pbase, whole, PropCount(ts[0]), |whole|);
  }

  lemma RootSibling(t: Tree, base: nat, pbase: nat, parent: Ptr, sibling: Ptr, name: seq<byte>)
    ensures |TreeNodes(t, base, pbase, parent, sibling, name)| > 0
    ensures TreeNodes(t, base, pbase, parent, sibling, name)[0].sibling == sibling
  {
  }

  lemma RootName(name: seq<byte>)
    ensures StoredName(0, name) == if name == [] then Ascii("/") else name
  {
    assert Ascii("/") == ROOT_NAME;
  }

  /** What the parser built reads back, pointer by pointer, as the tree the blob was made from. */
  lemma ParsedIsTree(strings: seq<byte>, size: nat, t: Tree, toks: seq<Token>, bytes: seq<byte>)
    requires Named(strings, t) && TreeCopy(strings, t) <= size
    requires StripNops(toks) == TreeTokens(t) + [Fin] && forall tok :: tok in toks ==> TokenOk(strings, tok)
    requires |bytes| <= MAX_BLOB && EncodeAll(strings, toks) <= bytes
    ensures ParserOk(START)
    ensures var r := Loop(bytes, strings, size, START, 0);
            && r.Done? && r.final.curr == None && r.final.depth == 0
            && |r.final.nodes| == Size(t) && |r.final.props| == PropCount(t)
            && IsTree(strings, r.final.nodes, r.final.props, 0, None, t, if t.name == [] then Ascii("/") else t.name)
  {
    hide CString, Loop, Ascii, StoredName, TreeNodes, TreeProps, TreeCopy, EncodeAll, TokenOk, Named, IsTree;
    RootName(t.name);
    ParserRoundTrip(strings, size, t, toks, bytes);
    var nodes, props := TreeNodes(t, 0, 0, None, None, StoredName(0, t.name)), TreeProps(strings, t, 0);
    assert nodes[0..0 + Size(t)] == nodes && props[0..0 + PropCount(t)] == props;
    LayoutIsTree(strings, nodes, props, t, 0, 0, None, None, StoredName(0, t.name));
  }
}
