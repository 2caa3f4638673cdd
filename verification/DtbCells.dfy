/** The rewrite pass (src/octiron/devices/device_tree/device_tree.c:439-505) on a tree: which properties are
    decoded with which cell sizes, and how that compares with section 2.3.5 of the Devicetree Specification.
  */
module DtbCells {
  import opened Endian
  import opened Extents
  import opened DtbModel
  import opened DtbTree
  import opened DtbLayout
  import opened DtbDecode
  import opened DtbMeaning

  // --- the pass on a tree --------------------------------------------------------------------

  /** The decoded data of properties in blob order, or why the pass ended. */
  datatype Pass = Pass(datas: seq<Data>, used: nat) | Failed(why: DecodeOutcome)

  /** The number a node's properties declare under a name. The list is in reverse blob order and a later visit
      overwrites an earlier one, so the first declaration in the blob counts. */
  function Declared(strings: seq<byte>, ps: seq<TreeProp>, name: seq<byte>): Option<nat> {
    if ps == [] then None
    else if NameOf(strings, ps[0]) == name then FirstU32(RawOf(ps[0].value).value)
    else Declared(strings, ps[1..], name)
  }

  /** The cell size for the children: what the node declares, or what the node itself was given. */
  function NextCells(strings: seq<byte>, ps: seq<TreeProp>, name: seq<byte>, own: nat): nat {
    Declared(strings, ps, name).GetOr(own)
  }

  /** A node's properties, last in the blob first. */
  function PropsPass(strings: seq<byte>, ps: seq<TreeProp>, ac: nat, sc: nat, used: nat, arena: nat): (r: Pass)
    requires arena < MAX_BLOB
    ensures r.Pass? ==> |r.datas| == |ps|
    decreases ps
  {
    if ps == [] then Pass([], used)
    else
      var last := ps[|ps| - 1];
      match Decode(NameOf(strings, last), RawOf(last.value), ac, sc, used, arena)
      case Decoded(d, used') =>
        (match PropsPass(strings, ps[..|ps| - 1], ac, sc, used', arena)
         case Pass(ds, used'') => Pass(ds + [d], used'')
         case Failed(why) => Failed(why))
      case why => Failed(why)
  }

  function TreePass(strings: seq<byte>, t: Tree, ac: nat, sc: nat, used: nat, arena: nat): (r: Pass)
    requires arena < MAX_BLOB
    ensures r.Pass? ==> |r.datas| == PropCount(t)
    decreases t, 1
  {
    match PropsPass(strings, t.props, ac, sc, used, arena)
    case Failed(why) => Failed(why)
    case Pass(ds, used') =>
      match ForestPass(strings, t.children, NextCells(strings, t.props, ADDRESS_CELLS, ac),
                       NextCells(strings, t.props, SIZE_CELLS, sc), used', arena)
      case Failed(why) => Failed(why)
      case Pass(ds', used'') => Pass(ds + ds', used'')
  }

  function ForestPass(strings: seq<byte>, ts: seq<Tree>, ac: nat, sc: nat, used: nat, arena: nat): (r: Pass)
    requires arena < MAX_BLOB
    ensures r.Pass? ==> |r.datas| == ForestPropCount(ts)
    decreases ts, 0
  {
    if ts == [] then Pass([], used)
    else
      match TreePass(strings, ts[0], ac, sc, used, arena)
      case Failed(why) => Failed(why)
      case Pass(ds, used') =>
        match ForestPass(strings, ts[1..], ac, sc, used', arena)
        case Failed(why) => Failed(why)
        case Pass(ds', used'') => Pass(ds + ds', used'')
  }

  datatype Cells = Cells(address: nat, size: nat)

  /** The cell sizes of the nodes of a tree, in blob order. */
  function TreeCells(strings: seq<byte>, t: Tree, ac: nat, sc: nat): (r: seq<Cells>)
    ensures |r| == Size(t)
    decreases t, 1
  {
    [Cells(ac, sc)]
    + ForestCells(strings, t.children, NextCells(strings, t.props, ADDRESS_CELLS, ac),
                  NextCells(strings, t.props, SIZE_CELLS, sc))
  }

  function ForestCells(strings: seq<byte>, ts: seq<Tree>, ac: nat, sc: nat): (r: seq<Cells>)
    ensures |r| == ForestSize(ts)
    decreases ts, 0
  {
    if ts == [] then [] else TreeCells(strings, ts[0], ac, sc) + ForestCells(strings, ts[1..], ac, sc)
  }

  /** The pass on a tree: its properties, then its children with the cells declared there. */
  lemma TreeParts(strings: seq<byte>, t: Tree, ac: nat, sc: nat, used: nat, arena: nat)
    requires arena < MAX_BLOB
    ensures var r := PropsPass(strings, t.props, ac, sc, used, arena);
            var ac', sc' := NextCells(strings, t.props, ADDRESS_CELLS, ac), NextCells(strings, t.props, SIZE_CELLS, sc);
            && TreeCells(strings, t, ac, sc) == [Cells(ac, sc)] + ForestCells(strings, t.children, ac', sc')
            && TreePass(strings, t, ac, sc, used, arena)
               == if r.Failed? then r
                  else
                    var f := ForestPass(strings, t.children, ac', sc', r.used, arena);
                    if f.Failed? then f else Pass(r.datas + f.datas, f.used)
  {
    hide PropsPass, ForestPass, NextCells, ForestCells;
  }

  // --- cell propagation ----------------------------------------------------------------------

  /** A path of child positions that exists in the tree. */
  predicate IsPath(t: Tree, path: seq<nat>)
    decreases |path|
  {
    path == [] || (path[0] < |t.children| && IsPath(t.children[path[0]], path[1..]))
  }

  /** The node at a path. */
  function NodeAt(t: Tree, path: seq<nat>): Tree
    requires IsPath(t, path)
    decreases |path|
  {
    if path == [] then t else NodeAt(t.children[path[0]], path[1..])
  }

  /** The position of the node at a path in blob order. */
  function IndexAt(t: Tree, path: seq<nat>): nat
    requires IsPath(t, path)
    decreases |path|
  {
    if path == [] then 0
    else 1 + ForestSize(t.children[..path[0]]) + IndexAt(t.children[path[0]], path[1..])
  }

  lemma {:induction false} PathPrefix(t: Tree, path: seq<nat>, k: nat)
    requires IsPath(t, path) && k <= |path|
    ensures IsPath(t, path[..k])
    decreases k
  {
    if k > 0 {
      PathPrefix(t.children[path[0]], path[1..], k - 1);
      assert path[..k][1..] == path[1..][..k - 1];
    }
  }

  /** What the nearest proper ancestor that declares `name` declares, searched from the parent upwards; the
      default if none does. */
  function Inherited(strings: seq<byte>, t: Tree, path: seq<nat>, name: seq<byte>, default: nat): nat
    requires IsPath(t, path)
    decreases |path|
  {
    if path == [] then default
    else
      var up := path[..|path| - 1];
      PathPrefix(t, path, |path| - 1);
      Declared(strings, NodeAt(t, up).props, name).GetOr(Inherited(strings, t, up, name, default))
  }

  lemma InheritedStep(strings: seq<byte>, t: Tree, path: seq<nat>, name: seq<byte>, default: nat)
    requires IsPath(t, path) && path != []
    ensures var up := path[..|path| - 1];
            && IsPath(t, up)
            && Inherited(strings, t, path, name, default)
               == Declared(strings, NodeAt(t, up).props, name).GetOr(Inherited(strings, t, up, name, default))
  {
    hide Declared, NodeAt;
    PathPrefix(t, path, |path| - 1);
  }

  lemma NodeStep(t: Tree, path: seq<nat>)
    requires IsPath(t, path) && path != []
    ensures path[0] < |t.children| && IsPath(t.children[path[0]], path[1..])
    ensures NodeAt(t, path) == NodeAt(t.children[path[0]], path[1..])
  {
  }

  /** Looking one level down first comes to the same. */
  lemma {:induction false} InheritedDown(strings: seq<byte>, t: Tree, path: seq<nat>, name: seq<byte>, default: nat)
    requires IsPath(t, path) && path != []
    ensures IsPath(t.children[path[0]], path[1..])
    ensures Inherited(strings, t, path, name, default)
         == Inherited(strings, t.children[path[0]], path[1..], name, NextCells(strings, t.props, name, default))
    decreases |path|
  {
    hide Declared, Inherited, NodeAt, IsPath;
    var up := path[..|path| - 1];
    NodeStep(t, path);
    InheritedStep(strings, t, path, name, default);
    if |path| == 1 {
      assert up == [] && path[1..] == [];
      InheritedHere(strings, t, name, default);
      InheritedHere(strings, t.children[path[0]], name, NextCells(strings, t.props, name, default));
      NodeHere(t);
    } else {
      InheritedDown(strings, t, up, name, default);
      InheritedStep(strings, t.children[path[0]], path[1..], name, NextCells(strings, t.props, name, default));
      NodeStep(t, up);
      assert up[1..] == path[1..][..|path| - 2];
    }
  }

  lemma NodeHere(t: Tree)
    ensures IsPath(t, []) && NodeAt(t, []) == t
  {
  }

  lemma {:induction false} CellsOfForest(strings: seq<byte>, ts: seq<Tree>, ac: nat, sc: nat, i: nat, x: nat)
    requires i < |ts| && x < Size(ts[i])
    ensures ForestSize(ts[..i]) + x < ForestSize(ts)
    ensures ForestCells(strings, ts, ac, sc)[ForestSize(ts[..i]) + x] == TreeCells(strings, ts[i], ac, sc)[x]
    decreases ts
  {
    hide TreeCells, Size;
    if i == 0 {
      assert ts[..0] == [];
    } else {
      CellsOfForest(strings, ts[1..], ac, sc, i - 1, x);
      assert ts[..i][1..] == ts[1..][..i - 1] && ts[..i][0] == ts[0];
    }
  }

  /** Cell propagation: in the rewritten tree the cell sizes of every node are what its nearest declaring proper
      ancestor declares, and 2 and 1 if there is none. */
  lemma {:induction false} CellsAreInherited(strings: seq<byte>, t: Tree, ac: nat, sc: nat, path: seq<nat>)
    requires IsPath(t, path)
    ensures IndexAt(t, path) < Size(t)
    ensures TreeCells(strings, t, ac, sc)[IndexAt(t, path)]
         == Cells(Inherited(strings, t, path, ADDRESS_CELLS, ac), Inherited(strings, t, path, SIZE_CELLS, sc))
    decreases |path|
  {
    hide Declared, Inherited;
    if path == [] {
      InheritedHere(strings, t, ADDRESS_CELLS, ac);
      InheritedHere(strings, t, SIZE_CELLS, sc);
    } else {
      var c, rest := t.children[path[0]], path[1..];
      var ac', sc' := NextCells(strings, t.props, ADDRESS_CELLS, ac), NextCells(strings, t.props, SIZE_CELLS, sc);
      CellsAreInherited(strings, c, ac', sc', rest);
      CellsOfForest(strings, t.children, ac', sc', path[0], IndexAt(c, rest));
      InheritedDown(strings, t, path, ADDRESS_CELLS, ac);
      InheritedDown(strings, t, path, SIZE_CELLS, sc);
    }
  }

  lemma InheritedHere(strings: seq<byte>, t: Tree, name: seq<byte>, default: nat)
    ensures Inherited(strings, t, [], name, default) == default
  {
  }

  // --- every property, once ------------------------------------------------------------------

  /** The position in blob order of the first property of the node at a path. */
  function PropIndex(t: Tree, path: seq<nat>): nat
    requires IsPath(t, path)
    decreases |path|
  {
    if path == [] then 0
    else |t.props| + ForestPropCount(t.children[..path[0]]) + PropIndex(t.children[path[0]], path[1..])
  }

  lemma {:induction false} PropsDecoded(
    strings: seq<byte>, ps: seq<TreeProp>, ac: nat, sc: nat, used: nat, arena: nat, k: nat)
    returns (u: nat)
    requires arena < MAX_BLOB && PropsPass(strings, ps, ac, sc, used, arena).Pass? && k < |ps|
    ensures var o := Decode(NameOf(strings, ps[k]), RawOf(ps[k].value), ac, sc, u, arena);
            o.Decoded? && PropsPass(strings, ps, ac, sc, used, arena).datas[k] == o.data
    decreases ps
  {
    hide Decode, NameOf;
    var last := ps[|ps| - 1];
    if k == |ps| - 1 {
      u := used;
    } else {
      var used' := Decode(NameOf(strings, last), RawOf(last.value), ac, sc, used, arena).used;
      u := PropsDecoded(strings, ps[..|ps| - 1], ac, sc, used', arena, k);
    }
  }

  lemma {:induction false} SubtreeDecoded(
    strings: seq<byte>, ts: seq<Tree>, ac: nat, sc: nat, used: nat, arena: nat, i: nat, x: nat)
    returns (u: nat)
    requires arena < MAX_BLOB && ForestPass(strings, ts, ac, sc, used, arena).Pass? && i < |ts| && x < PropCount(ts[i])
    ensures ForestPropCount(ts[..i]) + x < ForestPropCount(ts)
    ensures var r := TreePass(strings, ts[i], ac, sc, u, arena);
            r.Pass? && ForestPass(strings, ts, ac, sc, used, arena).datas[ForestPropCount(ts[..i]) + x] == r.datas[x]
    decreases ts
  {
    hide TreePass, PropCount;
    if i == 0 {
      assert ts[..0] == [];
      u := used;
    } else {
      var used' := TreePass(strings, ts[0], ac, sc, used, arena).used;
      u := SubtreeDecoded(strings, ts[1..], ac, sc, used', arena, i - 1, x);
      assert ts[..i][1..] == ts[1..][..i - 1] && ts[..i][0] == ts[0];
    }
  }

  /** Every property of every node is decoded, under the cell sizes its node inherits, whatever the order of the
      properties around it. `u` is what was used of the arena when its turn came. */
  lemma {:induction false} PropertyDecoded(
    strings: seq<byte>, t: Tree, ac: nat, sc: nat, used: nat, arena: nat, path: seq<nat>, k: nat)
    returns (u: nat)
    requires arena < MAX_BLOB && TreePass(strings, t, ac, sc, used, arena).Pass?
    requires IsPath(t, path) && k < |NodeAt(t, path).props|
    ensures PropIndex(t, path) + k < PropCount(t)
    ensures var prop := NodeAt(t, path).props[k];
            var o := Decode(NameOf(strings, prop), RawOf(prop.value), Inherited(strings, t, path, ADDRESS_CELLS, ac),
                            Inherited(strings, t, path, SIZE_CELLS, sc), u, arena);
            o.Decoded? && TreePass(strings, t, ac, sc, used, arena).datas[PropIndex(t, path) + k] == o.data
    ensures var prop := NodeAt(t, path).props[k];
            PropertyHolds(NameOf(strings, prop), prop.value, Inherited(strings, t, path, ADDRESS_CELLS, ac),
                          Inherited(strings, t, path, SIZE_CELLS, sc),
                          TreePass(strings, t, ac, sc, used, arena).datas[PropIndex(t, path) + k])
    decreases |path|
  {
    hide Decode, NameOf, Declared, Inherited, PropsPass, ForestPass, TreePass, NextCells, ForestPropCount,
         PropertyHolds;
    TreeParts(strings, t, ac, sc, used, arena);
    InheritedHere(strings, t, ADDRESS_CELLS, ac);
    InheritedHere(strings, t, SIZE_CELLS, sc);
    if path == [] {
      u := PropsDecoded(strings, t.props, ac, sc, used, arena, k);
      DecodedHolds(NameOf(strings, t.props[k]), t.props[k].value, ac, sc, u, arena);
    } else {
      var c, rest := t.children[path[0]], path[1..];
      var ac', sc' := NextCells(strings, t.props, ADDRESS_CELLS, ac), NextCells(strings, t.props, SIZE_CELLS, sc);
      var used' := PropsPass(strings, t.props, ac, sc, used, arena).used;
      InheritedDown(strings, t, path, ADDRESS_CELLS, ac);
      InheritedDown(strings, t, path, SIZE_CELLS, sc);
      PropFits(c, rest, k);
      var v := SubtreeDecoded(strings, t.children, ac', sc', used', arena, path[0], PropIndex(c, rest) + k);
      u := PropertyDecoded(strings, c, ac', sc', v, arena, rest, k);
    }
  }

  lemma {:induction false} PropFits(t: Tree, path: seq<nat>, k: nat)
    requires IsPath(t, path) && k < |NodeAt(t, path).props|
    ensures PropIndex(t, path) + k < PropCount(t)
    decreases |path|
  {
    hide ForestPropCount;
    if path != [] {
      PropFits(t.children[path[0]], path[1..], k);
      ForestFits(t.children, path[0], PropIndex(t.children[path[0]], path[1..]) + k);
    }
  }

  lemma {:induction false} ForestFits(ts: seq<Tree>, i: nat, x: nat)
    requires i < |ts| && x < PropCount(ts[i])
    ensures ForestPropCount(ts[..i]) + x < ForestPropCount(ts)
    decreases ts
  {
    hide PropCount;
    if i == 0 {
      assert ts[..0] == [];
    } else {
      ForestFits(ts[1..], i - 1, x);
      assert ts[..i][1..] == ts[1..][..i - 1] && ts[..i][0] == ts[0];
    }
  }

  /** Of several declarations in a node the first in the blob counts, wherever it stands; without any, none. */
  lemma {:induction false} DeclaredLeast(strings: seq<byte>, ps: seq<TreeProp>, name: seq<byte>, k: nat)
    requires k <= |ps| && forall i :: 0 <= i < k ==> NameOf(strings, ps[i]) != name
    requires k < |ps| ==> NameOf(strings, ps[k]) == name
    ensures Declared(strings, ps, name).Some? <==> k < |ps| && |ps[k].value| >= 4
    ensures Declared(strings, ps, name).Some? ==> StartsWithNumber(ps[k].value, Declared(strings, ps, name).value)
    decreases ps
  {
    hide NameOf, FirstU32, BigBytes;
    if k == 0 {
      if ps != [] {
        FirstU32Meaning(RawOf(ps[0].value).value);
      }
    } else {
      DeclaredLeast(strings, ps[1..], name, k - 1);
    }
  }

  ghost predicate HasNone(strings: seq<byte>, ps: seq<TreeProp>, name: seq<byte>) {
    forall i :: 0 <= i < |ps| ==> NameOf(strings, ps[i]) != name
  }

  /** Of the nodes on the way down to a node, none from the m-th on has a property of that name. */
  ghost predicate NoneDeclares(strings: seq<byte>, t: Tree, path: seq<nat>, m: nat, name: seq<byte>)
    requires IsPath(t, path)
  {
    forall j: nat :: m <= j < |path| ==> IsPath(t, path[..j]) && HasNone(strings, NodeAt(t, path[..j]).props, name)
  }

  /** Where no proper ancestor declares a cell size, a node gets the default. */
  lemma {:induction false} InheritsDefault(strings: seq<byte>, t: Tree, path: seq<nat>, name: seq<byte>, default: nat)
    requires IsPath(t, path) && NoneDeclares(strings, t, path, 0, name)
    ensures Inherited(strings, t, path, name, default) == default
    decreases |path|
  {
    hide NameOf, Declared, Inherited, NodeAt, IsPath;
    if path == [] {
      InheritedHere(strings, t, name, default);
    } else {
      var up := path[..|path| - 1];
      InheritedStep(strings, t, path, name, default);
      DeclaresNothing(strings, t, path, 0, name);
      InheritsDefault(strings, t, up, name, default);
    }
  }

  lemma DeclaresNothing(strings: seq<byte>, t: Tree, path: seq<nat>, m: nat, name: seq<byte>)
    requires IsPath(t, path) && path != [] && m < |path| && NoneDeclares(strings, t, path, m, name)
    ensures var up := path[..|path| - 1];
            && IsPath(t, up) && Declared(strings, NodeAt(t, up).props, name) == None
            && NoneDeclares(strings, t, up, m, name)
  {
    hide NameOf, Declared, NodeAt, IsPath;
    var up := path[..|path| - 1];
    PathPrefix(t, path, |path| - 1);
    var ps := NodeAt(t, up).props;
    assert HasNone(strings, ps, name);
    DeclaredLeast(strings, ps, name, |ps|);
    forall j: nat | m <= j < |up|
      ensures IsPath(t, up[..j]) && HasNone(strings, NodeAt(t, up[..j]).props, name)
    {
      assert up[..j] == path[..j];
    }
  }

  lemma NotBefore(strings: seq<byte>, ps: seq<TreeProp>, name: seq<byte>, k: nat)
    requires k <= |ps| && HasNone(strings, ps[..k], name)
    ensures forall i :: 0 <= i < k ==> NameOf(strings, ps[i]) != name
  {
    hide NameOf;
    forall i | 0 <= i < k
      ensures NameOf(strings, ps[i]) != name
    {
      assert ps[..k][i] == ps[i];
    }
  }

  /** Otherwise it gets the number that the nearest one declares, in the first property of that name. */
  lemma {:induction false} InheritsNearest(
    strings: seq<byte>, t: Tree, path: seq<nat>, name: seq<byte>, default: nat, m: nat, k: nat)
    requires IsPath(t, path) && m < |path| && IsPath(t, path[..m]) && NoneDeclares(strings, t, path, m + 1, name)
    requires k < |NodeAt(t, path[..m]).props| && NameOf(strings, NodeAt(t, path[..m]).props[k]) == name
    requires HasNone(strings, NodeAt(t, path[..m]).props[..k], name)
    requires |NodeAt(t, path[..m]).props[k].value| >= 4
    ensures StartsWithNumber(NodeAt(t, path[..m]).props[k].value, Inherited(strings, t, path, name, default))
    decreases |path|
  {
    hide NameOf, Declared, Inherited, NodeAt, IsPath, StartsWithNumber;
    var up := path[..|path| - 1];
    InheritedStep(strings, t, path, name, default);
    if m == |path| - 1 {
      NotBefore(strings, NodeAt(t, up).props, name, k);
      DeclaredLeast(strings, NodeAt(t, up).props, name, k);
    } else {
      DeclaresNothing(strings, t, path, m + 1, name);
      assert up[..m] == path[..m];
      InheritsNearest(strings, t, up, name, default, m, k);
    }
  }

  // --- the rule of the standard --------------------------------------------------------------

  /** Section 2.3.5 of the Devicetree Specification: what the parent declares, and the default if it declares
      nothing. */
  function ByParent(strings: seq<byte>, t: Tree, path: seq<nat>, name: seq<byte>, default: nat): nat
    requires IsPath(t, path) && path != []
  {
    PathPrefix(t, path, |path| - 1);
    Declared(strings, NodeAt(t, path[..|path| - 1]).props, name).GetOr(default)
  }

  /** A node gets what the standard says exactly when its parent declares a value or itself was given the
      default. */
  lemma ConformsIff(strings: seq<byte>, t: Tree, path: seq<nat>, name: seq<byte>, default: nat)
    requires IsPath(t, path) && path != []
    ensures IsPath(t, path[..|path| - 1])
    ensures Inherited(strings, t, path, name, default) == ByParent(strings, t, path, name, default) <==>
              || Declared(strings, NodeAt(t, path[..|path| - 1]).props, name).Some?
              || Inherited(strings, t, path[..|path| - 1], name, default) == default
  {
    hide Declared, NodeAt, Inherited;
    PathPrefix(t, path, |path| - 1);
    InheritedStep(strings, t, path, name, default);
  }

  /** In a tree whose root was given `own`, every node with children declares a value or was given the default:
      a test along the tree. */
  predicate Conforms(strings: seq<byte>, t: Tree, name: seq<byte>, own: nat, default: nat)
    decreases t, 1
  {
    t.children == []
    || ((Declared(strings, t.props, name).Some? || own == default)
        && AllConform(strings, t.children, name, NextCells(strings, t.props, name, own), default))
  }

  predicate AllConform(strings: seq<byte>, ts: seq<Tree>, name: seq<byte>, own: nat, default: nat)
    decreases ts, 0
  {
    ts == [] || (Conforms(strings, ts[0], name, own, default) && AllConform(strings, ts[1..], name, own, default))
  }

  lemma {:induction false} EachConforms(
    strings: seq<byte>, ts: seq<Tree>, name: seq<byte>, own: nat, default: nat, i: nat)
    requires AllConform(strings, ts, name, own, default) && i < |ts|
    ensures Conforms(strings, ts[i], name, own, default)
    decreases ts
  {
    hide Conforms;
    if i > 0 {
      EachConforms(strings, ts[1..], name, own, default, i - 1);
    }
  }

  lemma {:induction false} OneFails(strings: seq<byte>, ts: seq<Tree>, name: seq<byte>, own: nat, default: nat)
    returns (i: nat)
    requires !AllConform(strings, ts, name, own, default)
    ensures i < |ts| && !Conforms(strings, ts[i], name, own, default)
    decreases ts
  {
    hide Conforms;
    if Conforms(strings, ts[0], name, own, default) {
      i := OneFails(strings, ts[1..], name, own, default);
      i := i + 1;
    } else {
      i := 0;
    }
  }

  /** The parent of a node further down, seen from one level below the root. */
  lemma ByParentDown(strings: seq<byte>, t: Tree, path: seq<nat>, name: seq<byte>, default: nat)
    requires IsPath(t, path) && |path| > 1
    ensures path[0] < |t.children| && IsPath(t.children[path[0]], path[1..])
    ensures ByParent(strings, t, path, name, default)
         == ByParent(strings, t.children[path[0]], path[1..], name, default)
  {
    hide Declared, NodeAt, IsPath;
    NodeStep(t, path);
    PathPrefix(t, path, |path| - 1);
    NodeStep(t, path[..|path| - 1]);
    assert path[..|path| - 1][1..] == path[1..][..|path[1..]| - 1];
  }

  lemma ByParentHere(strings: seq<byte>, t: Tree, path: seq<nat>, name: seq<byte>, default: nat)
    requires IsPath(t, path) && |path| == 1
    ensures path[0] < |t.children| && path[1..] == []
    ensures ByParent(strings, t, path, name, default) == Declared(strings, t.props, name).GetOr(default)
  {
    hide Declared;
    assert path[..0] == [];
  }

  /** In a tree that passes the test all nodes below the root get what the standard says. */
  lemma {:induction false} ConformsEverywhere(
    strings: seq<byte>, t: Tree, name: seq<byte>, own: nat, default: nat, path: seq<nat>)
    requires Conforms(strings, t, name, own, default) && IsPath(t, path) && path != []
    ensures Inherited(strings, t, path, name, own) == ByParent(strings, t, path, name, default)
    decreases |path|
  {
    hide Declared, Inherited, ByParent, AllConform, IsPath;
    NodeStep(t, path);
    InheritedDown(strings, t, path, name, own);
    var c, next := t.children[path[0]], NextCells(strings, t.props, name, own);
    EachConforms(strings, t.children, name, next, default, path[0]);
    if |path| == 1 {
      ByParentHere(strings, t, path, name, default);
      InheritedHere(strings, c, name, next);
    } else {
      ByParentDown(strings, t, path, name, default);
      ConformsEverywhere(strings, c, name, next, default, path[1..]);
    }
  }

  /** In one that does not, some node gets something else. */
  lemma {:induction false} SomeNodeDiffers(strings: seq<byte>, t: Tree, name: seq<byte>, own: nat, default: nat)
    returns (path: seq<nat>)
    requires !Conforms(strings, t, name, own, default)
    ensures IsPath(t, path) && path != []
    ensures Inherited(strings, t, path, name, own) != ByParent(strings, t, path, name, default)
    decreases t
  {
    hide Declared, Inherited, ByParent, AllConform, NextCells;
    var next := NextCells(strings, t.props, name, own);
    if !(Declared(strings, t.props, name).Some? || own == default) {
      path := [0];
      ChildPath(t, 0, []);
      InheritedDown(strings, t, path, name, own);
      InheritedHere(strings, t.children[0], name, next);
      ByParentHere(strings, t, path, name, default);
      NotDeclared(strings, t.props, name, own);
    } else {
      var i := OneFails(strings, t.children, name, next, default);
      var rest := SomeNodeDiffers(strings, t.children[i], name, next, default);
      path := [i] + rest;
      ChildPath(t, i, rest);
      InheritedDown(strings, t, path, name, own);
      ByParentDown(strings, t, path, name, default);
    }
  }

  lemma NotDeclared(strings: seq<byte>, ps: seq<TreeProp>, name: seq<byte>, own: nat)
    requires Declared(strings, ps, name).None?
    ensures NextCells(strings, ps, name, own) == own
  {
    hide Declared;
  }

  lemma ChildPath(t: Tree, i: nat, rest: seq<nat>)
    requires i < |t.children| && IsPath(t.children[i], rest)
    ensures IsPath(t, [i] + rest) && ([i] + rest)[0] == i && ([i] + rest)[1..] == rest
  {
  }

  /** The code conforms to section 2.3.5 on the whole tree exactly when every node that has children declares the
      cell size or was itself given the default. */
  lemma TreeConformsIff(strings: seq<byte>, t: Tree, name: seq<byte>, default: nat)
    ensures Conforms(strings, t, name, default, default) <==>
              forall path :: IsPath(t, path) && path != [] ==>
                Inherited(strings, t, path, name, default) == ByParent(strings, t, path, name, default)
  {
    hide Inherited, ByParent, IsPath, Conforms;
    if Conforms(strings, t, name, default, default) {
      forall path | IsPath(t, path) && path != []
        ensures Inherited(strings, t, path, name, default) == ByParent(strings, t, path, name, default)
      {
        ConformsEverywhere(strings, t, name, default, default, path);
      }
    } else {
      var path := SomeNodeDiffers(strings, t, name, default, default);
    }
  }

  /** A root that declares one address cell, with a child that declares none, with a child: for that grandchild
      the code has one address cell where the standard says two. */
  lemma CellsDiffer(strings: seq<byte>, one: seq<byte>)
    requires strings == ADDRESS_CELLS + [0] && one == [0, 0, 0, 1]
    ensures var leaf := Tree([98], [], []);
            var t := Tree([], [TreeProp(0, one)], [Tree([97], [], [leaf])]);
            && IsPath(t, [0, 0])
            && Inherited(strings, t, [0, 0], ADDRESS_CELLS, 2) == 1
            && ByParent(strings, t, [0, 0], ADDRESS_CELLS, 2) == 2
  {
    hide CString, ReadU32, Inherited, Declared;
    var leaf := Tree([98], [], []);
    var child := Tree([97], [], [leaf]);
    var t := Tree([], [TreeProp(0, one)], [child]);
    assert strings[0..0 + |ADDRESS_CELLS| + 1] == ADDRESS_CELLS + [0];
    CStringBack(strings, 0, ADDRESS_CELLS);
    DeclaredLeast(strings, t.props, ADDRESS_CELLS, 0);
    NumberIs(one, Declared(strings, t.props, ADDRESS_CELLS).value);
    BigOf4(one[..4]);
    DeclaredLeast(strings, child.props, ADDRESS_CELLS, 0);
    ChildPath(child, 0, []);
    ChildPath(t, 0, [0]);
    assert [0] + [] == [0] && [0] + [0] == [0, 0];
    InheritedDown(strings, t, [0, 0], ADDRESS_CELLS, 2);
    InheritedDown(strings, child, [0], ADDRESS_CELLS, 1);
    InheritedHere(strings, leaf, ADDRESS_CELLS, 1);
    ByParentDown(strings, t, [0, 0], ADDRESS_CELLS, 2);
    ByParentHere(strings, child, [0], ADDRESS_CELLS, 2);
  }
}
