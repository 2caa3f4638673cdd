/** The device tree in memory and one turn of the token loop (src/octiron/devices/device_tree/
    device_tree.c:45-258, 773-814; Devicetree Specification v0.4, section 5.4).

    Nodes and properties are elements of two growing arrays, so a pointer is an index and NULL is None.
  */
module DtbModel {
  import opened Words
  import opened Endian
  import opened Extents

  const MAX_BLOB: nat := 0x1_0000_0000  // totalsize is a 32-bit number

  type Ptr = Option<nat>

  datatype StatusValue = Okay | Disabled | Reserved | Fail | FailReason(reason: seq<byte>)

  /** The data of a property: raw until the rewrite pass has decoded it. */
  datatype Data =
    | Raw(value: Option<seq<byte>>, len: nat)
    | Compatible(strings: seq<seq<byte>>)
    | Text(model: bool, text: Option<seq<byte>>)
    | Phandle(handle: nat)
    | Status(status: StatusValue)
    | AddressCells(addressCells: nat)
    | SizeCells(sizeCells: nat)
    | DmaCoherence(coherent: bool)
    | Reg(addresses: seq<nat>, sizes: seq<nat>)
    | Ranges(dma: bool, children: seq<nat>, parents: seq<nat>, lengths: seq<nat>)

  /** struct dtProperty */
  datatype DtProp = DtProp(name: Option<seq<byte>>, next: Ptr, data: Data)

  /** struct dtNode */
  datatype DtNode = DtNode(
    name: seq<byte>, parent: Ptr, children: Ptr, sibling: Ptr, properties: Ptr, addressCells: nat, sizeCells: nat)

  function NewNode(name: seq<byte>, parent: Ptr): DtNode {
    DtNode(name, parent, None, None, None, 0, 0)
  }

  /** The state of the token loop; `used` is the index of the bump allocator. */
  datatype Parser = Parser(nodes: seq<DtNode>, props: seq<DtProp>, curr: Ptr, depth: int, used: nat)

  const START: Parser := Parser([], [], None, 0, 0)

  // --- bytes ---------------------------------------------------------------------------------

  /** READ_BIG_ENDIAN_U32 */
  function ReadU32(bytes: seq<byte>, off: nat): nat
    requires off + 4 <= |bytes|
  {
    Flip32(Little(bytes[off..off + 4]))
  }

  /** The NUL-terminated string at an offset, without its NUL; None if it runs out of the block. */
  function CString(bytes: seq<byte>, off: nat): (s: Option<seq<byte>>)
    ensures s.Some? ==> off + |s.value| < |bytes| && s.value == bytes[off..off + |s.value|]
    ensures s.Some? ==> bytes[off + |s.value|] == 0 && 0 !in s.value
    decreases |bytes| - off
  {
    if off >= |bytes| then None
    else if bytes[off] == 0 then Some([])
    else
      match CString(bytes, off + 1)
      case None => None
      case Some(rest) => Some([bytes[off]] + rest)
  }

  function Padded(n: nat): nat
    requires n <= MAX_BLOB
  {
    AlignUp(n, 4)
  }

  lemma PaddedMeaning(n: nat)
    requires n <= MAX_BLOB
    ensures n <= Padded(n) < n + 4 && Padded(n) % 4 == 0
  {
    hide AlignUp;
    assert 4 == Pow2(2);
    AlignUpMeaning(n, 4);
  }

  // --- list pointers -------------------------------------------------------------------------

  /** Sibling pointers lead to later nodes. */
  ghost predicate Ascending(nodes: seq<DtNode>) {
    forall i :: 0 <= i < |nodes| && nodes[i].sibling.Some? ==> i < nodes[i].sibling.value < |nodes|
  }

  /** The last node of the sibling list that starts at i. */
  function LastSibling(nodes: seq<DtNode>, i: nat): (l: nat)
    requires i < |nodes|
    ensures l < |nodes|
    decreases |nodes| - i
  {
    var s := nodes[i].sibling;
    if s.Some? && i < s.value < |nodes| then LastSibling(nodes, s.value) else i
  }

  /** Linking node n in as the last child of `parent`. */
  function LinkChild(nodes: seq<DtNode>, parent: Ptr, n: nat): (r: seq<DtNode>)
    requires parent.Some? ==> parent.value < |nodes|
    ensures |r| == |nodes|
  {
    if parent.None? then nodes
    else
      var c := nodes[parent.value];
      if c.children.None? then nodes[parent.value := c.(children := Some(n))]
      else if c.children.value < |nodes| then
        var l := LastSibling(nodes, c.children.value);
        nodes[l := nodes[l].(sibling := Some(n))]
      else nodes
  }

  // --- one turn of the loop ------------------------------------------------------------------

  /** `More` leaves the parser at a new offset; `Stopped` is a PANIC_LOOP or a failed ASSERT; `Strayed` is a
      read beyond the block or through NULL, of which nothing is known. */
  datatype Turn = More(p: Parser, off: nat) | Done(final: Parser) | Stopped | Strayed

  const ROOT_NAME: seq<byte> := [47]  // "/"

  /** dtb_parse_node */
  function BeginNode(p: Parser, name: seq<byte>, size: nat): Option<Parser>
    requires p.curr.Some? ==> p.curr.value < |p.nodes|
  {
    if p.used + |name| + 1 > size then None
    else
      var stored := if p.depth == 0 && name == [] then ROOT_NAME else name;
      Some(Parser(LinkChild(p.nodes, p.curr, |p.nodes|) + [NewNode(stored, p.curr)], p.props, Some(|p.nodes|),
                  p.depth + 1, p.used + |name| + 1))
  }

  /** A copy into the bump allocator, which fails for no bytes and for too many. */
  function Copied(bytes: seq<byte>, used: nat, size: nat): (Option<seq<byte>>, nat) {
    if bytes == [] || used + |bytes| > size then (None, used) else (Some(bytes), used + |bytes|)
  }

  /** dtb_parse_property */
  function AddProperty(p: Parser, name: seq<byte>, value: seq<byte>, size: nat): Parser
    requires p.curr.Some? && p.curr.value < |p.nodes|
  {
    var c := p.nodes[p.curr.value];
    var (copy, used1) := Copied(name + [0], p.used, size);
    var (data, used2) := Copied(value, used1, size);
    var prop := DtProp(if copy.Some? then Some(name) else None, c.properties, Raw(data, |value|));
    Parser(p.nodes[p.curr.value := c.(properties := Some(|p.props|))], p.props + [prop], p.curr, p.depth, used2)
  }

  predicate CurrOk(p: Parser) {
    p.curr.Some? ==> p.curr.value < |p.nodes|
  }

  function EndNode(p: Parser): Parser
    requires p.curr.Some? && CurrOk(p)
  {
    p.(curr := p.nodes[p.curr.value].parent, depth := p.depth - 1)
  }

  /** FDT_BEGIN_NODE: the name follows the token. */
  function BeginTurn(bytes: seq<byte>, size: nat, p: Parser, at: nat): Turn
    requires |bytes| <= MAX_BLOB && CurrOk(p)
  {
    match CString(bytes, at)
    case None => Strayed
    case Some(name) =>
      match BeginNode(p, name, size)
      case None => Stopped
      case Some(p') => More(p', at + Padded(|name| + 1))
  }

  /** FDT_PROP: length, name offset and value follow the token. */
  function PropertyTurn(bytes: seq<byte>, strings: seq<byte>, size: nat, p: Parser, at: nat): Turn
    requires |bytes| <= MAX_BLOB && p.curr.Some? && CurrOk(p)
  {
    if at + 8 > |bytes| then Strayed
    else
      var len, nameOff := ReadU32(bytes, at), ReadU32(bytes, at + 4);
      if at + 8 + len > |bytes| then Strayed
      else
        match CString(strings, nameOff)
        case None => Strayed
        case Some(name) => More(AddProperty(p, name, bytes[at + 8..at + 8 + len], size), at + 8 + Padded(len))
  }

  /** One turn of the token loop over the structure and string blocks. */
  function LoopTurn(bytes: seq<byte>, strings: seq<byte>, size: nat, p: Parser, off: nat): Turn
    requires |bytes| <= MAX_BLOB && CurrOk(p)
  {
    if off + 4 > |bytes| then Strayed
    else
      var token, at := ReadU32(bytes, off), off + 4;
      if token == 1 then BeginTurn(bytes, size, p, at)
      else if token == 2 then (if p.curr.None? then Strayed else More(EndNode(p), at))
      else if token == 3 then (if p.curr.None? then Strayed else PropertyTurn(bytes, strings, size, p, at))
      else if token == 4 then More(p, at)
      else if token == 9 then (if p.curr.Some? then Stopped else Done(p))
      else Stopped
  }

  /** The tokens that end the loop, and those that change nothing: 9 is FDT_END, 4 FDT_NOP, 2 FDT_END_NODE. */
  lemma TurnEnds(bytes: seq<byte>, strings: seq<byte>, size: nat, p: Parser, off: nat)
    requires |bytes| <= MAX_BLOB && CurrOk(p) && off + 4 <= |bytes|
    ensures var token, t := Big(bytes[off..off + 4]), LoopTurn(bytes, strings, size, p, off);
            && (token !in [1, 2, 3, 4, 9] ==> t == Stopped)
            && (token == 9 ==> t == if p.curr == None then Done(p) else Stopped)
            && (token == 4 ==> t == More(p, off + 4))
            && (token == 2 && p.curr == None ==> t == Strayed)
  {
    hide Flip32, Little, Big, BeginTurn, PropertyTurn;
    Flip32Load(bytes[off..off + 4]);
  }

  /** The loop moves forward, and its assertion that the offset is a multiple of 4 never fails. */
  lemma TurnMoves(bytes: seq<byte>, strings: seq<byte>, size: nat, p: Parser, off: nat)
    requires |bytes| <= MAX_BLOB && CurrOk(p)
    ensures var t := LoopTurn(bytes, strings, size, p, off);
            t.More? ==> off + 4 <= |bytes| && off < t.off && (off % 4 == 0 ==> t.off % 4 == 0)
  {
    hide ReadU32, CString, Padded, Copied, LastSibling, BeginNode, AddProperty, EndNode;
    var t := LoopTurn(bytes, strings, size, p, off);
    if t.More? && ReadU32(bytes, off) == 1 {
      PaddedMeaning(|CString(bytes, off + 4).value| + 1);
    } else if t.More? && ReadU32(bytes, off) == 3 {
      PaddedMeaning(ReadU32(bytes, off + 4));
    }
  }

  /** Pointers stay inside the node array. */
  ghost predicate ParserOk(p: Parser) {
    && CurrOk(p)
    && Ascending(p.nodes)
    && (forall i :: 0 <= i < |p.nodes| ==>
          && (p.nodes[i].parent.Some? ==> p.nodes[i].parent.value < |p.nodes|)
          && (p.nodes[i].children.Some? ==> p.nodes[i].children.value < |p.nodes|))
  }

  lemma TurnKeepsOk(bytes: seq<byte>, strings: seq<byte>, size: nat, p: Parser, off: nat)
    requires |bytes| <= MAX_BLOB && ParserOk(p)
    ensures var t := LoopTurn(bytes, strings, size, p, off); t.More? ==> ParserOk(t.p)
  {
    hide ReadU32, CString, Padded, Copied, LastSibling;
    var t := LoopTurn(bytes, strings, size, p, off);
    if t.More? && ReadU32(bytes, off) == 1 {
      BeginKeepsOk(p, CString(bytes, off + 4).value, size);
    }
  }

  lemma BeginKeepsOk(p: Parser, name: seq<byte>, size: nat)
    requires ParserOk(p) && BeginNode(p, name, size).Some?
    ensures ParserOk(BeginNode(p, name, size).value)
  {
    hide LastSibling;
    if p.curr.Some? && p.nodes[p.curr.value].children.Some? {
      LastIsLast(p.nodes, p.nodes[p.curr.value].children.value);
    }
  }

  lemma {:induction false} LastIsLast(nodes: seq<DtNode>, i: nat)
    requires Ascending(nodes) && i < |nodes|
    ensures nodes[LastSibling(nodes, i)].sibling == None
    decreases |nodes| - i
  {
    if nodes[i].sibling.Some? {
      LastIsLast(nodes, nodes[i].sibling.value);
    }
  }

  /** The token loop from an offset. */
  function Loop(bytes: seq<byte>, strings: seq<byte>, size: nat, p: Parser, off: nat): Turn
    requires |bytes| <= MAX_BLOB && ParserOk(p)
    decreases |bytes| - off
  {
    TurnKeepsOk(bytes, strings, size, p, off);
    TurnMoves(bytes, strings, size, p, off);
    match LoopTurn(bytes, strings, size, p, off)
    case More(p', off') => Loop(bytes, strings, size, p', off')
    case other => other
  }
}
