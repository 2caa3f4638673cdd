/** The device tree parser (src/octiron/devices/device_tree/device_tree.c:209-258, 773-814): the token loop
    over the blob, updating the arrays and the `curr` pointer in place.
  */
module DeviceTreeParser {
  import opened Endian
  import opened Extents
  import opened DtbModel

  datatype ParseOutcome = Parsed | ParseStopped | ParseStrayed

  lemma StartOk()
    ensures ParserOk(START)
  {
  }

  lemma OkMeans(p: Parser)
    requires ParserOk(p)
    ensures CurrOk(p)
  {
  }

  lemma {:induction false} ScanIsCString(bytes: seq<byte>, off: nat, n: nat)
    requires n == 0 || off + n <= |bytes|
    requires forall k :: off <= k < off + n ==> bytes[k] != 0
    requires off + n >= |bytes| || bytes[off + n] == 0
    ensures CString(bytes, off) == if off + n >= |bytes| then None else Some(bytes[off..off + n])
    decreases n
  {
    if n > 0 {
      ScanIsCString(bytes, off + 1, n - 1);
      assert off + n < |bytes| ==> bytes[off..off + n] == [bytes[off]] + bytes[off + 1..off + n];
    }
  }

  /** Pushing the new node first does not change where the sibling list ends. */
  lemma {:induction false} NewLast(nodes: seq<DtNode>, x: DtNode, i: nat)
    requires Ascending(nodes) && i < |nodes| && x.sibling == None
    ensures Ascending(nodes + [x])
    ensures LastSibling(nodes + [x], i) == LastSibling(nodes, i)
    decreases |nodes| - i
  {
    if nodes[i].sibling.Some? {
      NewLast(nodes, x, nodes[i].sibling.value);
    }
  }

  class DeviceTree {
    const arena: nat  // bytes of the bump allocator
    var nodes: seq<DtNode>
    var props: seq<DtProp>
    var curr: Ptr
    var depth: int
    var used: nat

    constructor (arena: nat)
      ensures this.arena == arena && State() == START
    {
      this.arena := arena;
      nodes, props, curr, depth, used := [], [], None, 0, 0;
    }

    ghost function State(): Parser
      reads this
    {
      Parser(nodes, props, curr, depth, used)
    }

    /** `while (last->sibling != NULL) last = last->sibling;` */
    method FindLast(first: nat) returns (last: nat)
      requires Ascending(nodes) && first < |nodes|
      ensures last == LastSibling(nodes, first)
    {
      last := first;
      while nodes[last].sibling != None
        invariant last < |nodes| && LastSibling(nodes, last) == LastSibling(nodes, first)
        decreases |nodes| - last
      {
        last := nodes[last].sibling.value;
      }
    }

    /** strlen and the copy of a string. */
    method ReadString(bytes: seq<byte>, off: nat) returns (s: Option<seq<byte>>)
      ensures s == CString(bytes, off)
    {
      var n := 0;
      while off + n < |bytes| && bytes[off + n] != 0
        invariant n == 0 || off + n <= |bytes|
        invariant forall k :: off <= k < off + n ==> bytes[k] != 0
        decreases |bytes| - (off + n)
      {
        n := n + 1;
      }
      ScanIsCString(bytes, off, n);
      if off + n >= |bytes| {
        return None;
      }
      return Some(bytes[off..off + n]);
    }

    /** dtb_parse_node: false if the name does not fit the arena, which fails an ASSERT. */
    method ParseNode(name: seq<byte>) returns (ok: bool)
      requires ParserOk(State())
      modifies this
      ensures ok <==> BeginNode(old(State()), name, arena).Some?
      ensures ok ==> Some(State()) == BeginNode(old(State()), name, arena)
    {
      if used + |name| + 1 > arena {
        return false;
      }
      used := used + |name| + 1;
      var n := |nodes|;
      ghost var before := nodes;
      nodes := nodes + [NewNode(name, curr)];
      if curr != None {
        var c := nodes[curr.value];
        if c.children == None {
          nodes := nodes[curr.value := c.(children := Some(n))];
        } else {
          assert nodes[..n] == before;
          NewLast(before, NewNode(name, curr), c.children.value);
          var last := FindLast(c.children.value);
          LastIsLast(nodes, c.children.value);
          nodes := nodes[last := nodes[last].(sibling := Some(n))];
        }
      }
      ghost var linked := LinkChild(before, curr, n);
      assert nodes == linked + [NewNode(name, curr)];
      if depth == 0 && name == [] {
        nodes := nodes[n := nodes[n].(name := ROOT_NAME)];
        assert nodes == linked + [NewNode(ROOT_NAME, curr)];
      }
      curr := Some(n);
      depth := depth + 1;
      return true;
    }

    /** dtb_parse_property */
    method ParseProperty(name: seq<byte>, value: seq<byte>)
      requires ParserOk(State()) && curr != None
      modifies this
      ensures State() == AddProperty(old(State()), name, value, arena)
    {
      var propName := None;
      if used + |name| + 1 <= arena {
        used := used + |name| + 1;
        propName := Some(name);
      }
      var propValue := None;
      if !(|value| == 0 || used + |value| > arena) {
        used := used + |value|;
        propValue := Some(value);
      }
      var c := nodes[curr.value];
      props := props + [DtProp(propName, c.properties, Raw(propValue, |value|))];
      nodes := nodes[curr.value := c.(properties := Some(|props| - 1))];
    }

    /** The token loop of dt_initialize. */
    method Parse(bytes: seq<byte>, strings: seq<byte>) returns (out: ParseOutcome)
      requires |bytes| <= MAX_BLOB && State() == START
      modifies this
      ensures ParserOk(START)
      ensures out == match Loop(bytes, strings, arena, START, 0)
                     case Done(_) => Parsed
                     case Stopped => ParseStopped
                     case _ => ParseStrayed
      ensures out == Parsed ==> Loop(bytes, strings, arena, START, 0) == Done(State())
    {
      hide ReadU32, CString, BeginNode, AddProperty, Padded, ParserOk;
      StartOk();
      var off := 0;
      while true
        invariant ParserOk(State()) && off % 4 == 0
        invariant Loop(bytes, strings, arena, START, 0) == Loop(bytes, strings, arena, State(), off)
        decreases |bytes| - off
      {
        ghost var p := State();
        OkMeans(p);
        TurnMoves(bytes, strings, arena, p, off);
        TurnKeepsOk(bytes, strings, arena, p, off);
        if off + 4 > |bytes| {
          return ParseStrayed;
        }
        var token := ReadU32(bytes, off);
        var at := off + 4;
        if token == 1 {
          var name := ReadString(bytes, at);
          if name == None {
            return ParseStrayed;
          }
          var ok := ParseNode(name.value);
          if !ok {
            return ParseStopped;
          }
          off := at + Padded(|name.value| + 1);
        } else if token == 2 {
          if curr == None {
            return ParseStrayed;
          }
          curr := nodes[curr.value].parent;
          depth := depth - 1;
          off := at;
        } else if token == 3 {
          if curr == None || at + 8 > |bytes| {
            return ParseStrayed;
          }
          var len := ReadU32(bytes, at);
          var nameOff := ReadU32(bytes, at + 4);
          if at + 8 + len > |bytes| {
            return ParseStrayed;
          }
          var name := ReadString(strings, nameOff);
          if name == None {
            return ParseStrayed;
          }
          ParseProperty(name.value, bytes[at + 8..at + 8 + len]);
          off := at + 8 + Padded(len);
        } else if token == 4 {
          off := at;
        } else if token == 9 {
          return if curr != None then ParseStopped else Parsed;
        } else {
          return ParseStopped;
        }
      }
    }
  }
}
