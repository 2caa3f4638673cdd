/** The linked free lists of the physical memory manager: nodes in slab blocks, linked by address,
    standing for a sequence of extents. The lemmas are the pointer updates of pmm_alloc_aligned
    (src/octiron/pmm.c:266-295).
  */
module NodeLists {
  import opened Extents
  import opened Slabs

  /** struct pmmBlock */
  datatype PmmBlock = PmmBlock(base: nat, size: nat, next: nat)

  type Slots = map<nat, Slot<PmmBlock>>

  /** The list that starts at `head` has the nodes `ptrs`, none twice, and stands for `blocks`. */
  ghost predicate Rep(slots: Slots, head: nat, ptrs: seq<nat>, blocks: seq<Extent>)
    decreases ptrs
  {
    if ptrs == [] then head == 0 && blocks == []
    else
      && head == ptrs[0] != 0
      && head !in ptrs[1..]
      && head in slots && slots[head].InUse?
      && blocks != []
      && blocks[0] == Extent(slots[head].value.base, slots[head].value.size)
      && Rep(slots, slots[head].value.next, ptrs[1..], blocks[1..])
  }

  /** The list as an atom. */
  ghost predicate IsList(slots: Slots, head: nat, ptrs: seq<nat>, blocks: seq<Extent>) {
    Rep(slots, head, ptrs, blocks)
  }

  lemma {:induction false} AreNodes(slots: Slots, head: nat, ptrs: seq<nat>, blocks: seq<Extent>)
    requires Rep(slots, head, ptrs, blocks)
    ensures |ptrs| == |blocks|
    ensures forall p :: p in ptrs ==> p in slots && slots[p].InUse?
    decreases ptrs
  {
    if ptrs != [] {
      AreNodes(slots, slots[head].value.next, ptrs[1..], blocks[1..]);
    }
  }

  /** The list seen from its k-th node. */
  lemma {:induction false} From(slots: Slots, head: nat, ptrs: seq<nat>, blocks: seq<Extent>, k: nat)
    requires Rep(slots, head, ptrs, blocks) && k < |ptrs|
    ensures |ptrs| == |blocks|
    ensures var p := ptrs[k];
            && p != 0 && p in slots && slots[p].InUse?
            && blocks[k] == Extent(slots[p].value.base, slots[p].value.size)
            && slots[p].value.next == (if k + 1 < |ptrs| then ptrs[k + 1] else 0)
    ensures forall i :: 0 <= i < |ptrs| && i != k ==> ptrs[i] != ptrs[k]
    decreases ptrs
  {
    AreNodes(slots, head, ptrs, blocks);
    if k > 0 {
      From(slots, slots[head].value.next, ptrs[1..], blocks[1..], k - 1);
      assert ptrs[k] in ptrs[1..];
    } else {
      assert forall i :: 0 < i < |ptrs| ==> ptrs[i] in ptrs[1..];
      if 1 < |ptrs| {
        assert ptrs[1] == ptrs[1..][0];
      }
    }
  }

  /** A list does not depend on blocks that are not its nodes. */
  lemma {:induction false} Frame(slots: Slots, slots': Slots, head: nat, ptrs: seq<nat>, blocks: seq<Extent>)
    requires Rep(slots, head, ptrs, blocks)
    requires forall p :: p in ptrs ==> p in slots' && (p in slots ==> slots'[p] == slots[p])
    ensures Rep(slots', head, ptrs, blocks)
    decreases ptrs
  {
    if ptrs != [] {
      Frame(slots, slots', slots[head].value.next, ptrs[1..], blocks[1..]);
    }
  }

  lemma SplitHead(
    slots: Slots, slots': Slots, head: nat, ptrs: seq<nat>, blocks: seq<Extent>, x: nat, front: Extent, back: Extent)
    requires Rep(slots, head, ptrs, blocks) && ptrs != [] && x != 0 && x !in ptrs
    requires slots' == slots[x := InUse(PmmBlock(back.base, back.size, slots[head].value.next))]
                            [head := InUse(PmmBlock(front.base, front.size, x))]
    ensures Rep(slots', head, [head, x] + ptrs[1..], [front, back] + blocks[1..])
  {
    AreNodes(slots, head, ptrs, blocks);
    var tail, rest := ptrs[1..], blocks[1..];
    Frame(slots, slots', slots[head].value.next, tail, rest);
    Behind(slots', x, tail, back, rest);
    Behind(slots', head, [x] + tail, front, [back] + rest);
    assert [head] + ([x] + tail) == [head, x] + tail && [front] + ([back] + rest) == [front, back] + rest;
  }

  /** A node in front of a list. */
  lemma Behind(slots: Slots, p: nat, tail: seq<nat>, e: Extent, rest: seq<Extent>)
    requires p != 0 && p !in tail && p in slots && slots[p].InUse?
    requires e == Extent(slots[p].value.base, slots[p].value.size) && Rep(slots, slots[p].value.next, tail, rest)
    ensures Rep(slots, p, [p] + tail, [e] + rest)
  {
    assert ([p] + tail)[1..] == tail && ([e] + rest)[1..] == rest;
  }

  /** Splitting node k: it keeps the front, the node x behind it takes the back. */
  lemma {:induction false} Split(
    slots: Slots, slots': Slots, head: nat, ptrs: seq<nat>, blocks: seq<Extent>, k: nat, x: nat, front: Extent,
    back: Extent)
    requires Rep(slots, head, ptrs, blocks) && k < |ptrs| && x != 0 && x !in ptrs
    requires ptrs[k] in slots && slots[ptrs[k]].InUse?
    requires var next := slots[ptrs[k]].value.next;
             slots' == slots[x := InUse(PmmBlock(back.base, back.size, next))]
                            [ptrs[k] := InUse(PmmBlock(front.base, front.size, x))]
    ensures |blocks| == |ptrs|
    ensures Rep(slots', head, ptrs[..k + 1] + [x] + ptrs[k + 1..], blocks[..k] + [front, back] + blocks[k + 1..])
    decreases ptrs
  {
    AreNodes(slots, head, ptrs, blocks);
    var ptrs' := ptrs[..k + 1] + [x] + ptrs[k + 1..];
    var blocks' := blocks[..k] + [front, back] + blocks[k + 1..];
    var next, tail, rest := slots[head].value.next, ptrs[1..], blocks[1..];
    if k == 0 {
      SplitHead(slots, slots', head, ptrs, blocks, x, front, back);
      assert ptrs' == [head, x] + tail && blocks' == [front, back] + rest;
    } else {
      assert ptrs[k] == tail[k - 1];
      assert tail[k - 1] in tail;
      Split(slots, slots', next, tail, rest, k - 1, x, front, back);
      assert ptrs'[1..] == tail[..k] + [x] + tail[k..];
      assert blocks'[1..] == rest[..k - 1] + [front, back] + rest[k..];
      assert head !in ptrs'[1..];
    }
  }

  /** Rewriting the extent of node k in place. */
  lemma {:induction false} Shrink(
    slots: Slots, slots': Slots, head: nat, ptrs: seq<nat>, blocks: seq<Extent>, k: nat, e: Extent)
    requires Rep(slots, head, ptrs, blocks) && k < |ptrs|
    requires ptrs[k] in slots && slots[ptrs[k]].InUse?
    requires slots' == slots[ptrs[k] := InUse(PmmBlock(e.base, e.size, slots[ptrs[k]].value.next))]
    ensures |blocks| == |ptrs|
    ensures Rep(slots', head, ptrs, blocks[..k] + [e] + blocks[k + 1..])
    decreases ptrs
  {
    AreNodes(slots, head, ptrs, blocks);
    var blocks' := blocks[..k] + [e] + blocks[k + 1..];
    var next, tail, rest := slots[head].value.next, ptrs[1..], blocks[1..];
    if k == 0 {
      Frame(slots, slots', next, tail, rest);
      assert blocks'[1..] == rest;
    } else {
      assert ptrs[k] == tail[k - 1];
      assert tail[k - 1] in tail;
      Shrink(slots, slots', next, tail, rest, k - 1, e);
      assert blocks'[1..] == rest[..k - 1] + [e] + rest[k..];
    }
  }

  /** Unlinking node k: its predecessor, or the head pointer, takes over its link. */
  lemma {:induction false} Unlink(
    slots: Slots, slots': Slots, head: nat, head': nat, ptrs: seq<nat>, blocks: seq<Extent>, k: nat)
    requires Rep(slots, head, ptrs, blocks) && k < |ptrs|
    requires ptrs[k] in slots && slots[ptrs[k]].InUse?
    requires var next := slots[ptrs[k]].value.next;
             if k == 0 then head' == next && Elsewhere(slots, slots', ptrs[0], ptrs[0])
             else
               && head' == head
               && Elsewhere(slots, slots', ptrs[k], ptrs[k - 1])
               && ptrs[k - 1] in slots' && ptrs[k - 1] in slots && slots[ptrs[k - 1]].InUse?
               && slots'[ptrs[k - 1]] == InUse(slots[ptrs[k - 1]].value.(next := next))
    ensures |blocks| == |ptrs|
    ensures Rep(slots', head', ptrs[..k] + ptrs[k + 1..], blocks[..k] + blocks[k + 1..])
    decreases ptrs
  {
    AreNodes(slots, head, ptrs, blocks);
    var ptrs', blocks' := ptrs[..k] + ptrs[k + 1..], blocks[..k] + blocks[k + 1..];
    var next, tail, rest := slots[head].value.next, ptrs[1..], blocks[1..];
    if k == 0 {
      Frame(slots, slots', next, tail, rest);
      assert ptrs' == tail && blocks' == rest;
    } else {
      assert ptrs[k] == tail[k - 1];
      assert tail[k - 1] in tail;
      assert ptrs'[1..] == tail[..k - 1] + tail[k..] && blocks'[1..] == rest[..k - 1] + rest[k..];
      if k == 1 {
        assert tail[..0] + tail[1..] == tail[1..] && rest[..0] + rest[1..] == rest[1..];
        Frame(slots, slots', slots[tail[0]].value.next, tail[1..], rest[1..]);
      } else {
        assert ptrs[k - 1] == tail[k - 2];
        assert tail[k - 2] in tail;
        Unlink(slots, slots', next, next, tail, rest, k - 1);
      }
    }
  }

  /** All blocks but two are as they were. */
  ghost predicate Elsewhere(slots: Slots, slots': Slots, p: nat, q: nat) {
    forall r :: r in slots && r != p && r != q ==> r in slots' && slots'[r] == slots[r]
  }
}
