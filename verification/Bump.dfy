/** The bump allocator (src/kzadhbat/collections/bump_allocator.c:28-82). Its arena is an array of bytes, and a
    pointer into it is an offset.
  */
module Bumps {
  import opened Words
  import opened Endian
  import opened Extents
  import opened DtbModel
  import opened DtbTree
  import opened DtbDecode

  /** `mem` with the bytes `c` at an offset. */
  function Put(mem: seq<byte>, at: nat, c: seq<byte>): (r: seq<byte>)
    requires at + |c| <= |mem|
    ensures |r| == |mem| && r[at..at + |c|] == c
  {
    mem[..at] + c + mem[at + |c|..]
  }

  /** What lies before or behind the bytes put stays. */
  lemma PutElsewhere(mem: seq<byte>, at: nat, c: seq<byte>, i: nat, j: nat)
    requires at + |c| <= |mem| && i <= j <= |mem| && (j <= at || at + |c| <= i)
    ensures Put(mem, at, c)[i..j] == mem[i..j]
  {
    var r := Put(mem, at, c);
    forall k | 0 <= k < j - i
      ensures r[i..j][k] == mem[i..j][k]
    {
      assert r[i + k] == mem[i + k];
    }
  }

  /** The bytes of a number as a little-endian machine stores it. */
  function LittleBytes(x: nat, n: nat): (b: seq<byte>)
    ensures |b| == n
  {
    if n == 0 then [] else [x % 256] + LittleBytes(x / 256, n - 1)
  }

  lemma {:induction false} StoreLoad(x: nat, n: nat)
    requires x < Pow2(8 * n)
    ensures Little(LittleBytes(x, n)) == x
  {
    hide Pow2;
    if n == 0 {
      BytePowers();
    } else {
      NextByte(n);
      DivBound(x, Pow2(8 * (n - 1)));
      StoreLoad(x / 256, n - 1);
      assert LittleBytes(x, n)[1..] == LittleBytes(x / 256, n - 1);
    }
  }

  lemma NextByte(n: nat)
    requires n > 0
    ensures Pow2(8 * n) == 256 * Pow2(8 * (n - 1))
  {
    hide Pow2;
    BytePowers();
    Pow2Add(8, 8 * (n - 1));
  }

  lemma DivBound(x: nat, p: nat)
    requires x < 256 * p
    ensures x / 256 < p
  {
  }

  // --- what was made in the arena ------------------------------------------------------------

  /** Bytes that somebody was given a pointer to. */
  datatype Piece = Piece(at: nat, content: seq<byte>) {
    function End(): nat {
      at + |content|
    }
  }

  /** All pieces still hold what was put there, lie below `top`, and none overlaps another. */
  ghost predicate Kept(mem: seq<byte>, pieces: seq<Piece>, top: nat) {
    && top <= |mem|
    && (forall i :: 0 <= i < |pieces| ==>
          pieces[i].End() <= top && mem[pieces[i].at..pieces[i].End()] == pieces[i].content)
    && (forall i, j :: 0 <= i < j < |pieces| ==> pieces[i].End() <= pieces[j].at)
  }

  /** Memory from `top` on may change. */
  lemma KeptStays(mem: seq<byte>, mem': seq<byte>, pieces: seq<Piece>, top: nat, top': nat)
    requires Kept(mem, pieces, top) && top <= top' <= |mem'| && mem'[..top] == mem[..top]
    ensures Kept(mem', pieces, top')
  {
    forall i | 0 <= i < |pieces|
      ensures pieces[i].End() <= top' && mem'[pieces[i].at..pieces[i].End()] == pieces[i].content
    {
      var p := pieces[i];
      assert mem'[p.at..p.End()] == mem'[..top][p.at..p.End()];
      assert mem[p.at..p.End()] == mem[..top][p.at..p.End()];
    }
  }

  /** One more piece, behind the others. */
  lemma KeptMore(mem: seq<byte>, pieces: seq<Piece>, p: Piece, top: nat, top': nat)
    requires Kept(mem, pieces, top) && top <= p.at && p.End() <= top' <= |mem| && mem[p.at..p.End()] == p.content
    ensures Kept(mem, pieces + [p], top')
  {
    var all := pieces + [p];
    forall i | 0 <= i < |all|
      ensures all[i].End() <= top' && mem[all[i].at..all[i].End()] == all[i].content
    {
      assert i < |pieces| ==> all[i] == pieces[i];
    }
  }

  /** A store behind all pieces that makes a new one. */
  lemma KeptPut(mem: seq<byte>, pieces: seq<Piece>, top: nat, c: seq<byte>)
    requires Kept(mem, pieces, top) && top + |c| <= |mem|
    ensures Kept(Put(mem, top, c), pieces + [Piece(top, c)], top + |c|)
  {
    hide Kept, Put;
    PutElsewhere(mem, top, c, 0, top);
    KeptStays(mem, Put(mem, top, c), pieces, top, top);
    KeptMore(Put(mem, top, c), pieces, Piece(top, c), top, top + |c|);
  }

  lemma AlignedAbove(x: nat, alignment: u64)
    requires x < MAX_BLOB
    ensures 0 < alignment < MAX_BLOB ==> x <= AlignUp(x, alignment)
    ensures IsPow2(alignment) && alignment < MAX_BLOB ==> AlignUp(x, alignment) % alignment == 0
  {
    hide AlignUp, IsPow2;
    if 0 < alignment < MAX_BLOB {
      AlignUpAbove(x, alignment);
    }
    if IsPow2(alignment) && alignment < MAX_BLOB {
      PowPositive(alignment);
      AlignUpMeaning(x, alignment);
    }
  }

  lemma CopyReads(mem: seq<byte>, at: nat, s: seq<byte>)
    requires at + |s| + 1 <= |mem|
    ensures 0 !in s ==> CString(Put(mem, at, s + [0]), at) == Some(s)
  {
    hide CString;
    if 0 !in s {
      CStringBack(Put(mem, at, s + [0]), at, s);
    }
  }

  class Bump {
    const memory: array<byte>
    var index: nat
    ghost var made: seq<Piece>  // every copy, array and table ever made

    /** Whatever was made before is still there and apart from everything made since. */
    ghost predicate Valid()
      reads this, memory
    {
      index <= memory.Length < MAX_BLOB && Kept(memory[..], made, index)
    }

    /** bump_init */
    constructor (memory: array<byte>)
      requires memory.Length < MAX_BLOB
      ensures this.memory == memory && index == 0 && made == [] && Valid()
    {
      this.memory := memory;
      index := 0;
      made := [];
    }

    method Alloc(size: nat) returns (p: Option<nat>)
      requires Valid()
      modifies this`index
      ensures Valid()
      ensures p == if size == 0 || old(index) + size > memory.Length then None else Some(old(index))
      ensures index == if p.None? then old(index) else old(index) + size
    {
      if size == 0 || index + size > memory.Length {
        return None;
      }
      KeptStays(memory[..], memory[..], made, index, index + size);
      p := Some(index);
      index := index + size;
    }

    method Copy(src: seq<byte>) returns (p: Option<nat>)
      requires Valid()
      modifies this`index, this`made, memory
      ensures Valid() && made == if p.None? then old(made) else old(made) + [Piece(p.value, src)]
      ensures var (copy, used) := Copied(src, old(index), memory.Length);
              index == used && (copy == None <==> p == None) && (p == None ==> memory[..] == old(memory[..]))
      ensures p.Some? ==> p.value == old(index) && memory[..] == Put(old(memory[..]), p.value, src)
    {
      if |src| == 0 || index + |src| > memory.Length {
        return None;
      }
      KeptPut(memory[..], made, index, src);
      p := Alloc(|src|);
      Store(p.value, src);
      made := made + [Piece(p.value, src)];
    }

    /** The string comes without its NUL, which is copied too. */
    method CopyString(src: seq<byte>) returns (p: Option<nat>)
      requires Valid()
      modifies this`index, this`made, memory
      ensures Valid() && made == if p.None? then old(made) else old(made) + [Piece(p.value, src + [0])]
      ensures p == if old(index) + |src| + 1 > memory.Length then None else Some(old(index))
      ensures index == if p.None? then old(index) else old(index) + |src| + 1
      ensures memory[..] == if p.None? then old(memory[..]) else Put(old(memory[..]), p.value, src + [0])
      ensures p.Some? && 0 !in src ==> CString(memory[..], p.value) == Some(src)
    {
      if index + |src| + 1 > memory.Length {
        return None;
      }
      KeptPut(memory[..], made, index, src + [0]);
      p := Some(index);
      Store(index, src + [0]);
      made := made + [Piece(index, src + [0])];
      index := index + |src| + 1;
      CopyReads(old(memory[..]), p.value, src);
    }

    /** The pointer is aligned within the arena. An alignment so large that rounding wraps could lower the
        index. */
    method AllocAligned(size: nat, alignment: u64) returns (p: Option<nat>)
      requires Valid()
      modifies this`index
      ensures index <= memory.Length && (alignment < MAX_BLOB ==> Valid() && old(index) <= index)
      ensures p.None? <==> BumpAligned(old(index), size, alignment, memory.Length).None?
      ensures p.None? <==>
                size == 0 || alignment == 0 || AlignUp(old(index), alignment) + size > memory.Length
      ensures p.None? ==> index == old(index)
      ensures p.Some? ==> Some(index) == BumpAligned(old(index), size, alignment, memory.Length)
      ensures p.Some? ==> p == Some(AlignUp(old(index), alignment)) && p.value + size == index
      ensures p.Some? && alignment < MAX_BLOB ==> old(index) <= p.value
      ensures p.Some? && alignment < MAX_BLOB && IsPow2(alignment) ==> p.value % alignment == 0
    {
      if size == 0 || alignment == 0 || AlignUp(index, alignment) + size > memory.Length {
        return None;
      }
      AlignedAbove(index, alignment);
      if alignment < MAX_BLOB {
        KeptStays(memory[..], memory[..], made, index, AlignUp(index, alignment) + size);
      }
      index := AlignUp(index, alignment);
      p := Some(index);
      index := index + size;
    }

    /** memcpy, or a store of an integer given by its bytes */
    method Store(at: nat, c: seq<byte>)
      requires at + |c| <= memory.Length
      modifies memory
      ensures memory[..] == Put(old(memory[..]), at, c)
    {
      forall k | 0 <= k < |c| {
        memory[at + k] := c[k];
      }
    }
  }
}
