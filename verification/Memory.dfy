/** Physical memory: page frames of 512 words, stored into in place. */
module PhysicalMemory {
  import opened Words
  import opened Extents

  const ENTRIES: nat := 512  // SV39_TableEntryCount, the 64-bit words of a page

  /** The words of every frame, by page-aligned address. */
  type Words512 = map<nat, seq<u64>>

  function Zeros(): (z: seq<u64>)
    ensures |z| == ENTRIES && forall i :: 0 <= i < ENTRIES ==> z[i] == 0
  {
    seq(ENTRIES, _ => 0)
  }

  /** memset(base, 0, size) for page-aligned base and size. */
  ghost function Zeroed(m: Words512, base: nat, size: nat): Words512 {
    map p | p in m :: if base <= p < base + size then Zeros() else m[p]
  }

  ghost function Stored(m: Words512, page: nat, i: nat, v: u64): Words512
    requires page in m && i < |m[page]|
  {
    var words: seq<u64> := m[page];
    m[page := words[i := v]]
  }

  lemma ZeroOneMore(m: Words512, base: nat, size: nat)
    requires Aligned(base) && Aligned(size) && base + size in m && forall p :: p in m ==> Aligned(p)
    ensures Zeroed(m, base, size + PAGE) == Zeroed(m, base, size)[base + size := Zeros()]
  {
    forall p | p in m && base <= p < base + size + PAGE
      ensures p < base + size || p == base + size
    {
    }
  }

  lemma ZeroNothing(m: Words512, base: nat)
    ensures Zeroed(m, base, 0) == m
  {
  }

  class Memory {
    const frames: map<nat, array<u64>>

    constructor (frames: map<nat, array<u64>>)
      ensures this.frames == frames
    {
      this.frames := frames;
    }

    /** Frames are page-aligned, 512 words long, and no two addresses share one. */
    ghost predicate Valid() {
      && (forall p :: p in frames ==> Aligned(p) && frames[p].Length == ENTRIES)
      && (forall p, q :: p in frames && q in frames && p != q ==> frames[p] != frames[q])
    }

    ghost function Snapshot(): (m: Words512)
      reads frames.Values
      ensures m.Keys == frames.Keys
    {
      map p | p in frames :: frames[p][..]
    }

    /** `v = ((u64 *) page)[i]` */
    method Load(page: nat, i: nat) returns (v: u64)
      requires Valid() && page in frames && i < ENTRIES
      ensures v == Snapshot()[page][i]
    {
      v := frames[page][i];
    }

    /** `((u64 *) page)[i] = v` */
    method Store(page: nat, i: nat, v: u64)
      requires Valid() && page in frames && i < ENTRIES
      modifies frames[page]
      ensures Snapshot() == Stored(old(Snapshot()), page, i, v)
    {
      frames[page][i] := v;
      assert frames[page][..] == old(frames[page][..])[i := v];
    }

    /** memset to zero of whole pages. */
    method Zero(base: nat, size: nat)
      requires Valid() && Aligned(base) && Aligned(size)
      requires forall p :: base <= p < base + size && Aligned(p) ==> p in frames
      modifies frames.Values
      ensures Snapshot() == Zeroed(old(Snapshot()), base, size)
    {
      hide Zeroed, Aligned;
      AlignedSum(base, size);
      ZeroNothing(Snapshot(), base);
      var p := base;
      while p < base + size
        invariant base <= p <= base + size && Aligned(p)
        invariant Snapshot() == Zeroed(old(Snapshot()), base, p - base)
      {
        NextPage(p, base + size);
        AlignedSum(base, p);
        ZeroOneMore(old(Snapshot()), base, p - base);
        ZeroPage(p);
        p := p + PAGE;
      }
    }

    method ZeroPage(page: nat)
      requires Valid() && page in frames
      modifies frames[page]
      ensures Snapshot() == old(Snapshot())[page := Zeros()]
    {
      var a := frames[page];
      for i := 0 to ENTRIES
        invariant forall k :: 0 <= k < i ==> a[k] == 0
      {
        a[i] := 0;
      }
      assert a[..] == Zeros();
    }
  }
}
