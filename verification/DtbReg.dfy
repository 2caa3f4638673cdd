/** Decoding `reg` and `compatible` into arrays of the bump allocator's arena (src/octiron/devices/device_tree/
    device_tree.c:260-281, 307-367). The raw value lies in the same arena, where the parser copied it.
  */
module ArenaDecoding {
  import opened Words
  import opened Endian
  import opened Extents
  import opened DtbModel
  import opened DtbTree
  import opened DtbDecode
  import opened DeviceTreeParser
  import opened Bumps

  /** An array of little-endian numbers. */
  function Numbers(b: seq<byte>, width: nat): seq<nat>
    requires width > 0 && |b| % width == 0
    decreases |b|
  {
    if b == [] then []
    else
      Records(|b|, width);
      [Little(b[..width])] + Numbers(b[width..], width)
  }

  lemma OneRecordMore(len: nat, stride: nat)
    requires stride > 0 && len % stride == 0
    ensures (len + stride) % stride == 0
  {
    MultipleOf(len, stride);
    MulDistributes(len / stride, 1, stride);
    MultipleMod(len / stride + 1, stride);
  }

  lemma {:induction false} NumbersAppend(b: seq<byte>, c: seq<byte>, width: nat)
    requires width > 0 && |b| % width == 0 && |c| == width
    ensures |b + c| % width == 0 && Numbers(b + c, width) == Numbers(b, width) + [Little(c)]
    decreases |b|
  {
    hide Little;
    OneRecordMore(|b|, width);
    if b == [] {
      assert b + c == c && c[..width] == c && c[width..] == [];
      NoNumbers(c[width..], width);
    } else {
      Records(|b|, width);
      NumbersAppend(b[width..], c, width);
      assert (b + c)[width..] == b[width..] + c && (b + c)[..width] == b[..width];
    }
  }

  lemma NoNumbers(b: seq<byte>, width: nat)
    requires b == [] && width > 0
    ensures 0 % width == 0 && Numbers(b, width) == []
  {
    DivModUnique(0, width, 0, 0);
  }

  lemma {:induction false} FieldAppend(b: seq<byte>, c: seq<byte>, skip: nat, cells: nat, stride: nat)
    requires cells <= 2 && 0 < stride && skip + 4 * cells <= stride && |b| % stride == 0 && |c| == stride
    ensures |b + c| % stride == 0
    ensures Field(b + c, skip, cells, stride) == Field(b, skip, cells, stride) + [ReadCells(c, skip, cells)]
    decreases |b|
  {
    hide ReadCells, Field;
    OneRecordMore(|b|, stride);
    FieldStep(b + c, skip, cells, stride);
    if b == [] {
      assert b + c == c && c[stride..] == [];
      NoField(b, skip, cells, stride);
    } else {
      Records(|b|, stride);
      FieldStep(b, skip, cells, stride);
      FieldAppend(b[stride..], c, skip, cells, stride);
      assert (b + c)[stride..] == b[stride..] + c;
      SameCells(b, c, skip, cells);
    }
  }

  lemma SameCells(b: seq<byte>, c: seq<byte>, skip: nat, cells: nat)
    requires cells <= 2 && skip + 4 * cells <= |b|
    ensures ReadCells(b + c, skip, cells) == ReadCells(b, skip, cells)
  {
    hide Flip32, Flip64, Little;
    assert (b + c)[skip..skip + 4 * cells] == b[skip..skip + 4 * cells];
  }

  // --- one array being filled ----------------------------------------------------------------

  /** The array at `from`, filled up to `to`, holds a field of the records seen so far. Fields of no cells have
      no array. */
  ghost predicate Filled(mem: seq<byte>, from: nat, to: nat, seen: seq<byte>, skip: nat, cells: nat, stride: nat)
    requires cells <= 2 && 0 < stride && skip + 4 * cells <= stride && |seen| % stride == 0
  {
    && from <= to <= |mem|
    && (cells > 0 ==> (to - from) % (4 * cells) == 0)
    && (cells > 0 ==> Numbers(mem[from..to], 4 * cells) == Field(seen, skip, cells, stride))
    && (cells == 0 ==> to == from)
  }

  lemma FilledStart(mem: seq<byte>, from: nat, seen: seq<byte>, skip: nat, cells: nat, stride: nat)
    requires cells <= 2 && 0 < stride && skip + 4 * cells <= stride && seen == [] && from <= |mem|
    ensures |seen| % stride == 0 && Filled(mem, from, from, seen, skip, cells, stride)
  {
    hide Numbers, Field;
    NoField(seen, skip, cells, stride);
    if cells > 0 {
      NoNumbers(mem[from..from], 4 * cells);
    }
  }

  /** A number stored at the end of the array. */
  lemma FilledMore(
    mem: seq<byte>, from: nat, to: nat, seen: seq<byte>, record: seq<byte>, skip: nat, cells: nat, stride: nat)
    requires cells <= 2 && 0 < stride && skip + 4 * cells <= stride && |seen| % stride == 0 && |record| == stride
    requires Filled(mem, from, to, seen, skip, cells, stride) && to + 4 * cells <= |mem|
    ensures |seen + record| % stride == 0
    ensures Filled(Put(mem, to, LittleBytes(ReadCells(record, skip, cells), 4 * cells)), from, to + 4 * cells,
              seen + record, skip, cells, stride)
  {
    hide Numbers, Field, Put, ReadCells, LittleBytes, Little;
    var x := ReadCells(record, skip, cells);
    var c := LittleBytes(x, 4 * cells);
    var mem' := Put(mem, to, c);
    OneRecordMore(|seen|, stride);
    if cells > 0 {
      FieldAppend(seen, record, skip, cells, stride);
      PutElsewhere(mem, to, c, from, to);
      assert mem'[from..to + 4 * cells] == mem[from..to] + c by {
        assert mem'[to..to + |c|] == c;
        assert mem'[from..to + 4 * cells] == mem'[from..to] + mem'[to..to + 4 * cells];
      }
      NumbersAppend(mem[from..to], c, 4 * cells);
      CellsFit(record, skip, cells);
      StoreLoad(x, 4 * cells);
    }
  }

  lemma CellsFit(b: seq<byte>, at: nat, cells: nat)
    requires cells <= 2 && at + 4 * cells <= |b|
    ensures ReadCells(b, at, cells) < Pow2(8 * (4 * cells))
  {
    hide Flip32, Flip64, Little, Big, Pow2;
    BytePowers();
    if cells == 1 {
      Flip32Load(b[at..at + 4]);
    } else if cells == 2 {
      Flip64Load(b[at..at + 8]);
    }
  }

  /** A store elsewhere. */
  lemma FilledStays(
    mem: seq<byte>, from: nat, to: nat, seen: seq<byte>, skip: nat, cells: nat, stride: nat, at: nat, c: seq<byte>)
    requires cells <= 2 && 0 < stride && skip + 4 * cells <= stride && |seen| % stride == 0
    requires Filled(mem, from, to, seen, skip, cells, stride) && at + |c| <= |mem| && (at + |c| <= from || to <= at)
    ensures Filled(Put(mem, at, c), from, to, seen, skip, cells, stride)
  {
    hide Numbers, Field, Put;
    PutElsewhere(mem, at, c, from, to);
  }

  lemma TimesStep(width: nat, i: nat, n: nat)
    requires i < n
    ensures Times(width, i + 1) == Times(width, i) + width <= Times(width, n)
  {
    MulDistributes(i, 1, width);
    MulMonotone(i + 1, n, width);
  }

  lemma TimesZero(width: nat)
    ensures Times(width, 0) == 0
  {
  }

  // --- reg -----------------------------------------------------------------------------------

  /** One cell group read big-endian and stored little-endian: the `switch` on the number of cells. */
  method DecodeCells(bump: Bump, from: nat, to: nat, cells: nat)
    requires cells <= 2 && from + 4 * cells <= bump.memory.Length && to + 4 * cells <= bump.memory.Length
    modifies bump.memory
    ensures bump.memory[..]
        == Put(old(bump.memory[..]), to, LittleBytes(ReadCells(old(bump.memory[..]), from, cells), 4 * cells))
  {
    hide LittleBytes, Flip32, Flip64, Little;
    ghost var mem := bump.memory[..];
    if cells == 1 {
      assert bump.memory[from..from + 4] == mem[from..from + 4];
      bump.Store(to, LittleBytes(Flip32(Little(bump.memory[from..from + 4])), 4));
    } else if cells == 2 {
      assert bump.memory[from..from + 8] == mem[from..from + 8];
      bump.Store(to, LittleBytes(Flip64(Little(bump.memory[from..from + 8])), 8));
    } else {
      assert mem == Put(mem, to, LittleBytes(0, 0));
    }
  }

  lemma SliceOfSlice(b: seq<byte>, i: nat, j: nat, k: nat, l: nat)
    requires i <= j <= |b| && k <= l <= j - i
    ensures b[i..j][k..l] == b[i + k..i + l]
  {
    forall m | 0 <= m < l - k
      ensures b[i..j][k..l][m] == b[i + k..i + l][m]
    {
      assert b[i..j][k..l][m] == b[i..j][k + m];
    }
  }

  /** A record of the untouched value, read in place. */
  lemma RecordInPlace(mem: seq<byte>, from: nat, value: seq<byte>, j: nat, stride: nat, skip: nat, cells: nat)
    requires from + |value| <= |mem| && mem[from..from + |value|] == value && j + stride <= |value|
    requires cells <= 2 && skip + 4 * cells <= stride
    ensures ReadCells(mem, from + j + skip, cells) == ReadCells(value[j..j + stride], skip, cells)
    ensures value[..j] + value[j..j + stride] == value[..j + stride]
  {
    hide Flip32, Flip64, Little;
    var i := j + skip;
    Part(mem, from, value, i, i + 4 * cells);
    SliceOfSlice(value, j, j + stride, skip, skip + 4 * cells);
  }

  /** What holds between two turns of the loop of dtb_rewrite_property_reg. */
  ghost predicate PairsFilled(
    m0: seq<byte>, mem: seq<byte>, from: nat, len: nat, j: nat, ac: nat, sc: nat, a: nat, pa: nat, s: nat, ps: nat,
    end: nat)
  {
    && |mem| == |m0| && from + len <= a && j <= len && pa <= s && ps <= end <= |mem| && a <= pa && s <= ps
    && mem[..a] == m0[..a] && mem[end..] == m0[end..]
    && ac <= 2 && sc <= 2 && ac + sc > 0 && j % (4 * ac + 4 * sc) == 0
    && Filled(mem, a, pa, m0[from..from + j], 0, ac, 4 * ac + 4 * sc)
    && Filled(mem, s, ps, m0[from..from + j], 4 * ac, sc, 4 * ac + 4 * sc)
  }

  lemma PairTurn(
    m0: seq<byte>, mem: seq<byte>, from: nat, len: nat, j: nat, ac: nat, sc: nat, a: nat, pa: nat, s: nat, ps: nat,
    end: nat)
    requires PairsFilled(m0, mem, from, len, j, ac, sc, a, pa, s, ps, end)
    requires j + 4 * ac + 4 * sc <= len && pa + 4 * ac <= s && ps + 4 * sc <= end
    ensures from + j + 4 * ac <= |mem| && pa + 4 * ac <= |mem|
    ensures var mem1 := Put(mem, pa, LittleBytes(ReadCells(mem, from + j, ac), 4 * ac));
            && from + j + 4 * ac + 4 * sc <= |mem1| && ps + 4 * sc <= |mem1|
            && PairsFilled(m0, Put(mem1, ps, LittleBytes(ReadCells(mem1, from + j + 4 * ac, sc), 4 * sc)), from, len,
                           j + (4 * ac + 4 * sc), ac, sc, a, pa + 4 * ac, s, ps + 4 * sc, end)
  {
    hide Put, LittleBytes, ReadCells, Filled;
    var stride := 4 * ac + 4 * sc;
    var value, seen := m0[from..from + len], m0[from..from + j];
    var record := m0[from + j..from + j + stride];
    PairRecord(m0, mem, from, len, j, stride, a, 0, ac);
    var x := LittleBytes(ReadCells(mem, from + j, ac), 4 * ac);
    var mem1 := Put(mem, pa, x);
    FilledMore(mem, a, pa, seen, record, 0, ac, stride);
    FilledStays(mem, s, ps, seen, 4 * ac, sc, stride, pa, x);
    StillBelow(m0, mem, pa, x, a, end);
    PairRecord(m0, mem1, from, len, j, stride, a, 4 * ac, sc);
    var y := LittleBytes(ReadCells(mem1, from + j + 4 * ac, sc), 4 * sc);
    FilledMore(mem1, s, ps, seen, record, 4 * ac, sc, stride);
    FilledStays(mem1, a, pa + 4 * ac, seen + record, 0, ac, stride, ps, y);
    StillBelow(m0, mem1, ps, y, a, end);
    assert seen + record == m0[from..from + (j + stride)];
    OneRecordMore(j, stride);
  }

  /** Bytes put between the two ends leave what is outside alone. */
  lemma StillBelow(m0: seq<byte>, mem: seq<byte>, at: nat, c: seq<byte>, a: nat, end: nat)
    requires |mem| == |m0| && a <= at && at + |c| <= end <= |mem| && mem[..a] == m0[..a] && mem[end..] == m0[end..]
    ensures Put(mem, at, c)[..a] == m0[..a] && Put(mem, at, c)[end..] == m0[end..]
  {
    hide Put;
    PutElsewhere(mem, at, c, 0, a);
    PutElsewhere(mem, at, c, end, |mem|);
  }

  /** The value lies below the arrays, so a record reads as in the beginning. */
  lemma PairRecord(
    m0: seq<byte>, mem: seq<byte>, from: nat, len: nat, j: nat, stride: nat, a: nat, skip: nat, cells: nat)
    requires |mem| == |m0| && from + len <= a <= |mem| && mem[..a] == m0[..a] && j + stride <= len
    requires cells <= 2 && skip + 4 * cells <= stride
    ensures ReadCells(mem, from + j + skip, cells) == ReadCells(m0[from + j..from + j + stride], skip, cells)
  {
    hide ReadCells;
    var value := m0[from..from + len];
    assert mem[from..from + len] == mem[..a][from..from + len] == value;
    RecordInPlace(mem, from, value, j, stride, skip, cells);
    SliceOfSlice(m0, from, from + len, j, j + stride);
  }

  /** One turn of that loop: an address, then a size. */
  method DecodePair(
    bump: Bump, from: nat, len: nat, j: nat, ac: nat, sc: nat, ghost a: nat, pa: nat, ghost s: nat, ps: nat,
    ghost m0: seq<byte>, ghost end: nat)
    requires PairsFilled(m0, bump.memory[..], from, len, j, ac, sc, a, pa, s, ps, end)
    requires j + 4 * ac + 4 * sc <= len && pa + 4 * ac <= s && ps + 4 * sc <= end
    modifies bump.memory
    ensures PairsFilled(m0, bump.memory[..], from, len, j + (4 * ac + 4 * sc), ac, sc, a, pa + 4 * ac, s,
                        ps + 4 * sc, end)
  {
    hide Filled, Put, LittleBytes, ReadCells;
    PairTurn(m0, bump.memory[..], from, len, j, ac, sc, a, pa, s, ps, end);
    DecodeCells(bump, from + j, pa, ac);
    DecodeCells(bump, from + j + 4 * ac, ps, sc);
  }

  /** The loop of dtb_rewrite_property_reg. */
  method FillPairs(bump: Bump, from: nat, len: nat, ac: nat, sc: nat, a: nat, s: nat, n: nat)
    requires ac <= 2 && sc <= 2 && ac + sc > 0 && len == Times(4 * ac + 4 * sc, n) && from + len <= a
    requires a + Times(4 * ac, n) <= s && s + Times(4 * sc, n) <= bump.memory.Length
    modifies bump.memory
    ensures PairsFilled(old(bump.memory[..]), bump.memory[..], from, len, len, ac, sc, a, a + Times(4 * ac, n), s,
                        s + Times(4 * sc, n), s + Times(4 * sc, n))
  {
    hide Times, PairsFilled, Put, LittleBytes, ReadCells, Filled;
    ghost var m0 := bump.memory[..];
    ghost var end := s + Times(4 * sc, n);
    var address_size, size_size := 4 * ac, 4 * sc;
    var i, j := 0, 0;
    PairsStart(m0, from, len, ac, sc, a, s, end);
    while i < n
      invariant i <= n && j == Times(4 * ac + 4 * sc, i)
      invariant PairsFilled(m0, bump.memory[..], from, len, j, ac, sc, a, a + Times(4 * ac, i), s,
                            s + Times(4 * sc, i), end)
    {
      TimesStep(4 * ac + 4 * sc, i, n);
      TimesStep(4 * ac, i, n);
      TimesStep(4 * sc, i, n);
      DecodePair(bump, from, len, j, ac, sc, a, a + Times(address_size, i), s, s + Times(size_size, i), m0, end);
      j := j + address_size + size_size;
      i := i + 1;
    }
  }

  lemma PairsStart(m0: seq<byte>, from: nat, len: nat, ac: nat, sc: nat, a: nat, s: nat, end: nat)
    requires ac <= 2 && sc <= 2 && ac + sc > 0 && from + len <= a <= s <= end <= |m0|
    ensures PairsFilled(m0, m0, from, len, 0, ac, sc, a, a + Times(4 * ac, 0), s, s + Times(4 * sc, 0), end)
    ensures Times(4 * ac + 4 * sc, 0) == 0
  {
    hide Filled, Times;
    TimesZero(4 * ac);
    TimesZero(4 * sc);
    TimesZero(4 * ac + 4 * sc);
    FilledStart(m0, a, m0[from..from], 0, ac, 4 * ac + 4 * sc);
    FilledStart(m0, s, m0[from..from], 4 * ac, sc, 4 * ac + 4 * sc);
  }

  datatype RegDecoded = RegArrays(pairs: nat, addresses: Ptr, sizes: Ptr) | RegStops | RegStrays

  /** The raw bytes of a value in the arena. */
  function ValueAt(mem: seq<byte>, value: Ptr, len: nat): Option<seq<byte>>
    requires value.Some? ==> value.value + len <= |mem|
  {
    if value.None? then None else Some(mem[value.value..value.value + len])
  }

  /** An array of the arena between two offsets: NULL without cells, and otherwise aligned, holding `xs`. */
  ghost predicate HasArray(mem: seq<byte>, p: Ptr, xs: seq<nat>, cells: nat, n: nat, low: nat, high: nat) {
    if cells == 0 then p == None && xs == []
    else
      && p.Some? && low <= p.value && p.value + Times(4 * cells, n) <= high <= |mem| && p.value % (4 * cells) == 0
      && Times(4 * cells, n) % (4 * cells) == 0
      && Numbers(mem[p.value..p.value + Times(4 * cells, n)], 4 * cells) == xs
  }

  lemma BumpOne(used: nat, y: nat, ay: u64, arena: nat)
    requires arena < MAX_BLOB
    ensures BumpAll(used, [(y, ay)], arena) == if y == 0 then Some(used) else BumpAligned(used, y, ay, arena)
  {
    hide BumpAligned;
    var one: seq<(nat, nat)> := [(y, ay)];
    assert one[1..] == [];
  }

  lemma BumpTwo(used: nat, x: nat, ax: u64, y: nat, ay: u64, arena: nat)
    requires arena < MAX_BLOB
    ensures var first := if x == 0 then Some(used) else BumpAligned(used, x, ax, arena);
            BumpAll(used, [(x, ax), (y, ay)], arena)
            == if first.None? || y == 0 then first else BumpAligned(first.value, y, ay, arena)
  {
    hide BumpAligned;
    var both: seq<(nat, nat)> := [(x, ax), (y, ay)];
    BumpOne(used, y, ay, arena);
    assert both[1..] == [(y, ay)];
    if x > 0 && BumpAligned(used, x, ax, arena).Some? {
      BumpOne(BumpAligned(used, x, ax, arena).value, y, ay, arena);
    }
  }

  /** When dtb_rewrite_property_reg gets through, in terms of the two allocations. */
  lemma RegOutcome(value: Option<seq<byte>>, ac: nat, sc: nat, used: nat, arena: nat)
    requires arena < MAX_BLOB && ac + sc > 0 && ac <= 3 && sc <= 2
    ensures var b := if value.None? then [] else value.value;
            var stride := 4 * ac + 4 * sc;
            var n := |b| / stride;
            n > 0 && |b| % stride == 0 ==>
              var first := if ac == 0 then Some(used) else BumpAligned(used, Times(4 * ac, n), 4 * ac, arena);
              var end := if first.None? || sc == 0 then first
                  else BumpAligned(first.value, Times(4 * sc, n), 4 * sc, arena);
              && Times(4 * ac + 4 * sc, n) == |b|
              && DecodeReg(value, ac, sc, used, arena)
                 == if end.None? then DecodeStops
                    else if ac > 2 then DecodeStrays
                    else
                      Decoded(Reg(if ac == 0 then [] else Field(b, 0, ac, stride),
                                  if sc == 0 then [] else Field(b, 4 * ac, sc, stride)), end.value)
  {
    hide BumpAligned, BumpAll, Field;
    var b := if value.None? then [] else value.value;
    var stride := 4 * ac + 4 * sc;
    var n := |b| / stride;
    if n > 0 && |b| % stride == 0 {
      MultipleOf(|b|, stride);
      MulSwap(1, n, stride);
      BumpTwo(used, Times(4 * ac, n), 4 * ac, Times(4 * sc, n), 4 * sc, arena);
      TimesPositive(ac, n);
      TimesPositive(sc, n);
    }
  }

  /** The index behind an aligned array of n numbers; fields without cells take nothing, and nothing is taken
      once the arena is full. */
  function AfterArray(used: nat, cells: nat, n: nat, arena: nat): nat
    requires arena < MAX_BLOB && cells <= 2
  {
    if cells == 0 || used > arena then used else AlignUp(used, 4 * cells) + Times(4 * cells, n)
  }

  /** Exactly when a `reg` value is decoded, and what it takes of the arena. */
  lemma RegSucceedsIff(b: seq<byte>, ac: nat, sc: nat, used: nat, arena: nat, n: nat)
    requires arena < MAX_BLOB && used <= arena && 0 < ac + sc && ac <= 2 && sc <= 2 && n == |b| / (4 * ac + 4 * sc)
    ensures var end := AfterArray(AfterArray(used, ac, n, arena), sc, n, arena);
            var o := DecodeReg(Some(b), ac, sc, used, arena);
            && (o.Decoded? <==> b != [] && |b| % (4 * ac + 4 * sc) == 0 && end <= arena)
            && (o.Decoded? ==> o.used == end)
  {
    hide AlignUp, Field, DecodeReg, Times;
    if n == 0 || |b| % (4 * ac + 4 * sc) != 0 {
      Refused(Some(b), ac, sc, used, arena);
      if n == 0 && |b| % (4 * ac + 4 * sc) == 0 {
        NoneWhole(|b|, 4 * ac + 4 * sc);
      }
    } else {
      RegOutcome(Some(b), ac, sc, used, arena);
      TimesPositive(ac, n);
      TimesPositive(sc, n);
    }
  }

  /** Exactly when a `compatible` value is decoded, and what it takes of the arena. */
  lemma CompatibleSucceedsIff(b: seq<byte>, used: nat, arena: nat)
    requires arena < MAX_BLOB && used <= arena
    ensures var end := AlignUp(used, 8) + 8 * (CountNuls(b) + 1);
            && (DecodeCompatible(Some(b), used, arena).Decoded? <==> (b == [] || b[|b| - 1] == 0) && end <= arena)
            && (DecodeCompatible(Some(b), used, arena).Decoded? ==>
                  DecodeCompatible(Some(b), used, arena).used == end)
  {
    hide AlignUp, CountNuls, SplitStrings;
  }

  /** Exactly when a `ranges` value with a whole record is decoded, and what it takes of the arena. */
  lemma RangesSucceedsIff(b: seq<byte>, dma: bool, ac: nat, sc: nat, used: nat, arena: nat, n: nat)
    requires arena < MAX_BLOB && used <= arena && 0 < ac <= 2 && 0 < sc <= 2 && n == |b| / (8 * ac + 4 * sc) > 0
    ensures var end := AfterArray(AfterArray(AfterArray(used, ac, n, arena), ac, n, arena), sc, n, arena);
            var o := DecodeRanges(Some(b), dma, ac, sc, used, arena);
            && (o.Decoded? <==> end <= arena)
            && (o.Decoded? ==> o.used == end)
  {
    hide AlignUp, RangesOf, Times, BumpAll;
    TimesPositive(ac, n);
    TimesPositive(sc, n);
    BumpThree(used, Times(4 * ac, n), 4 * ac, Times(4 * ac, n), 4 * ac, Times(4 * sc, n), 4 * sc, arena);
  }

  lemma BumpThree(used: nat, x: nat, ax: u64, y: nat, ay: u64, z: nat, az: u64, arena: nat)
    requires arena < MAX_BLOB && x > 0 && y > 0 && z > 0
    ensures var first := BumpAligned(used, x, ax, arena);
            var second := if first.None? then first else BumpAligned(first.value, y, ay, arena);
            BumpAll(used, [(x, ax), (y, ay), (z, az)], arena)
            == if second.None? then second else BumpAligned(second.value, z, az, arena)
  {
    hide BumpAligned;
    var all: seq<(nat, nat)> := [(x, ax), (y, ay), (z, az)];
    assert all[1..] == [(y, ay), (z, az)];
    var first := BumpAligned(used, x, ax, arena);
    if first.Some? {
      BumpTwo(first.value, y, ay, z, az, arena);
    }
  }

  lemma NoneWhole(len: nat, stride: nat)
    requires stride > 0 && len / stride == 0 && len % stride == 0
    ensures len == 0
  {
    MultipleOf(len, stride);
  }

  lemma TimesPositive(cells: nat, n: nat)
    requires n > 0
    ensures Times(4 * cells, n) == 0 <==> cells == 0
  {
    MulMonotone(1, n, 4 * cells);
    MulSwap(1, n, 4 * cells);
  }

  lemma CellPowers(cells: nat)
    requires 0 < cells <= 2
    ensures IsPow2(4 * cells) && 4 * cells < MAX_BLOB
  {
    assert Pow2(2) == 4 && Pow2(3) == 8;
  }

  /** What FillPairs leaves behind, array by array. */
  lemma FilledIsArray(
    mem: seq<byte>, p: Ptr, from: nat, value: seq<byte>, skip: nat, cells: nat, stride: nat, n: nat, low: nat,
    high: nat)
    requires cells <= 2 && 0 < stride && skip + 4 * cells <= stride && |value| % stride == 0
    requires cells == 0 ==> p == None
    requires cells > 0 ==> p == Some(from) && low <= from && from % (4 * cells) == 0
    requires cells > 0 ==> from + Times(4 * cells, n) <= high <= |mem|
    requires Filled(mem, from, from + Times(4 * cells, n), value, skip, cells, stride)
    ensures HasArray(mem, p, if cells == 0 then [] else Field(value, skip, cells, stride), cells, n, low, high)
  {
    hide Times, Numbers, Field;
  }

  /** Two new arrays between two offsets, disjoint, hold decoded data; all else in the arena is as before. */
  ghost predicate RegMade(
    m0: seq<byte>, mem: seq<byte>, out: RegDecoded, data: Data, ac: nat, sc: nat, start: nat, used: nat)
    requires out.RegArrays? && data.Reg?
  {
    var split := if out.sizes.Some? then out.sizes.value else used;
    && start <= used <= |mem| == |m0|
    && HasArray(mem, out.addresses, data.addresses, ac, out.pairs, start, split)
    && HasArray(mem, out.sizes, data.sizes, sc, out.pairs, start, used)
    && mem[..start] == m0[..start] && mem[used..] == m0[used..]
  }

  /** The arrays that decoding made. */
  ghost function RegPieces(mem: seq<byte>, out: RegDecoded, ac: nat, sc: nat): seq<Piece>
    requires out.RegArrays?
  {
    ArrayPiece(mem, out.addresses, Times(4 * ac, out.pairs)) + ArrayPiece(mem, out.sizes, Times(4 * sc, out.pairs))
  }

  ghost function ArrayPiece(mem: seq<byte>, p: Ptr, size: nat): seq<Piece> {
    if p.Some? && p.value + size <= |mem| then [Piece(p.value, mem[p.value..p.value + size])] else []
  }

  lemma RegKept(
    m0: seq<byte>, mem: seq<byte>, pieces: seq<Piece>, out: RegDecoded, data: Data, ac: nat, sc: nat, start: nat,
    used: nat)
    requires out.RegArrays? && data.Reg? && RegMade(m0, mem, out, data, ac, sc, start, used) && Kept(m0, pieces, start)
    ensures Kept(mem, pieces + RegPieces(mem, out, ac, sc), used)
  {
    hide Kept, Times, Numbers;
    var split := if out.sizes.Some? then out.sizes.value else used;
    var first := ArrayPiece(mem, out.addresses, Times(4 * ac, out.pairs));
    var second := ArrayPiece(mem, out.sizes, Times(4 * sc, out.pairs));
    KeptStays(m0, mem, pieces, start, start);
    ArrayKept(mem, pieces, out.addresses, Times(4 * ac, out.pairs), start, split);
    ArrayKept(mem, pieces + first, out.sizes, Times(4 * sc, out.pairs), split, used);
    assert pieces + (first + second) == pieces + first + second;
  }

  lemma ArrayKept(mem: seq<byte>, pieces: seq<Piece>, p: Ptr, size: nat, top: nat, top': nat)
    requires Kept(mem, pieces, top) && top <= top' <= |mem| && (p.Some? ==> top <= p.value && p.value + size <= top')
    ensures Kept(mem, pieces + ArrayPiece(mem, p, size), top')
  {
    hide Kept;
    if p.Some? {
      KeptMore(mem, pieces, Piece(p.value, mem[p.value..p.value + size]), top, top');
    } else {
      KeptStays(mem, mem, pieces, top, top');
      assert pieces + [] == pieces;
    }
  }

  /** The outcome is that of DecodeReg on the raw value `b`, and the arrays are as they should be. */
  ghost predicate RegResult(
    m0: seq<byte>, mem: seq<byte>, b: Option<seq<byte>>, ac: nat, sc: nat, start: nat, index: nat, out: RegDecoded)
    requires |mem| < MAX_BLOB
  {
    match DecodeReg(b, ac, sc, start, |mem|)
    case Decoded(data, used) =>
      && out.RegArrays? && index == used && data.Reg?
      && (ac + sc > 0 ==> out.pairs == |b.GetOr([])| / (4 * ac + 4 * sc))
      && RegMade(m0, mem, out, data, ac, sc, start, used)
    case DecodeStops => out == RegStops
    case _ => out == RegStrays
  }

  /** dtb_rewrite_property_reg. It gets through exactly when DecodeReg does. Then the two arrays are new and
      disjoint, hold the decoded numbers, and the value and all else that was in the arena is as before. */
  method RewriteReg(bump: Bump, value: Ptr, len: nat, ac: nat, sc: nat) returns (out: RegDecoded)
    requires bump.Valid()
    requires if value.Some? then value.value + len <= bump.index else len == 0
    modifies bump`index, bump`made, bump.memory
    ensures bump.Valid()
    ensures bump.made == old(bump.made) + (if out.RegArrays? then RegPieces(bump.memory[..], out, ac, sc) else [])
    ensures RegResult(old(bump.memory[..]), bump.memory[..], ValueAt(old(bump.memory[..]), value, len), ac, sc,
                      old(bump.index), bump.index, out)
  {
    hide RegResult, DecodeReg, Kept, RegPieces;
    ghost var m0, b := bump.memory[..], ValueAt(bump.memory[..], value, len);
    var address_size, size_size := 4 * ac, 4 * sc;
    if address_size + size_size == 0 {
      NoCells(b, ac, sc, bump.index, bump.memory.Length);
      NoArrays(m0, b, ac, sc, bump.index, RegStrays);
      return RegStrays;
    }
    var n := len / (address_size + size_size);
    if n == 0 || len % (address_size + size_size) != 0 || ac > 3 || sc > 2 {
      Refused(b, ac, sc, bump.index, bump.memory.Length);
      NoArrays(m0, b, ac, sc, bump.index, RegStops);
      return RegStops;
    }
    out := AllocAndFill(bump, value.value, len, ac, sc, n);
  }

  lemma NoArrays(mem: seq<byte>, b: Option<seq<byte>>, ac: nat, sc: nat, start: nat, out: RegDecoded)
    requires |mem| < MAX_BLOB && !out.RegArrays?
    requires DecodeReg(b, ac, sc, start, |mem|) == if out == RegStops then DecodeStops else DecodeStrays
    ensures forall index: nat :: RegResult(mem, mem, b, ac, sc, start, index, out)
  {
    hide DecodeReg;
  }

  /** The two allocations of dtb_rewrite_property_reg, and what follows. */
  method AllocAndFill(bump: Bump, value: nat, len: nat, ac: nat, sc: nat, n: nat) returns (out: RegDecoded)
    requires bump.Valid() && value + len <= bump.index && ac + sc > 0 && ac <= 3 && sc <= 2
    requires n == len / (4 * ac + 4 * sc) > 0 && len % (4 * ac + 4 * sc) == 0
    modifies bump`index, bump`made, bump.memory
    ensures bump.Valid()
    ensures bump.made == old(bump.made) + (if out.RegArrays? then RegPieces(bump.memory[..], out, ac, sc) else [])
    ensures RegResult(old(bump.memory[..]), bump.memory[..], Some(old(bump.memory[value..value + len])), ac, sc,
                      old(bump.index), bump.index, out)
  {
    hide RegResult, Times, Field, RegMade, DecodeReg, AlignUp, IsPow2, Kept, RegPieces;
    ghost var m0, b := bump.memory[..], Some(bump.memory[value..value + len]);
    var start := bump.index;
    RegOutcome(b, ac, sc, start, bump.memory.Length);
    TimesPositive(ac, n);
    TimesPositive(sc, n);
    var addresses := bump.AllocAligned(Times(4 * ac, n), 4 * ac);
    var sizes := bump.AllocAligned(Times(4 * sc, n), 4 * sc);
    if (ac == 0) != (addresses == None) || (sc == 0) != (sizes == None) {
      NoArrays(m0, b, ac, sc, start, RegStops);
      return RegStops;
    }
    if ac > 2 {
      NoArrays(m0, b, ac, sc, start, RegStrays);
      return RegStrays;
    }
    if ac > 0 { CellPowers(ac); }
    if sc > 0 { CellPowers(sc); }
    out := RegArrays(n, addresses, sizes);
    FillReg(bump, value, len, ac, sc, out, start);
    ResultOf(m0, bump.memory[..], b, ac, sc, start, bump.index, out);
  }

  lemma ResultOf(
    m0: seq<byte>, mem: seq<byte>, b: Option<seq<byte>>, ac: nat, sc: nat, start: nat, index: nat, out: RegDecoded)
    requires |mem| < MAX_BLOB && out.RegArrays? && DecodeReg(b, ac, sc, start, |mem|).Decoded?
    requires var o := DecodeReg(b, ac, sc, start, |mem|);
             o.used == index && o.data.Reg? && RegMade(m0, mem, out, o.data, ac, sc, start, index)
    requires ac + sc > 0 && out.pairs == |b.GetOr([])| / (4 * ac + 4 * sc)
    ensures RegResult(m0, mem, b, ac, sc, start, index, out)
  {
    hide DecodeReg, RegMade;
  }

  /** Filling the two arrays once they are allocated. */
  method FillReg(bump: Bump, value: nat, len: nat, ac: nat, sc: nat, out: RegDecoded, start: nat)
    requires ac <= 2 && sc <= 2 && ac + sc > 0 && len % (4 * ac + 4 * sc) == 0 && value + len <= start
    requires out.RegArrays? && len == Times(4 * ac + 4 * sc, out.pairs) && start <= bump.index <= bump.memory.Length
    requires if ac == 0 then out.addresses == None
             else out.addresses.Some? && out.addresses.value >= start && out.addresses.value % (4 * ac) == 0
    requires if sc == 0 then out.sizes == None
             else out.sizes.Some? && out.sizes.value >= start && out.sizes.value % (4 * sc) == 0
                  && out.sizes.value + Times(4 * sc, out.pairs) == bump.index
    requires out.addresses.Some? ==>
               out.addresses.value + Times(4 * ac, out.pairs) <= if sc == 0 then bump.index else out.sizes.value
    requires out.sizes.None? && out.addresses.Some? ==> out.addresses.value + Times(4 * ac, out.pairs) == bump.index
    requires Kept(bump.memory[..], bump.made, start) && bump.memory.Length < MAX_BLOB
    modifies bump.memory, bump`made
    ensures bump.Valid() && bump.made == old(bump.made) + RegPieces(bump.memory[..], out, ac, sc)
    ensures var b, stride := old(bump.memory[value..value + len]), 4 * ac + 4 * sc;
            RegMade(old(bump.memory[..]), bump.memory[..], out,
              Reg(if ac == 0 then [] else Field(b, 0, ac, stride),
                  if sc == 0 then [] else Field(b, 4 * ac, sc, stride)),
              ac, sc, start, bump.index)
  {
    hide Times, PairsFilled, Field, HasArray, Kept, RegPieces;
    ghost var m0 := bump.memory[..];
    var a := if ac == 0 then start else out.addresses.value;
    var s := if sc == 0 then bump.index else out.sizes.value;
    NoTimes(ac, out.pairs);
    NoTimes(sc, out.pairs);
    FillPairs(bump, value, len, ac, sc, a, s, out.pairs);
    PairsMean(m0, bump.memory[..], value, len, ac, sc, a, s, out.pairs, out.addresses, out.sizes, start,
              m0[value..value + len], 4 * ac + 4 * sc);
    Recorded(bump, m0, m0[value..value + len], out, ac, sc, start);
    bump.made := bump.made + RegPieces(bump.memory[..], out, ac, sc);
  }

  lemma Recorded(bump: Bump, m0: seq<byte>, b: seq<byte>, out: RegDecoded, ac: nat, sc: nat, start: nat)
    requires ac <= 2 && sc <= 2 && ac + sc > 0 && |b| % (4 * ac + 4 * sc) == 0 && out.RegArrays?
    requires var stride := 4 * ac + 4 * sc;
             RegMade(m0, bump.memory[..], out,
               Reg(if ac == 0 then [] else Field(b, 0, ac, stride),
                   if sc == 0 then [] else Field(b, 4 * ac, sc, stride)),
               ac, sc, start, bump.index)
    requires Kept(m0, bump.made, start)
    ensures Kept(bump.memory[..], bump.made + RegPieces(bump.memory[..], out, ac, sc), bump.index)
  {
    hide RegMade, RegPieces, Kept, Field;
    var stride := 4 * ac + 4 * sc;
    RegKept(m0, bump.memory[..], bump.made, out,
            Reg(if ac == 0 then [] else Field(b, 0, ac, stride), if sc == 0 then [] else Field(b, 4 * ac, sc, stride)),
            ac, sc, start, bump.index);
  }

  lemma NoTimes(cells: nat, n: nat)
    ensures cells == 0 ==> Times(4 * cells, n) == 0
  {
  }

  lemma PrefixOf(a: seq<byte>, b: seq<byte>, i: nat, j: nat)
    requires i <= j <= |a| && j <= |b| && a[..j] == b[..j]
    ensures a[..i] == b[..i]
  {
    assert a[..i] == a[..j][..i] && b[..i] == b[..j][..i];
  }

  lemma PairsMean(
    m0: seq<byte>, mem: seq<byte>, from: nat, len: nat, ac: nat, sc: nat, a: nat, s: nat, n: nat, addresses: Ptr,
    sizes: Ptr, start: nat,
    b: seq<byte>, stride: nat)
    requires PairsFilled(m0, mem, from, len, len, ac, sc, a, a + Times(4 * ac, n), s, s + Times(4 * sc, n),
                         s + Times(4 * sc, n))
    requires start <= a && stride == 4 * ac + 4 * sc && stride > 0 && |b| % stride == 0 && ac <= 2 && sc <= 2
    requires |b| == len && from + len <= |m0| && b == m0[from..from + len]
    requires if ac == 0 then addresses == None else addresses == Some(a) && a % (4 * ac) == 0
    requires if sc == 0 then sizes == None else sizes == Some(s) && s % (4 * sc) == 0
    ensures && HasArray(mem, addresses, if ac == 0 then [] else Field(b, 0, ac, stride), ac, n, start, s)
            && HasArray(mem, sizes, if sc == 0 then [] else Field(b, 4 * ac, sc, stride), sc, n, start,
                        s + Times(4 * sc, n))
            && mem[..start] == m0[..start] && mem[s + Times(4 * sc, n)..] == m0[s + Times(4 * sc, n)..]
  {
    hide Times, Filled, Field, HasArray, Numbers;
    FilledIsArray(mem, addresses, a, b, 0, ac, stride, n, start, s);
    FilledIsArray(mem, sizes, s, b, 4 * ac, sc, stride, n, start, s + Times(4 * sc, n));
    PrefixOf(m0, mem, start, a);
  }

  lemma NoCells(b: Option<seq<byte>>, ac: nat, sc: nat, used: nat, arena: nat)
    requires ac + sc == 0 && arena < MAX_BLOB
    ensures DecodeReg(b, ac, sc, used, arena) == DecodeStrays
  {
  }

  lemma Refused(value: Option<seq<byte>>, ac: nat, sc: nat, used: nat, arena: nat)
    requires ac + sc > 0 && arena < MAX_BLOB
    requires var len := if value.None? then 0 else |value.value|;
             len / (4 * ac + 4 * sc) == 0 || len % (4 * ac + 4 * sc) != 0 || ac > 3 || sc > 2
    ensures DecodeReg(value, ac, sc, used, arena) == DecodeStops
  {
    hide BumpAll, Field;
  }

  // --- compatible ----------------------------------------------------------------------------

  datatype CompatibleDecoded = Table(count: nat, at: nat) | TableStops | TableStrays

  /** Pointers to the strings of a value that lies at `base`. */
  function Pointers(b: seq<byte>, from: nat, base: nat): seq<nat>
    decreases |b| - from
  {
    if from >= |b| then []
    else
      match CString(b, from)
      case None => []
      case Some(s) => [base + from] + Pointers(b, from + |s| + 1, base)
  }

  lemma PointersStep(b: seq<byte>, from: nat, base: nat, s: seq<byte>)
    requires CString(b, from) == Some(s)
    ensures Pointers(b, from, base) == [base + from] + Pointers(b, from + |s| + 1, base)
  {
    hide CString;
  }

  /** Entry i points at the i-th string. */
  lemma {:induction false} PointersMeaning(b: seq<byte>, from: nat, base: nat, i: nat)
    requires Terminated(b) && i < |Pointers(b, from, base)|
    ensures |Pointers(b, from, base)| == |SplitStrings(b, from)|
    ensures base <= Pointers(b, from, base)[i] < base + |b|
    ensures CString(b, Pointers(b, from, base)[i] - base) == Some(SplitStrings(b, from)[i])
    decreases |b| - from
  {
    hide CString, SplitStrings, Pointers;
    PointersInside(b, from, base);
    CStringExists(b, from);
    var s := CString(b, from).value;
    PointersStep(b, from, base, s);
    SplitStep(b, from, s);
    PointerCount(b, from, base);
    if i > 0 {
      PointersMeaning(b, from + |s| + 1, base, i - 1);
    }
  }

  lemma PointersInside(b: seq<byte>, from: nat, base: nat)
    ensures from >= |b| ==> Pointers(b, from, base) == []
  {
  }

  lemma {:induction false} PointerCount(b: seq<byte>, from: nat, base: nat)
    ensures |Pointers(b, from, base)| == |SplitStrings(b, from)|
    decreases |b| - from
  {
    hide CString;
    if from < |b| && CString(b, from).Some? {
      PointerCount(b, from + |CString(b, from).value| + 1, base);
    }
  }

  /** The loop that counts the NULs of a value. */
  method CountStrings(bump: Bump, value: nat, len: nat) returns (n: nat)
    requires value + len <= bump.memory.Length
    ensures n == CountNuls(bump.memory[value..value + len])
  {
    hide CountNuls;
    ghost var b := bump.memory[value..value + len];
    NoNuls();
    n := 0;
    for i := 0 to len
      invariant n == CountNuls(b[..i])
    {
      NulsConcat(b[..i], [b[i]]);
      OneNulOrNone(b[i]);
      assert b[..i] + [b[i]] == b[..i + 1];
      if bump.memory[value + i] == 0 {
        n := n + 1;
      }
    }
    assert b[..len] == b;
  }

  lemma NoNuls()
    ensures CountNuls([]) == 0
  {
  }

  lemma OneNulOrNone(x: byte)
    ensures CountNuls([x]) == if x == 0 then 1 else 0
  {
    assert [x][1..] == [];
  }

  /** strlen from offset j of a value; it is not found if no NUL comes before the value's end. */
  method StringLength(bump: Bump, value: nat, len: nat, j: nat) returns (n: nat, found: bool)
    requires value + len <= bump.memory.Length && j <= len
    ensures var s := CString(bump.memory[value..value + len], j); found == s.Some? && (found ==> n == |s.value|)
  {
    hide CString;
    ghost var b := bump.memory[value..value + len];
    n := 0;
    while j + n < len && bump.memory[value + j + n] != 0
      invariant j + n <= len
      invariant forall k :: j <= k < j + n ==> b[k] != 0
    {
      assert b[j + n] == bump.memory[value + j + n];
      n := n + 1;
    }
    assert j + n < len ==> b[j + n] == bump.memory[value + j + n];
    ScanIsCString(b, j, n);
    found := j + n < len;
  }

  /** What holds between two turns of the loop that fills the table. */
  ghost predicate TableFilled(
    m0: seq<byte>, mem: seq<byte>, b: seq<byte>, p: nat, at: nat, i: nat, j: nat, end: nat)
  {
    && |mem| == |m0| && at + 8 * i <= end <= |mem| && j <= |b|
    && mem[..at] == m0[..at] && mem[end..] == m0[end..]
    && Numbers(mem[at..at + 8 * i], 8) + Pointers(b, j, p) == Pointers(b, 0, p)
    && at + 8 * (i + CountNuls(b[j..]) + 1) == end
  }

  /** A pointer stored behind the table so far. */
  lemma TableStore(m0: seq<byte>, mem: seq<byte>, b: seq<byte>, p: nat, at: nat, i: nat, j: nat, end: nat, x: nat)
    requires TableFilled(m0, mem, b, p, at, i, j, end) && x < WORD
    ensures at + 8 * i + 8 <= end
    ensures var mem' := Put(mem, at + 8 * i, LittleBytes(x, 8));
            && |mem'| == |m0| && mem'[..at] == m0[..at] && mem'[end..] == m0[end..]
            && Numbers(mem'[at..at + 8 * (i + 1)], 8) == Numbers(mem[at..at + 8 * i], 8) + [x]
  {
    hide Numbers, Pointers, CountNuls, Put, LittleBytes, Little, Pow2;
    var to, c := at + 8 * i, LittleBytes(x, 8);
    var mem' := Put(mem, to, c);
    StillBelow(m0, mem, to, c, at, end);
    PutElsewhere(mem, to, c, at, to);
    assert mem'[at..to + 8] == mem[at..to] + c by {
      assert mem'[to..to + |c|] == c;
      assert mem'[at..to + 8] == mem'[at..to] + mem'[to..to + 8];
    }
    NumbersAppend(mem[at..to], c, 8);
    BytePowers();
    StoreLoad(x, 8);
  }

  lemma TableTurn(m0: seq<byte>, mem: seq<byte>, b: seq<byte>, p: nat, at: nat, i: nat, j: nat, end: nat, s: seq<byte>)
    requires TableFilled(m0, mem, b, p, at, i, j, end) && CString(b, j) == Some(s) && p + |b| < WORD
    ensures at + 8 * i + 8 <= end <= |mem|
    ensures TableFilled(m0, Put(mem, at + 8 * i, LittleBytes(p + j, 8)), b, p, at, i + 1, j + |s| + 1, end)
  {
    hide Numbers, Pointers, CountNuls, Put, LittleBytes, CString, SplitStrings;
    TableStore(m0, mem, b, p, at, i, j, end, p + j);
    OneString(b, j, s);
    PointersStep(b, j, p, s);
    var old' := Numbers(mem[at..at + 8 * i], 8);
    assert old' + ([p + j] + Pointers(b, j + |s| + 1, p)) == old' + [p + j] + Pointers(b, j + |s| + 1, p);
  }

  lemma TableStart(m0: seq<byte>, b: seq<byte>, p: nat, at: nat, end: nat)
    requires at + 8 * (CountNuls(b) + 1) == end <= |m0|
    ensures TableFilled(m0, m0, b, p, at, 0, 0, end)
  {
    hide CountNuls, Pointers;
    assert b[0..] == b;
    NoNumbers(m0[at..at], 8);
  }

  lemma TableEnd(m0: seq<byte>, mem: seq<byte>, b: seq<byte>, p: nat, at: nat, i: nat, end: nat)
    requires TableFilled(m0, mem, b, p, at, i, |b|, end)
    ensures at + 8 * (i + 1) == end && Numbers(mem[at..at + 8 * i], 8) == Pointers(b, 0, p)
  {
    hide Numbers;
    NoNuls();
    assert b[|b|..] == [];
    PointersInside(b, |b|, p);
  }

  /** One turn of that loop: a pointer, and the length of the string it points at. */
  method FillEntry(
    bump: Bump, value: nat, len: nat, base: nat, at: nat, i: nat, j: nat, ghost m0: seq<byte>, ghost b: seq<byte>,
    ghost end: nat)
    returns (k: nat, found: bool)
    requires |m0| == bump.memory.Length && value + len <= at && at <= end <= |m0| && base + |m0| < WORD
    requires b == m0[value..value + len] && j < len && TableFilled(m0, bump.memory[..], b, base + value, at, i, j, end)
    modifies bump.memory
    ensures bump.memory[..at] == m0[..at] && bump.memory[end..] == m0[end..]
    ensures !found ==> !Terminated(b)
    ensures found ==> j + k < len && b[j + k] == 0
    ensures found ==> TableFilled(m0, bump.memory[..], b, base + value, at, i + 1, j + k + 1, end)
  {
    hide TableFilled, Put, LittleBytes, CountNuls, CString, Numbers, Pointers, Terminated;
    ghost var mem := bump.memory[..];
    TableStore(m0, mem, b, base + value, at, i, j, end, base + value + j);
    bump.Store(at + 8 * i, LittleBytes(base + value + j, 8));
    ValueKept(m0, bump.memory[..], value, len, at);
    k, found := StringLength(bump, value, len, j);
    if found {
      TableTurn(m0, mem, b, base + value, at, i, j, end, CString(b, j).value);
    } else {
      NotTerminated(b, j);
    }
  }

  /** The loop that fills the table of dtb_rewrite_property_compatible, and the final NULL. It never leaves the
      table it was given, and gets to the end exactly when the value ends in NUL. */
  method FillTable(bump: Bump, value: nat, len: nat, base: nat, at: nat, n: nat) returns (ok: bool)
    requires value + len <= at && at + 8 * (n + 1) <= bump.memory.Length && base + bump.memory.Length < WORD
    requires n == CountNuls(bump.memory[value..value + len])
    modifies bump.memory
    ensures var b := old(bump.memory[value..value + len]);
            && ok == Terminated(b)
            && (ok ==> Numbers(bump.memory[at..at + 8 * (n + 1)], 8) == Pointers(b, 0, base + value) + [0])
    ensures bump.memory[..at] == old(bump.memory[..at])
    ensures bump.memory[at + 8 * (n + 1)..] == old(bump.memory[..])[at + 8 * (n + 1)..]
  {
    hide TableFilled, Put, LittleBytes, CountNuls, CString, Numbers, Pointers;
    ghost var m0, b, p, end := bump.memory[..], bump.memory[value..value + len], base + value, at + 8 * (n + 1);
    TableStart(m0, b, p, at, end);
    var i, j := 0, 0;
    while j < len
      invariant j <= len && TableFilled(m0, bump.memory[..], b, p, at, i, j, end)
      invariant j > 0 ==> b[j - 1] == 0
      decreases len - j
    {
      var k, found := FillEntry(bump, value, len, base, at, i, j, m0, b, end);
      if !found {
        return false;
      }
      i := i + 1;
      j := j + k + 1;
    }
    TableEnd(m0, bump.memory[..], b, p, at, i, end);
    TableStore(m0, bump.memory[..], b, p, at, i, len, end, 0);
    bump.Store(at + 8 * n, LittleBytes(0, 8));
    return true;
  }

  lemma ValueKept(m0: seq<byte>, mem: seq<byte>, value: nat, len: nat, at: nat)
    requires |mem| == |m0| && value + len <= at <= |mem| && mem[..at] == m0[..at]
    ensures mem[value..value + len] == m0[value..value + len]
  {
    assert mem[value..value + len] == mem[..at][value..value + len];
    assert m0[value..value + len] == m0[..at][value..value + len];
  }

  lemma NotTerminated(b: seq<byte>, j: nat)
    requires j < |b| && CString(b, j).None?
    ensures !Terminated(b)
  {
    hide CString;
    if Terminated(b) {
      CStringExists(b, j);
    }
  }

  /** A new aligned table between two offsets holds the pointers to the strings of `b`, which lies at address
      `p`, and a final NULL; all else in the arena is as before. */
  ghost predicate TableMade(
    m0: seq<byte>, mem: seq<byte>, b: seq<byte>, p: nat, start: nat, used: nat, count: nat, at: nat)
  {
    && start <= at && at % 8 == 0 && at + 8 * (count + 1) == used <= |mem| == |m0|
    && Numbers(mem[at..used], 8) == Pointers(b, 0, p) + [0]
    && mem[..start] == m0[..start] && mem[used..] == m0[used..]
  }

  lemma TableIsMade(
    m0: seq<byte>, mem: seq<byte>, b: seq<byte>, p: nat, start: nat, used: nat, count: nat, at: nat)
    requires start <= at && at % 8 == 0 && at + 8 * (count + 1) == used <= |mem| == |m0|
    requires Numbers(mem[at..used], 8) == Pointers(b, 0, p) + [0]
    requires mem[..start] == m0[..start] && mem[used..] == m0[used..]
    ensures TableMade(m0, mem, b, p, start, used, count, at)
  {
  }

  /** Filling the table once it is allocated. */
  method MakeTable(bump: Bump, value: nat, len: nat, base: nat, at: nat, n: nat, ghost start: nat) returns (ok: bool)
    requires value + len <= start <= at && at % 8 == 0
    requires at + 8 * (n + 1) == bump.index <= bump.memory.Length < MAX_BLOB
    requires base + bump.memory.Length < WORD && n == CountNuls(bump.memory[value..value + len])
    requires Kept(bump.memory[..], bump.made, start)
    modifies bump.memory, bump`made
    ensures bump.Valid()
    ensures ok == Terminated(old(bump.memory[value..value + len]))
    ensures bump.made == old(bump.made) + (if ok then ArrayPiece(bump.memory[..], Some(at), 8 * (n + 1)) else [])
    ensures ok ==> TableMade(old(bump.memory[..]), bump.memory[..], old(bump.memory[value..value + len]), base + value,
                             start, bump.index, n, at)
  {
    hide CountNuls, CString, Numbers, Pointers, Kept, TableMade, ArrayPiece, Terminated;
    ghost var m0 := bump.memory[..];
    ok := FillTable(bump, value, len, base, at, n);
    PrefixOf(bump.memory[..], m0, start, at);
    KeptStays(m0, bump.memory[..], bump.made, start, at);
    if ok {
      TableIsMade(m0, bump.memory[..], m0[value..value + len], base + value, start, bump.index, n, at);
      ArrayKept(bump.memory[..], bump.made, Some(at), 8 * (n + 1), at, bump.index);
      bump.made := bump.made + ArrayPiece(bump.memory[..], Some(at), 8 * (n + 1));
    } else {
      KeptStays(bump.memory[..], bump.memory[..], bump.made, at, bump.index);
    }
  }

  /** The words from `at` on are the addresses of these strings, one after the other, and NULL. */
  ghost predicate PointsAt(mem: seq<byte>, base: nat, at: nat, strings: seq<seq<byte>>) {
    && at + 8 * (|strings| + 1) <= |mem|
    && (forall i :: 0 <= i < |strings| ==> StringAt(mem, base, Little(mem[at + 8 * i..at + 8 * i + 8]), strings[i]))
    && Little(mem[at + 8 * |strings|..at + 8 * |strings| + 8]) == 0
  }

  /** Address p is that of a string in an arena at address `base`. */
  ghost predicate StringAt(mem: seq<byte>, base: nat, p: nat, s: seq<byte>) {
    base <= p < base + |mem| && CString(mem, p - base) == Some(s)
  }

  lemma {:induction false} NumbersAt(b: seq<byte>, width: nat, i: nat)
    requires width == 8 && |b| % width == 0 && 8 * i + 8 <= |b|
    ensures i < |Numbers(b, width)| && Numbers(b, width)[i] == Little(b[8 * i..8 * i + 8])
    decreases i
  {
    hide Little;
    Records(|b|, width);
    if i > 0 {
      NumbersAt(b[width..], width, i - 1);
      assert b[width..][8 * (i - 1)..8 * (i - 1) + 8] == b[8 * i..8 * i + 8];
    }
  }

  /** A string of a value is a string of the arena around it. */
  lemma {:induction false} CStringWithin(mem: seq<byte>, v: nat, b: seq<byte>, o: nat)
    requires v + |b| <= |mem| && mem[v..v + |b|] == b && CString(b, o).Some?
    ensures CString(mem, v + o) == CString(b, o)
    decreases |b| - o
  {
    assert mem[v + o] == b[o];
    if b[o] != 0 {
      CStringWithin(mem, v, b, o + 1);
    }
  }

  lemma TablePoints(
    m0: seq<byte>, mem: seq<byte>, b: seq<byte>, base: nat, v: nat, start: nat, used: nat, count: nat, at: nat)
    requires TableMade(m0, mem, b, base + v, start, used, count, at) && v + |b| <= start && m0[v..v + |b|] == b
    requires Terminated(b) && count == |SplitStrings(b, 0)|
    ensures PointsAt(mem, base, at, SplitStrings(b, 0))
  {
    hide Numbers, Pointers, CString, SplitStrings, Terminated, Little, StringAt;
    ValueKept(m0, mem, v, |b|, start);
    PointerCount(b, 0, base + v);
    forall i | 0 <= i < count
      ensures StringAt(mem, base, Little(mem[at + 8 * i..at + 8 * i + 8]), SplitStrings(b, 0)[i])
    {
      PointerIs(mem, at, used, Pointers(b, 0, base + v) + [0], i);
      PointsAtString(mem, b, base, v, i);
    }
    PointerIs(mem, at, used, Pointers(b, 0, base + v) + [0], count);
  }

  lemma PointerIs(mem: seq<byte>, at: nat, used: nat, ps: seq<nat>, i: nat)
    requires at + 8 * |ps| == used <= |mem| && Numbers(mem[at..used], 8) == ps && i < |ps|
    ensures Little(mem[at + 8 * i..at + 8 * i + 8]) == ps[i]
  {
    hide Numbers, Little;
    NumbersAt(mem[at..used], 8, i);
    SliceOfSlice(mem, at, used, 8 * i, 8 * i + 8);
  }

  lemma PointsAtString(mem: seq<byte>, b: seq<byte>, base: nat, v: nat, i: nat)
    requires v + |b| <= |mem| && mem[v..v + |b|] == b && Terminated(b) && i < |Pointers(b, 0, base + v)|
    ensures i < |SplitStrings(b, 0)| && StringAt(mem, base, Pointers(b, 0, base + v)[i], SplitStrings(b, 0)[i])
  {
    hide Pointers, CString, SplitStrings, Terminated;
    PointersMeaning(b, 0, base + v, i);
    CStringWithin(mem, v, b, Pointers(b, 0, base + v)[i] - (base + v));
  }

  /** dtb_rewrite_property_compatible, for an arena at address `base`. It gets through exactly when
      DecodeCompatible does. Then the new table holds a pointer to every string of the value, in order, and a
      final NULL, and the value and all else that was in the arena is as before. */
  method RewriteCompatible(bump: Bump, base: nat, value: Ptr, len: nat) returns (out: CompatibleDecoded)
    requires bump.Valid() && base + bump.memory.Length < WORD
    requires if value.Some? then value.value + len <= bump.index else len == 0
    modifies bump`index, bump`made, bump.memory
    ensures bump.Valid()
    ensures bump.made == old(bump.made)
                       + (if out.Table? then ArrayPiece(bump.memory[..], Some(out.at), 8 * (out.count + 1)) else [])
    ensures match DecodeCompatible(ValueAt(old(bump.memory[..]), value, len), old(bump.index), bump.memory.Length)
            case Decoded(data, used) =>
              && out.Table? && bump.index == used && data.Compatible? && out.count == |data.strings|
              && TableMade(old(bump.memory[..]), bump.memory[..], ValueAt(old(bump.memory[..]), value, len).GetOr([]),
                           base + value.GetOr(0), old(bump.index), used, out.count, out.at)
              && PointsAt(bump.memory[..], base, out.at, data.strings)
            case DecodeStops => out == TableStops
            case _ => out == TableStrays
  {
    hide CountNuls, CString, Numbers, Pointers, AlignUp, IsPow2, SplitStrings, Kept, TableMade, PointsAt;
    ghost var m0 := bump.memory[..];
    ghost var start := bump.index;
    var v := if value.None? then 0 else value.value;
    ghost var b := m0[v..v + len];
    var n := CountStrings(bump, v, len);
    CellPowers(2);
    var table := bump.AllocAligned(8 * (n + 1), 8);
    if table == None {
      return TableStops;
    }
    var ok := MakeTable(bump, v, len, base, table.value, n, start);
    if !ok {
      return TableStrays;
    }
    SplitJoin(b, 0);
    assert b[0..] == b;
    TablePoints(m0, bump.memory[..], b, base, v, start, bump.index, n, table.value);
    return Table(n, table.value);
  }
}
