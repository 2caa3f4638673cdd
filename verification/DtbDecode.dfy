/** Decoding raw properties (src/octiron/devices/device_tree/device_tree.c:260-437, 449-493). */
module DtbDecode {
  import opened Words
  import opened Endian
  import opened Extents
  import opened DtbModel

  /** `DecodeStops` is a failed ASSERT, `DecodeStrays` a read through NULL or beyond the copied value, of
      which nothing is known. Three-cell addresses read more than they step over and count as straying. */
  datatype DecodeOutcome =
    | Decoded(data: Data, used: nat)
    | AddressCellsTooLarge
    | SizeCellsTooLarge
    | DecodeStops
    | DecodeStrays

  // --- the bump allocator --------------------------------------------------------------------

  /** bump_alloc_aligned: the new index, or None if the arena is full or nothing is asked for. */
  function BumpAligned(used: nat, size: nat, alignment: u64, arena: nat): Option<nat>
    requires arena < MAX_BLOB
  {
    if size == 0 || alignment == 0 || used >= WORD || AlignUp(used, alignment) + size > arena then None
    else Some(AlignUp(used, alignment) + size)
  }

  // --- strings -------------------------------------------------------------------------------

  function CountNuls(b: seq<byte>): nat {
    if b == [] then 0 else CountNuls(b[1..]) + (if b[0] == 0 then 1 else 0)
  }

  /** The strings of a value that ends in NUL, as the strlen-stepping loop finds them. */
  function SplitStrings(b: seq<byte>, from: nat): seq<seq<byte>>
    decreases |b| - from
  {
    if from >= |b| then []
    else
      match CString(b, from)
      case None => []
      case Some(s) => [s] + SplitStrings(b, from + |s| + 1)
  }

  /** The strings put back together, each with its NUL. */
  function JoinStrings(ss: seq<seq<byte>>): seq<byte> {
    if ss == [] then [] else ss[0] + [0] + JoinStrings(ss[1..])
  }

  /** A value of whole strings. */
  predicate Terminated(b: seq<byte>) {
    b == [] || b[|b| - 1] == 0
  }

  lemma {:induction false} CStringExists(b: seq<byte>, from: nat)
    requires from < |b| && b[|b| - 1] == 0
    ensures CString(b, from).Some?
    decreases |b| - from
  {
    if b[from] != 0 {
      CStringExists(b, from + 1);
    }
  }

  lemma {:induction false} NulsConcat(a: seq<byte>, b: seq<byte>)
    ensures CountNuls(a + b) == CountNuls(a) + CountNuls(b)
  {
    if a == [] {
      assert a + b == b;
    } else {
      assert (a + b)[1..] == a[1..] + b;
      NulsConcat(a[1..], b);
    }
  }

  lemma {:induction false} NulsNone(a: seq<byte>)
    requires 0 !in a
    ensures CountNuls(a) == 0
  {
    if a != [] {
      assert a[0] != 0;
      NulsNone(a[1..]);
    }
  }

  /** The two loops of dtb_rewrite_property_compatible agree: stepping by strlen finds exactly as many strings
      as there are NULs, none of them holds a NUL, and joining them gives back the value. */
  lemma {:induction false} SplitJoin(b: seq<byte>, from: nat)
    requires Terminated(b) && from <= |b|
    ensures var ss := SplitStrings(b, from);
            && |ss| == CountNuls(b[from..])
            && JoinStrings(ss) == b[from..]
            && (forall s :: s in ss ==> 0 !in s)
    decreases |b| - from
  {
    hide CString, CountNuls, SplitStrings;
    SplitEnds(b);
    if from < |b| {
      CStringExists(b, from);
      var s := CString(b, from).value;
      OneString(b, from, s);
      SplitStep(b, from, s);
      SplitJoin(b, from + |s| + 1);
      var rest := SplitStrings(b, from + |s| + 1);
      assert ([s] + rest)[1..] == rest;
    }
  }

  lemma SplitEnds(b: seq<byte>)
    ensures SplitStrings(b, |b|) == [] && b[|b|..] == [] && CountNuls([]) == 0
  {
  }

  lemma OneString(b: seq<byte>, from: nat, s: seq<byte>)
    requires CString(b, from) == Some(s)
    ensures var next := from + |s| + 1;
            && next <= |b| && b[from..] == s + [0] + b[next..]
            && CountNuls(b[from..]) == CountNuls(b[next..]) + 1
            && 0 !in s
  {
    hide CString, SplitStrings;
    var next := from + |s| + 1;
    assert b[from..] == s + [0] + b[next..];
    NulsConcat(s + [0], b[next..]);
    NulsConcat(s, [0]);
    NulsNone(s);
    OneNul([0]);
  }

  lemma SplitStep(b: seq<byte>, from: nat, s: seq<byte>)
    requires CString(b, from) == Some(s)
    ensures SplitStrings(b, from) == [s] + SplitStrings(b, from + |s| + 1)
  {
    hide CString;
  }

  lemma OneNul(z: seq<byte>)
    requires z == [0]
    ensures CountNuls(z) == 1
  {
    assert z[1..] == [];
  }

  /** Entry i of the list is the string that starts where the first i strings end. */
  lemma {:induction false} EntryStart(b: seq<byte>, from: nat, i: nat)
    requires Terminated(b) && from <= |b| && i < |SplitStrings(b, from)|
    ensures var start := from + |JoinStrings(SplitStrings(b, from)[..i])|;
            start < |b| && CString(b, start) == Some(SplitStrings(b, from)[i])
    decreases |b| - from
  {
    hide CString, SplitStrings, JoinStrings;
    SplitEnds(b);
    CStringExists(b, from);
    var s := CString(b, from).value;
    var ss, next := SplitStrings(b, from), from + |s| + 1;
    SplitStep(b, from, s);
    if i == 0 {
      assert ss[..0] == [];
      JoinNothing();
    } else {
      EntryStart(b, next, i - 1);
      assert ss[..i] == [s] + SplitStrings(b, next)[..i - 1];
      JoinStep(s, SplitStrings(b, next)[..i - 1]);
    }
  }

  lemma JoinNothing()
    ensures JoinStrings([]) == []
  {
  }

  lemma JoinStep(s: seq<byte>, ss: seq<seq<byte>>)
    ensures JoinStrings([s] + ss) == s + [0] + JoinStrings(ss)
  {
    assert ([s] + ss)[1..] == ss;
  }

  // --- cells ---------------------------------------------------------------------------------

  /** A big-endian number of 0, 1 or 2 cells, read as the source reads it. */
  function ReadCells(b: seq<byte>, at: nat, cells: nat): nat
    requires cells <= 2 && at + 4 * cells <= |b|
  {
    if cells == 0 then 0
    else if cells == 1 then Flip32(Little(b[at..at + 4]))
    else Flip64(Little(b[at..at + 8]))
  }

  /** The field at offset `skip` of every record of `stride` bytes. */
  function Field(b: seq<byte>, skip: nat, cells: nat, stride: nat): (r: seq<nat>)
    requires cells <= 2 && 0 < stride && skip + 4 * cells <= stride && |b| % stride == 0
    decreases |b|
  {
    if b == [] then []
    else
      Records(|b|, stride);
      [ReadCells(b, skip, cells)] + Field(b[stride..], skip, cells, stride)
  }

  lemma PositiveFactor(q: nat, d: nat)
    requires q * d > 0
    ensures q > 0
  {
  }

  lemma Records(len: nat, stride: nat)
    requires 0 < stride && 0 < len && len % stride == 0
    ensures stride <= len && (len - stride) % stride == 0 && (len - stride) / stride == len / stride - 1
    ensures len / stride > 0
  {
    var q := len / stride;
    MultipleOf(len, stride);
    PositiveFactor(q, stride);
    MulMonotone(1, q, stride);
    MulDistributes(q, 1, stride);
    MultipleMod(q - 1, stride);
  }

  lemma {:induction false} FieldLength(b: seq<byte>, skip: nat, cells: nat, stride: nat)
    requires cells <= 2 && 0 < stride && skip + 4 * cells <= stride && |b| % stride == 0
    ensures |Field(b, skip, cells, stride)| == |b| / stride
    decreases |b|
  {
    if b != [] {
      Records(|b|, stride);
      FieldLength(b[stride..], skip, cells, stride);
    } else {
      DivModUnique(0, stride, 0, 0);
    }
  }

  /** Writing (address, size) pairs back in big-endian order. */
  function EncodePairs(addresses: seq<nat>, sizes: seq<nat>, addressCells: nat, sizeCells: nat): seq<byte>
    requires |addresses| == |sizes|
  {
    if addresses == [] then []
    else
      BigBytes(addresses[0], 4 * addressCells) + BigBytes(sizes[0], 4 * sizeCells)
      + EncodePairs(addresses[1..], sizes[1..], addressCells, sizeCells)
  }

  /** Reading cells inverts writing them. */
  lemma CellsRoundTrip(b: seq<byte>, at: nat, cells: nat)
    requires cells <= 2 && at + 4 * cells <= |b|
    ensures ReadCells(b, at, cells) == Big(b[at..at + 4 * cells])
    ensures BigBytes(ReadCells(b, at, cells), 4 * cells) == b[at..at + 4 * cells]
  {
    hide Flip32, Flip64, Little, Big, BigBytes;
    BigRoundTrip(b[at..at + 4 * cells]);
    if cells == 0 {
      NoBytes(b[at..at]);
    } else if cells == 1 {
      Flip32Load(b[at..at + 4]);
    } else {
      Flip64Load(b[at..at + 8]);
    }
  }

  lemma NoBytes(b: seq<byte>)
    requires b == []
    ensures Big(b) == 0
  {
  }

  /** The reg round trip: decoding and re-encoding gives back the bytes. */
  lemma {:induction false} RegRoundTrip(b: seq<byte>, addressCells: nat, sizeCells: nat)
    requires addressCells <= 2 && sizeCells <= 2 && addressCells + sizeCells > 0
    requires |b| % (4 * addressCells + 4 * sizeCells) == 0
    ensures var stride := 4 * addressCells + 4 * sizeCells;
            var addresses := Field(b, 0, addressCells, stride);
            var sizes := Field(b, 4 * addressCells, sizeCells, stride);
            && |addresses| == |sizes| == |b| / stride
            && EncodePairs(addresses, sizes, addressCells, sizeCells) == b
    decreases |b|
  {
    hide ReadCells, BigBytes, EncodePairs, Field;
    var stride := 4 * addressCells + 4 * sizeCells;
    FieldLength(b, 0, addressCells, stride);
    FieldLength(b, 4 * addressCells, sizeCells, stride);
    if b != [] {
      Records(|b|, stride);
      FieldLength(b[stride..], 0, addressCells, stride);
      FieldLength(b[stride..], 4 * addressCells, sizeCells, stride);
      RegRoundTrip(b[stride..], addressCells, sizeCells);
      FieldStep(b, 0, addressCells, stride);
      FieldStep(b, 4 * addressCells, sizeCells, stride);
      EncodeStep(ReadCells(b, 0, addressCells), Field(b[stride..], 0, addressCells, stride),
                 ReadCells(b, 4 * addressCells, sizeCells), Field(b[stride..], 4 * addressCells, sizeCells, stride),
                 addressCells, sizeCells);
      FirstPair(b, addressCells, sizeCells);
    } else {
      NoPairs(b, addressCells, sizeCells);
    }
  }

  lemma NoPairs(b: seq<byte>, ac: nat, sc: nat)
    requires b == [] && ac <= 2 && sc <= 2 && ac + sc > 0 && 0 % (4 * ac + 4 * sc) == 0
    ensures var stride := 4 * ac + 4 * sc;
            && Field(b, 0, ac, stride) == [] && Field(b, 4 * ac, sc, stride) == []
            && EncodePairs([], [], ac, sc) == b
  {
  }

  lemma FieldStep(b: seq<byte>, skip: nat, cells: nat, stride: nat)
    requires cells <= 2 && 0 < stride && skip + 4 * cells <= stride && |b| % stride == 0 && b != []
    ensures stride <= |b| && (|b| - stride) % stride == 0
    ensures Field(b, skip, cells, stride) == [ReadCells(b, skip, cells)] + Field(b[stride..], skip, cells, stride)
  {
    hide ReadCells;
    Records(|b|, stride);
  }

  lemma EncodeStep(a: nat, addresses: seq<nat>, s: nat, sizes: seq<nat>, ac: nat, sc: nat)
    requires |addresses| == |sizes|
    ensures EncodePairs([a] + addresses, [s] + sizes, ac, sc)
         == BigBytes(a, 4 * ac) + BigBytes(s, 4 * sc) + EncodePairs(addresses, sizes, ac, sc)
  {
    hide BigBytes;
    var as', ss' := [a] + addresses, [s] + sizes;
    assert as'[0] == a && as'[1..] == addresses && ss'[0] == s && ss'[1..] == sizes;
  }

  lemma ThreeParts(b: seq<byte>, i: nat, j: nat)
    requires i <= j <= |b|
    ensures b[0..i] + b[i..j] + b[j..] == b
  {
  }

  lemma FirstPair(b: seq<byte>, ac: nat, sc: nat)
    requires ac <= 2 && sc <= 2 && 4 * ac + 4 * sc <= |b|
    ensures BigBytes(ReadCells(b, 0, ac), 4 * ac) + BigBytes(ReadCells(b, 4 * ac, sc), 4 * sc) + b[4 * ac + 4 * sc..]
        == b
  {
    hide ReadCells, BigBytes;
    CellsRoundTrip(b, 0, ac);
    CellsRoundTrip(b, 4 * ac, sc);
    ThreeParts(b, 4 * ac, 4 * ac + 4 * sc);
  }

  // --- property by property ------------------------------------------------------------------

  function RecordCount(len: nat, stride: nat): nat
    requires stride > 0
  {
    len / stride
  }

  /** The offset of element i of an array. */
  function Times(width: nat, i: nat): nat {
    MulMonotone(0, width, i);
    width * i
  }

  /** Three arrays or two in the arena, one after the other; None if one does not fit. */
  function BumpAll(used: nat, sizes: seq<(nat, nat)>, arena: nat): Option<nat>
    requires arena < MAX_BLOB
    decreases sizes
  {
    if sizes == [] then Some(used)
    else if sizes[0].0 == 0 then BumpAll(used, sizes[1..], arena)
    else if sizes[0].1 >= WORD then None
    else
      match BumpAligned(used, sizes[0].0, sizes[0].1, arena)
      case None => None
      case Some(used') => BumpAll(used', sizes[1..], arena)
  }

  /** A 32-bit number read from the start of a value. */
  function FirstU32(value: Option<seq<byte>>): Option<nat> {
    if value.None? || |value.value| < 4 then None else Some(ReadU32(value.value, 0))
  }

  /** It is the big-endian value of the first four bytes, which writing it gives back; a shorter value has none. */
  lemma FirstU32Meaning(value: Option<seq<byte>>)
    ensures FirstU32(value).Some? <==> value.Some? && |value.value| >= 4
    ensures FirstU32(value).Some? ==>
              FirstU32(value) == Some(Big(value.value[..4])) && FirstU32(value).value < 0x1_0000_0000
    ensures FirstU32(value).Some? ==> BigBytes(FirstU32(value).value, 4) == value.value[..4]
  {
    hide Flip32, Little, Big, BigBytes;
    if value.Some? && |value.value| >= 4 {
      var first := value.value[..4];
      assert value.value[0..0 + 4] == first;
      Flip32Load(first);
      BigRoundTrip(first);
    }
  }

  /** dtb_rewrite_property_compatible */
  function DecodeCompatible(value: Option<seq<byte>>, used: nat, arena: nat): DecodeOutcome
    requires arena < MAX_BLOB
  {
    var b := if value.None? then [] else value.value;
    match BumpAligned(used, 8 * (CountNuls(b) + 1), 8, arena)
    case None => DecodeStops
    case Some(used') => if Terminated(b) then Decoded(Compatible(SplitStrings(b, 0)), used') else DecodeStrays
  }

  /** Whenever a value of strings is decoded, joining the strings gives it back, in blob order. */
  lemma DecodedCompatibleJoins(value: Option<seq<byte>>, used: nat, arena: nat)
    requires arena < MAX_BLOB && DecodeCompatible(value, used, arena).Decoded?
    ensures var d := DecodeCompatible(value, used, arena).data;
            && d.Compatible? && JoinStrings(d.strings) == value.GetOr([])
            && |d.strings| == CountNuls(value.GetOr([]))
            && forall s :: s in d.strings ==> 0 !in s
  {
    hide SplitStrings, CountNuls, BumpAligned, JoinStrings;
    var b := value.GetOr([]);
    SplitJoin(b, 0);
    assert b[0..] == b;
  }

  const OKAY: seq<byte> := [111, 107, 97, 121]
  const DISABLED: seq<byte> := [100, 105, 115, 97, 98, 108, 101, 100]
  const RESERVED: seq<byte> := [114, 101, 115, 101, 114, 118, 101, 100]
  const FAIL: seq<byte> := [102, 97, 105, 108]
  const FAIL_PREFIX: seq<byte> := FAIL + [45]

  /** dtb_rewrite_property_status */
  function DecodeStatus(value: Option<seq<byte>>, used: nat): DecodeOutcome {
    if value.None? then DecodeStrays
    else
      match CString(value.value, 0)
      case None => DecodeStrays
      case Some(s) =>
        if s == OKAY then Decoded(Status(Okay), used)
        else if s == DISABLED then Decoded(Status(Disabled), used)
        else if s == RESERVED then Decoded(Status(Reserved), used)
        else if s == FAIL then Decoded(Status(Fail), used)
        else if FAIL_PREFIX <= s then Decoded(Status(FailReason(s[5..])), used)
        else DecodeStops
  }

  /** dtb_rewrite_property_reg, for up to two address cells */
  function DecodeReg(value: Option<seq<byte>>, ac: nat, sc: nat, used: nat, arena: nat): DecodeOutcome
    requires arena < MAX_BLOB
  {
    var b := if value.None? then [] else value.value;
    var stride := 4 * ac + 4 * sc;
    if stride == 0 then DecodeStrays
    else if |b| / stride == 0 || |b| % stride != 0 || ac > 3 || sc > 2 then DecodeStops
    else
      match BumpAll(used, [(Times(4 * ac, |b| / stride), 4 * ac), (Times(4 * sc, |b| / stride), 4 * sc)], arena)
      case None => DecodeStops
      case Some(used') =>
        if ac > 2 then DecodeStrays
        else
          Decoded(Reg(if ac == 0 then [] else Field(b, 0, ac, stride),
                      if sc == 0 then [] else Field(b, 4 * ac, sc, stride)),
                  used')
  }

  /** dtb_rewrite_property_ranges, for up to two address cells */
  function DecodeRanges(value: Option<seq<byte>>, dma: bool, ac: nat, sc: nat, used: nat, arena: nat): DecodeOutcome
    requires arena < MAX_BLOB
  {
    var b := if value.None? then [] else value.value;
    if ac == 0 || sc == 0 then DecodeStops
    else
      var stride := 8 * ac + 4 * sc;
      var n := RecordCount(|b|, stride);
      match BumpAll(used, [(Times(4 * ac, n), 4 * ac), (Times(4 * ac, n), 4 * ac), (Times(4 * sc, n), 4 * sc)],
          arena)
      case None => DecodeStrays
      case Some(used') =>
        if n == 0 then Decoded(Ranges(dma, [], [], []), used')
        else if sc > 2 then DecodeStops
        else if ac > 2 then DecodeStrays
        else Decoded(RangesOf(b, dma, ac, sc), used')
  }

  function RangesOf(b: seq<byte>, dma: bool, ac: nat, sc: nat): Data
    requires 0 < ac <= 2 && 0 < sc <= 2
  {
    var stride := 8 * ac + 4 * sc;
    WholeRecords(|b|, stride);
    var whole := b[..RecordCount(|b|, stride) * stride];
    Ranges(dma, Field(whole, 0, ac, stride), Field(whole, 4 * ac, ac, stride), Field(whole, 8 * ac, sc, stride))
  }

  lemma WholeRecords(len: nat, stride: nat)
    requires stride > 0
    ensures 0 <= (len / stride) * stride <= len && ((len / stride) * stride) % stride == 0
  {
    RoundDown(len, stride);
  }

  // --- reg, read back --------------------------------------------------------------------------

  lemma NoField(b: seq<byte>, skip: nat, cells: nat, stride: nat)
    requires cells <= 2 && 0 < stride && skip + 4 * cells <= stride && b == []
    ensures 0 % stride == 0 && Field(b, skip, cells, stride) == []
  {
    DivModUnique(0, stride, 0, 0);
  }

  /** The numbers of a column; one without cells counts as zeros. */
  function Column(xs: seq<nat>, cells: nat, n: nat): seq<nat> {
    if cells == 0 then seq(n, _ => 0) else xs
  }

  lemma {:induction false} NoCellsField(b: seq<byte>, skip: nat, stride: nat)
    requires 0 < stride && skip <= stride && |b| % stride == 0
    ensures Field(b, skip, 0, stride) == seq(|b| / stride, _ => 0)
    decreases |b|
  {
    if b == [] {
      NoField(b, skip, 0, stride);
      DivModUnique(0, stride, 0, 0);
    } else {
      Records(|b|, stride);
      FieldStep(b, skip, 0, stride);
      NoCellsField(b[stride..], skip, stride);
    }
  }

  /** The reg round trip: writing the decoded pairs big-endian gives back the value. */
  lemma DecodedRegEncodes(b: seq<byte>, ac: nat, sc: nat, used: nat, arena: nat, n: nat)
    requires arena < MAX_BLOB && DecodeReg(Some(b), ac, sc, used, arena).Decoded?
    requires ac + sc > 0 && n == |b| / (4 * ac + 4 * sc)
    ensures var reg := DecodeReg(Some(b), ac, sc, used, arena).data;
            && reg.Reg? && |Column(reg.addresses, ac, n)| == |Column(reg.sizes, sc, n)| == n
            && EncodePairs(Column(reg.addresses, ac, n), Column(reg.sizes, sc, n), ac, sc) == b
            && (ac == 0 ==> reg.addresses == []) && (sc == 0 ==> reg.sizes == [])
  {
    hide Field, EncodePairs, BumpAll;
    RegRoundTrip(b, ac, sc);
    if ac == 0 {
      NoCellsField(b, 0, 4 * ac + 4 * sc);
    }
    if sc == 0 {
      NoCellsField(b, 4 * ac, 4 * ac + 4 * sc);
    }
  }

  // --- ranges and status, read back ----------------------------------------------------------

  function Triple(c: nat, p: nat, l: nat, ac: nat, sc: nat): seq<byte> {
    BigBytes(c, 4 * ac) + BigBytes(p, 4 * ac) + BigBytes(l, 4 * sc)
  }

  function EncodeTriples(children: seq<nat>, parents: seq<nat>, lengths: seq<nat>, ac: nat, sc: nat): seq<byte>
    requires |children| == |parents| == |lengths|
  {
    if children == [] then []
    else
      Triple(children[0], parents[0], lengths[0], ac, sc)
      + EncodeTriples(children[1..], parents[1..], lengths[1..], ac, sc)
  }

  lemma EncodeTripleStep(
    c: nat, children: seq<nat>, p: nat, parents: seq<nat>, l: nat, lengths: seq<nat>, ac: nat, sc: nat)
    requires |children| == |parents| == |lengths|
    ensures EncodeTriples([c] + children, [p] + parents, [l] + lengths, ac, sc)
         == Triple(c, p, l, ac, sc) + EncodeTriples(children, parents, lengths, ac, sc)
  {
    hide Triple;
    var cs, ps, ls := [c] + children, [p] + parents, [l] + lengths;
    assert cs[0] == c && cs[1..] == children && ps[0] == p && ps[1..] == parents && ls[0] == l && ls[1..] == lengths;
  }

  lemma FourParts(b: seq<byte>, i: nat, j: nat, k: nat)
    requires i <= j <= k <= |b|
    ensures b[0..i] + b[i..j] + b[j..k] + b[k..] == b
  {
  }

  lemma FirstTriple(b: seq<byte>, ac: nat, sc: nat)
    requires ac <= 2 && sc <= 2 && 8 * ac + 4 * sc <= |b|
    ensures Triple(ReadCells(b, 0, ac), ReadCells(b, 4 * ac, ac), ReadCells(b, 8 * ac, sc), ac, sc)
            + b[8 * ac + 4 * sc..] == b
  {
    hide ReadCells, BigBytes;
    CellsRoundTrip(b, 0, ac);
    CellsRoundTrip(b, 4 * ac, ac);
    CellsRoundTrip(b, 8 * ac, sc);
    FourParts(b, 4 * ac, 8 * ac, 8 * ac + 4 * sc);
  }

  /** The same for the triples of ranges and dma-ranges. */
  lemma {:induction false} RangesRoundTrip(b: seq<byte>, ac: nat, sc: nat, stride: nat)
    requires ac <= 2 && sc <= 2 && stride == 8 * ac + 4 * sc > 0 && |b| % stride == 0
    ensures var children, parents, lengths := Field(b, 0, ac, stride), Field(b, 4 * ac, ac, stride),
        Field(b, 8 * ac, sc, stride);
            && |children| == |parents| == |lengths| == |b| / stride
            && EncodeTriples(children, parents, lengths, ac, sc) == b
    decreases |b|
  {
    hide ReadCells, Triple, EncodeTriples, Field;
    FieldLength(b, 0, ac, stride);
    FieldLength(b, 4 * ac, ac, stride);
    FieldLength(b, 8 * ac, sc, stride);
    if b != [] {
      Records(|b|, stride);
      var rest := b[stride..];
      RangesRoundTrip(rest, ac, sc, stride);
      FieldStep(b, 0, ac, stride);
      FieldStep(b, 4 * ac, ac, stride);
      FieldStep(b, 8 * ac, sc, stride);
      EncodeTripleStep(ReadCells(b, 0, ac), Field(rest, 0, ac, stride), ReadCells(b, 4 * ac, ac),
                       Field(rest, 4 * ac, ac, stride), ReadCells(b, 8 * ac, sc), Field(rest, 8 * ac, sc, stride),
                       ac, sc);
      FirstTriple(b, ac, sc);
    } else {
      NoTriples(b, ac, sc, stride);
    }
  }

  lemma NoTriples(b: seq<byte>, ac: nat, sc: nat, stride: nat)
    requires b == [] && ac <= 2 && sc <= 2 && stride == 8 * ac + 4 * sc > 0 && 0 % stride == 0
    ensures Field(b, 0, ac, stride) == [] && Field(b, 4 * ac, ac, stride) == [] && Field(b, 8 * ac, sc, stride) == []
    ensures EncodeTriples([], [], [], ac, sc) == b
  {
  }

  /** When dtb_rewrite_property_ranges gets through. */
  lemma RangesOutcome(value: Option<seq<byte>>, dma: bool, ac: nat, sc: nat, used: nat, arena: nat, stride: nat)
    requires arena < MAX_BLOB && DecodeRanges(value, dma, ac, sc, used, arena).Decoded?
    requires stride == 8 * ac + 4 * sc > 0
    ensures var b, d := value.GetOr([]), DecodeRanges(value, dma, ac, sc, used, arena).data;
            if |b| / stride == 0 then d == Ranges(dma, [], [], [])
            else 0 < ac <= 2 && 0 < sc <= 2 && d == RangesOf(b, dma, ac, sc)
  {
    hide BumpAll, RangesOf;
  }

  /** The whole records of a value. */
  lemma WholePart(b: seq<byte>, stride: nat) returns (whole: seq<byte>)
    requires stride > 0
    ensures 0 <= (|b| / stride) * stride <= |b| && whole == b[..(|b| / stride) * stride]
    ensures |whole| % stride == 0 && |whole| / stride == |b| / stride
  {
    WholeRecords(|b|, stride);
    MultipleMod(|b| / stride, stride);
    whole := b[..(|b| / stride) * stride];
  }

  lemma RangesOfIs(b: seq<byte>, dma: bool, ac: nat, sc: nat, stride: nat, whole: seq<byte>)
    requires 0 < ac <= 2 && 0 < sc <= 2 && stride == 8 * ac + 4 * sc
    requires |whole| % stride == 0 && 0 <= (|b| / stride) * stride <= |b| && whole == b[..(|b| / stride) * stride]
    ensures RangesOf(b, dma, ac, sc)
         == Ranges(dma, Field(whole, 0, ac, stride), Field(whole, 4 * ac, ac, stride), Field(whole, 8 * ac, sc, stride))
  {
    hide Field;
  }

  lemma RangesOfEncode(b: seq<byte>, dma: bool, ac: nat, sc: nat, stride: nat)
    requires 0 < ac <= 2 && 0 < sc <= 2 && stride == 8 * ac + 4 * sc
    ensures 0 <= (|b| / stride) * stride <= |b|
    ensures var d := RangesOf(b, dma, ac, sc);
            && d.Ranges? && d.dma == dma && |d.children| == |d.parents| == |d.lengths| == |b| / stride
            && EncodeTriples(d.children, d.parents, d.lengths, ac, sc) == b[..(|b| / stride) * stride]
  {
    hide Field, EncodeTriples, RangesOf;
    var whole := WholePart(b, stride);
    RangesOfIs(b, dma, ac, sc, stride, whole);
    RangesRoundTrip(whole, ac, sc, stride);
  }

  /** The decoded triples are those of the whole records of the value; a part of a record at its end is
      dropped without an error. */
  lemma DecodedRangesEncode(value: Option<seq<byte>>, dma: bool, ac: nat, sc: nat, used: nat, arena: nat, stride: nat)
    requires arena < MAX_BLOB && DecodeRanges(value, dma, ac, sc, used, arena).Decoded?
    requires stride == 8 * ac + 4 * sc > 0
    ensures 0 <= (|value.GetOr([])| / stride) * stride <= |value.GetOr([])|
    ensures var b, d := value.GetOr([]), DecodeRanges(value, dma, ac, sc, used, arena).data;
            && d.Ranges? && d.dma == dma && |d.children| == |d.parents| == |d.lengths| == |b| / stride
            && EncodeTriples(d.children, d.parents, d.lengths, ac, sc) == b[..(|b| / stride) * stride]
  {
    hide DecodeRanges, RangesOf, EncodeTriples;
    var b := value.GetOr([]);
    WholeRecords(|b|, stride);
    RangesOutcome(value, dma, ac, sc, used, arena, stride);
    if |b| / stride > 0 {
      RangesOfEncode(b, dma, ac, sc, stride);
    } else {
      EmptyTriples(ac, sc);
    }
  }

  lemma EmptyTriples(ac: nat, sc: nat)
    ensures EncodeTriples([], [], [], ac, sc) == []
  {
  }

  /** The text of a status value. */
  function StatusText(v: StatusValue): seq<byte> {
    match v
    case Okay => Ascii("okay")
    case Disabled => Ascii("disabled")
    case Reserved => Ascii("reserved")
    case Fail => Ascii("fail")
    case FailReason(reason) => Ascii("fail-") + reason
  }

  lemma StatusTexts()
    ensures Ascii("okay") == OKAY && Ascii("disabled") == DISABLED && Ascii("reserved") == RESERVED
    ensures Ascii("fail") == FAIL && Ascii("fail-") == FAIL_PREFIX
  {
  }

  /** A status is decoded to v exactly when its text is that of v; the texts of different values differ. */
  lemma StatusMeaning(b: seq<byte>, v: StatusValue, used: nat)
    ensures DecodeStatus(Some(b), used) == Decoded(Status(v), used) <==> CString(b, 0) == Some(StatusText(v))
  {
    hide CString, Ascii;
    StatusTexts();
    var s := CString(b, 0);
    if s.Some? && FAIL_PREFIX <= s.value {
      assert s.value == FAIL_PREFIX + s.value[5..];
      assert s.value[4] == 45;
    }
    if v.FailReason? {
      assert StatusText(v)[4] == 45 && StatusText(v)[5..] == v.reason;
      assert FAIL_PREFIX <= StatusText(v);
    }
  }

  const COMPATIBLE: seq<byte> := [99, 111, 109, 112, 97, 116, 105, 98, 108, 101]
  const MODEL: seq<byte> := [109, 111, 100, 101, 108]
  const PHANDLE: seq<byte> := [112, 104, 97, 110, 100, 108, 101]
  const LINUX_PHANDLE: seq<byte> := [108, 105, 110, 117, 120, 44] + PHANDLE
  const STATUS: seq<byte> := [115, 116, 97, 116, 117, 115]
  const ADDRESS_CELLS: seq<byte> := [35, 97, 100, 100, 114, 101, 115, 115, 45, 99, 101, 108, 108, 115]
  const SIZE_CELLS: seq<byte> := [35, 115, 105, 122, 101, 45, 99, 101, 108, 108, 115]
  const DMA_COHERENT: seq<byte> := [100, 109, 97, 45, 99, 111, 104, 101, 114, 101, 110, 116]
  const DMA_NONCOHERENT: seq<byte> := [100, 109, 97, 45, 110, 111, 110, 99, 111, 104, 101, 114, 101, 110, 116]
  const DEVICE_TYPE: seq<byte> := [100, 101, 118, 105, 99, 101, 95, 116, 121, 112, 101]
  const REG: seq<byte> := [114, 101, 103]
  const RANGES: seq<byte> := [114, 97, 110, 103, 101, 115]
  const DMA_RANGES: seq<byte> := [100, 109, 97, 45] + RANGES

  /** The names whose values are read over their whole length. A value whose copy did not fit is NULL. */
  predicate ReadsAll(name: seq<byte>) {
    name == COMPATIBLE || name == REG || name == RANGES || name == DMA_RANGES
  }

  /** One turn of the property loop of dtb_recursive_property_rewrite, by the property's name. */
  function Decode(name: seq<byte>, raw: Data, ac: nat, sc: nat, used: nat, arena: nat): DecodeOutcome
    requires raw.Raw? && arena < MAX_BLOB
  {
    var value := raw.value;
    if value.None? && raw.len > 0 && ReadsAll(name) then DecodeStrays
    else if name == COMPATIBLE then DecodeCompatible(value, used, arena)
    else if name == MODEL then Decoded(Text(true, value), used)
    else if name == PHANDLE || name == LINUX_PHANDLE then
      (match FirstU32(value) case None => DecodeStrays case Some(h) => Decoded(Phandle(h), used))
    else if name == STATUS then DecodeStatus(value, used)
    else if name == ADDRESS_CELLS then
      (match FirstU32(value)
       case None => DecodeStrays
       case Some(n) => if n > 3 then AddressCellsTooLarge else Decoded(AddressCells(n), used))
    else if name == SIZE_CELLS then
      (match FirstU32(value)
       case None => DecodeStrays
       case Some(n) => if n > 2 then SizeCellsTooLarge else Decoded(SizeCells(n), used))
    else if name == DMA_COHERENT then Decoded(DmaCoherence(true), used)
    else if name == DMA_NONCOHERENT then Decoded(DmaCoherence(false), used)
    else if name == DEVICE_TYPE then Decoded(Text(false, value), used)
    else if name == REG then DecodeReg(value, ac, sc, used, arena)
    else if name == RANGES then DecodeRanges(value, false, ac, sc, used, arena)
    else if name == DMA_RANGES then DecodeRanges(value, true, ac, sc, used, arena)
    else Decoded(raw, used)
  }
}
