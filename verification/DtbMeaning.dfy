/** What a decoded property holds (src/octiron/devices/device_tree/device_tree.c:260-493), told from its name and
    its value alone.
  */
module DtbMeaning {
  import opened Endian
  import opened Extents
  import opened DtbModel
  import opened DtbLayout
  import opened DtbDecode

  /** A 32-bit number whose big-endian bytes are the first four of the value. */
  ghost predicate StartsWithNumber(value: seq<byte>, n: nat) {
    |value| >= 4 && n < 0x1_0000_0000 && BigBytes(n, 4) == value[..4]
  }

  lemma NumberIs(value: seq<byte>, n: nat)
    requires StartsWithNumber(value, n)
    ensures n == Big(value[..4])
  {
    hide BigBytes, Big;
    BytePowers();
    BytesRoundTrip(n, 4);
  }

  /** Pairs that, written big-endian under the cell sizes, are the value; a column without cells is empty. */
  ghost predicate HoldsPairs(value: seq<byte>, ac: nat, sc: nat, d: Data) {
    && 0 < ac + sc && ac <= 2 && sc <= 2 && value != [] && d.Reg?
    && var n := |value| / (4 * ac + 4 * sc);
       && |Column(d.addresses, ac, n)| == |Column(d.sizes, sc, n)| == n
       && EncodePairs(Column(d.addresses, ac, n), Column(d.sizes, sc, n), ac, sc) == value
       && (ac == 0 ==> d.addresses == []) && (sc == 0 ==> d.sizes == [])
  }

  /** Triples that, written big-endian under the cell sizes, are the whole records of the value. */
  ghost predicate HoldsTriples(value: seq<byte>, dma: bool, ac: nat, sc: nat, d: Data) {
    && ac > 0 && sc > 0 && d.Ranges? && d.dma == dma
    && var n := |value| / (8 * ac + 4 * sc);
       && |d.children| == |d.parents| == |d.lengths| == n
       && var whole := EncodeTriples(d.children, d.parents, d.lengths, ac, sc);
          |whole| <= |value| < |whole| + 8 * ac + 4 * sc && whole == value[..|whole|]
  }

  /** What the property of a name holds, for its value and the cell sizes of its node. */
  ghost predicate PropertyHolds(name: seq<byte>, value: seq<byte>, ac: nat, sc: nat, d: Data) {
    var text := if value == [] then None else Some(value);
    if name == Ascii("compatible") then
      d.Compatible? && JoinStrings(d.strings) == value && forall s :: s in d.strings ==> 0 !in s
    else if name == Ascii("model") then d == Text(true, text)
    else if name == Ascii("device_type") then d == Text(false, text)
    else if name == Ascii("phandle") || name == Ascii("linux,phandle") then
      d.Phandle? && StartsWithNumber(value, d.handle)
    else if name == Ascii("status") then
      d.Status? && 0 !in StatusText(d.status) && StatusText(d.status) + [0] <= value
    else if name == Ascii("#address-cells") then
      d.AddressCells? && StartsWithNumber(value, d.addressCells) && d.addressCells <= 3
    else if name == Ascii("#size-cells") then
      d.SizeCells? && StartsWithNumber(value, d.sizeCells) && d.sizeCells <= 2
    else if name == Ascii("dma-coherent") then d == DmaCoherence(true)
    else if name == Ascii("dma-noncoherent") then d == DmaCoherence(false)
    else if name == Ascii("reg") then HoldsPairs(value, ac, sc, d)
    else if name == Ascii("ranges") then HoldsTriples(value, false, ac, sc, d)
    else if name == Ascii("dma-ranges") then HoldsTriples(value, true, ac, sc, d)
    else d == Raw(text, |value|)
  }

  lemma Names()
    ensures Ascii("compatible") == COMPATIBLE && Ascii("model") == MODEL && Ascii("device_type") == DEVICE_TYPE
    ensures Ascii("phandle") == PHANDLE && Ascii("linux,phandle") == LINUX_PHANDLE && Ascii("status") == STATUS
    ensures Ascii("#address-cells") == ADDRESS_CELLS && Ascii("#size-cells") == SIZE_CELLS
    ensures Ascii("dma-coherent") == DMA_COHERENT && Ascii("dma-noncoherent") == DMA_NONCOHERENT
    ensures Ascii("reg") == REG && Ascii("ranges") == RANGES && Ascii("dma-ranges") == DMA_RANGES
  {
    hide Ascii;
    TextNames();
    NumberNames();
    DmaNames();
    ArrayNames();
  }

  lemma TextNames()
    ensures Ascii("compatible") == COMPATIBLE && Ascii("model") == MODEL && Ascii("device_type") == DEVICE_TYPE
    ensures Ascii("status") == STATUS
  {
  }

  lemma NumberNames()
    ensures Ascii("phandle") == PHANDLE && Ascii("linux,phandle") == LINUX_PHANDLE
    ensures Ascii("#address-cells") == ADDRESS_CELLS && Ascii("#size-cells") == SIZE_CELLS
  {
  }

  lemma DmaNames()
    ensures Ascii("dma-coherent") == DMA_COHERENT && Ascii("dma-noncoherent") == DMA_NONCOHERENT
  {
  }

  lemma ArrayNames()
    ensures Ascii("reg") == REG && Ascii("ranges") == RANGES && Ascii("dma-ranges") == DMA_RANGES
  {
  }

  /** Whenever the pass decodes a property, it holds what its name says. */
  lemma DecodedHolds(name: seq<byte>, value: seq<byte>, ac: nat, sc: nat, used: nat, arena: nat)
    requires arena < MAX_BLOB && Decode(name, RawOf(value), ac, sc, used, arena).Decoded?
    ensures PropertyHolds(name, value, ac, sc, Decode(name, RawOf(value), ac, sc, used, arena).data)
  {
    hide Ascii, DecodeCompatible, DecodeStatus, DecodeReg, DecodeRanges, FirstU32, HoldsPairs, HoldsTriples, BigBytes,
         JoinStrings, StatusText;
    Names();
    var raw := RawOf(value).value;
    FirstU32Meaning(raw);
    assert raw.GetOr([]) == value;
    if name == COMPATIBLE {
      DecodedCompatibleJoins(raw, used, arena);
    } else if name == STATUS {
      StatusHolds(value, used);
    } else if name == REG {
      PairsHold(value, ac, sc, used, arena);
    } else if name == RANGES {
      TriplesHold(value, false, ac, sc, used, arena);
    } else if name == DMA_RANGES {
      TriplesHold(value, true, ac, sc, used, arena);
    }
  }

  lemma StatusHolds(value: seq<byte>, used: nat)
    requires DecodeStatus(RawOf(value).value, used).Decoded?
    ensures var d := DecodeStatus(RawOf(value).value, used).data;
            d.Status? && 0 !in StatusText(d.status) && StatusText(d.status) + [0] <= value
  {
    hide CString, StatusText;
    var d := DecodeStatus(RawOf(value).value, used).data;
    StatusMeaning(value, d.status, used);
    var s := CString(value, 0).value;
    assert value[..|s|] == s && value[|s|] == 0;
    assert s + [0] == value[..|s| + 1];
  }

  lemma PairsHold(value: seq<byte>, ac: nat, sc: nat, used: nat, arena: nat)
    requires arena < MAX_BLOB && DecodeReg(RawOf(value).value, ac, sc, used, arena).Decoded?
    ensures HoldsPairs(value, ac, sc, DecodeReg(RawOf(value).value, ac, sc, used, arena).data)
  {
    hide EncodePairs, Field, Column, BumpAll;
    RegGetsThrough(value, ac, sc, used, arena);
    DecodedRegEncodes(value, ac, sc, used, arena, |value| / (4 * ac + 4 * sc));
  }

  lemma RegGetsThrough(value: seq<byte>, ac: nat, sc: nat, used: nat, arena: nat)
    requires arena < MAX_BLOB && DecodeReg(RawOf(value).value, ac, sc, used, arena).Decoded?
    ensures 0 < ac + sc && ac <= 2 && sc <= 2 && value != []
  {
    hide Field, BumpAll;
  }

  lemma TriplesHold(value: seq<byte>, dma: bool, ac: nat, sc: nat, used: nat, arena: nat)
    requires arena < MAX_BLOB && DecodeRanges(RawOf(value).value, dma, ac, sc, used, arena).Decoded?
    ensures HoldsTriples(value, dma, ac, sc, DecodeRanges(RawOf(value).value, dma, ac, sc, used, arena).data)
  {
    hide EncodeTriples, RangesOf, BumpAll;
    var raw, stride := RawOf(value).value, 8 * ac + 4 * sc;
    assert ac > 0 && sc > 0;
    assert raw.GetOr([]) == value;
    DecodedRangesEncode(raw, dma, ac, sc, used, arena, stride);
    RoundDownHere(|value|, stride);
  }

  lemma RoundDownHere(len: nat, stride: nat)
    requires stride > 0
    ensures (len / stride) * stride <= len < (len / stride) * stride + stride
  {
  }

  /** A value whose copy did not fit the arena is NULL, and reading it over its length strays. */
  lemma NullStrays(name: seq<byte>, len: nat, ac: nat, sc: nat, used: nat, arena: nat)
    requires arena < MAX_BLOB && len > 0
    requires name in [Ascii("compatible"), Ascii("reg"), Ascii("ranges"), Ascii("dma-ranges"), Ascii("status")]
    ensures Decode(name, Raw(None, len), ac, sc, used, arena) == DecodeStrays
  {
    hide Ascii, DecodeReg, DecodeRanges, DecodeCompatible;
    Names();
  }

  /** The pass ends with an error exactly at a cell size that is too large. */
  lemma CellsTooLargeIff(name: seq<byte>, value: seq<byte>, ac: nat, sc: nat, used: nat, arena: nat)
    requires arena < MAX_BLOB
    ensures Decode(name, RawOf(value), ac, sc, used, arena) == AddressCellsTooLarge <==>
              name == Ascii("#address-cells") && |value| >= 4 && Big(value[..4]) > 3
    ensures Decode(name, RawOf(value), ac, sc, used, arena) == SizeCellsTooLarge <==>
              name == Ascii("#size-cells") && |value| >= 4 && Big(value[..4]) > 2
  {
    hide Ascii, FirstU32, Big, BigBytes, Field, BumpAll, RangesOf, CString, SplitStrings, CountNuls;
    Names();
    FirstU32Meaning(RawOf(value).value);
  }
}
