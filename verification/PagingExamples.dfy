/** Two short runs from boot that go wrong: a page-aligned address that translates to the wrong frame
    (src/octiron/paging.c:183), and an empty blob whose page stays mapped
    (src/octiron/devices/device_tree/device_tree.c:721-724, 834).
  */
module PagingExamples {
  import opened Words
  import opened Extents
  import opened Ptes
  import opened Sv39Spec
  import opened PmmSpec
  import opened PagingSpec
  import opened RangeSpec
  import opened Boot

  /** The kernel with four pages of memory and nothing mapped. */
  lemma SmallKernel(root: nat, base: u64, size: u64) returns (k: Kernel)
    requires root == 0x10_0000 && base == 0x1_0000 && size == 0x4000
    ensures var op := PmmOp(AddRegion(base, size));
            KAdmissible(AtBoot(64, root), root, op) && k == KStep(AtBoot(64, root), op)
    ensures KInv(k, root, 64) && k.dict == map[] && k.tables == map[Root := root]
    ensures k.w.s.free == 0x4000 && k.w.s.nodes == 63
  {
    hide KInv, Trimmed, Reaches, Add;
    k := KStep(AtBoot(64, root), PmmOp(AddRegion(base, size)));
    TrimsNothing(base, size);
    BootedInv(64, root);
    NoneReaches(base, size);
    KStepKeeps(AtBoot(64, root), root, 64, PmmOp(AddRegion(base, size)));
  }

  lemma NoneReaches(base: u64, size: u64)
    requires base == 0x1_0000 && size == 0x4000
    ensures !Reaches([], Add(base, size)) && Add(base, size) == 0x1_4000 && Add(0, size) == 0x4000
  {
  }

  /** One page of the small kernel can be mapped anywhere below 2^56. */
  lemma SmallMap(k: Kernel, root: nat, va: u64, pa: u64)
    requires KInv(k, root, 64) && k.dict == map[] && k.w.s.free == 0x4000 && k.w.s.nodes == 63
    requires Aligned(va) && Aligned(pa) && pa < LIMIT
    ensures FlagsOk(READ) && MapStep(k, va, pa, READ).1 == Mapped
    ensures MapStep(k, va, pa, READ).0.dict == map[VpnOf(va) := Mapping(pa, READ)]
  {
    hide KInv, MapStep, VpnOf, Accounted;
    ReadIsOk();
    MapSucceedsIff(k, root, 64, va, pa, READ);
    MapKeeps(k, root, 64, va, pa, READ);
  }

  /** Page 1 mapped to frame 2: its first byte is answered with frame 3. */
  lemma WrongFrame(root: nat, base: u64, size: u64, va: u64, pa: u64)
    requires root == 0x10_0000 && base == 0x1_0000 && size == 0x4000 && va == 0x1000 && pa == 0x2000
    ensures var ops := [PmmOp(AddRegion(base, size)), MapOp(va, pa, READ)];
            var dict := KRun(AtBoot(64, root), ops).dict;
            && KAdmissibleRun(AtBoot(64, root), root, ops)
            && VpnOf(va) in dict && dict[VpnOf(va)].frame == 0x2000
            && Translate(dict, va) == Some(0x3000)
  {
    hide KInv, MapStep, VpnOf, KStep, KAdmissible, Answer;
    var k := SmallKernel(root, base, size);
    SmallMap(k, root, va, pa);
    AnswerMeaning(pa, va);
    TwoSteps(AtBoot(64, root), root, PmmOp(AddRegion(base, size)), MapOp(va, pa, READ));
    MapIsStep(k, root, va, pa);
  }

  lemma OneStep(k: Kernel, root: nat, a: KOp)
    ensures KRun(k, [a]) == KStep(k, a)
    ensures KAdmissibleRun(k, root, [a]) <==> KAdmissible(k, root, a)
  {
    hide KStep, KAdmissible;
    assert [a][1..] == [];
  }

  lemma TwoSteps(k: Kernel, root: nat, a: KOp, b: KOp)
    ensures KRun(k, [a, b]) == KStep(KStep(k, a), b)
    ensures KAdmissibleRun(k, root, [a, b]) <==> KAdmissible(k, root, a) && KAdmissible(KStep(k, a), root, b)
  {
    hide KStep, KAdmissible;
    OneStep(KStep(k, a), root, b);
    assert [a, b][0] == a && [a, b][1..] == [b];
  }

  lemma MapIsStep(k: Kernel, root: nat, va: u64, pa: u64)
    requires pa < LIMIT && FlagsOk(READ)
    ensures KStep(k, MapOp(va, pa, READ)) == MapStep(k, va, pa, READ).0 && KAdmissible(k, root, MapOp(va, pa, READ))
  {
    hide MapStep;
  }

  /** An empty blob at 0x5000: its page was not mapped before, and still is after the unmapping loop. */
  lemma BlobLeavesPage(root: nat, base: u64, size: u64, blob: u64)
    requires root == 0x10_0000 && base == 0x1_0000 && size == 0x4000 && blob == 0x5000
    ensures var k := KStep(AtBoot(64, root), PmmOp(AddRegion(base, size)));
            var (k1, out) := BlobMapped(k, blob, MAGIC, 0);
            var (k2, ok) := UnmapPages(k1, AlignDown(blob, PAGE), blob);
            && KInv(k, root, 64) && out == BlobReady && ok
            && Translate(k.dict, blob) == None && Translate(k2.dict, blob) == Some(blob)
  {
    hide KInv, MapStep, VpnOf, KStep, Answer, AlignDown;
    var k := SmallKernel(root, base, size);
    SmallMap(k, root, blob, blob);
    BlobAligned(blob);
    AnswerIdentity(blob);
    NoMore(MapStep(k, blob, blob, READ).0, blob + PAGE, blob);
  }

  lemma BlobAligned(blob: u64)
    requires blob == 0x5000
    ensures AlignDown(blob, PAGE) == blob
  {
    hide AlignDown;
    BlobBase(blob);
    SameMultiple(AlignDown(blob, PAGE), blob);
  }
}
