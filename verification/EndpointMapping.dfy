/** `val_pgt_create`: the geometry of lines 480-507 and what one mapping call makes the hardware
    walk translate. */
module EndpointMapping {
  import opened Arith
  import opened PageTable
  import opened PageTableBuilder

  const IAS := 40
  const INPUT_SPACE := 0x100_0000_0000
  const OUTPUT_SPACE := 0x100_0000_0000
  const STAGE1_AP_RW: Attributes := 0x40
  const STAGE2_AP_RW: Attributes := 0xC0

  datatype Region = Region(va: nat, pa: nat, length: nat, attr: Attributes)

  // ---------------------------------------------------------------- geometry

  predicate IsGranule(g: Granule) {
    g in {GRANULE_4K, GRANULE_16K, GRANULE_64K}
  }

  lemma SizeIs(g: Granule)
    ensures Size(g, 3) == g.page && Size(g, 2) == g.entries * g.page
    ensures Size(g, 1) == g.entries * (g.entries * g.page)
    ensures Size(g, 0) == g.entries * (g.entries * (g.entries * g.page))
  {
    TimesIs(g.entries, Size(g, 3));
    TimesIs(g.entries, Size(g, 2));
    TimesIs(g.entries, Size(g, 1));
  }

  lemma Pow2Product(a: nat, b: nat)
    ensures Pow2(a + b) == Pow2(a) * Pow2(b)
  {
    Pow2Sum(a, b);
    TimesIs(Pow2(a), Pow2(b));
  }

  lemma Pow2Values()
    ensures Pow2(1) == 2 && Pow2(4) == 16 && Pow2(9) == 512 && Pow2(11) == 2048 && Pow2(13) == 8192
    ensures Pow2(12) == 4096 && Pow2(14) == 16384 && Pow2(16) == 65536
    ensures Pow2(29) == 0x2000_0000 && Pow2(36) == 0x10_0000_0000 && Pow2(39) == 0x80_0000_0000
    ensures Pow2(40) == 0x100_0000_0000
  {
    assert Pow2(1) == 2 && Pow2(2) == 4 && Pow2(3) == 8 && Pow2(4) == 16;
    Pow2Product(4, 4);
    Pow2Product(8, 1);
    Pow2Product(9, 2);
    Pow2Product(9, 3);
    Pow2Product(11, 2);
    Pow2Product(11, 3);
    Pow2Product(8, 8);
    Pow2Product(13, 16);
    Pow2Product(16, 16);
    Pow2Product(32, 4);
    Pow2Product(36, 3);
    Pow2Product(39, 1);
  }

  // ilog2: the position of the lowest set bit, 0 for 0.
  method Ilog2(size: nat) returns (bit: nat)
    ensures size > 0 ==> Rem(size, Pow2(bit)) == 0 && Rem(size, Pow2(bit + 1)) != 0
    ensures size == 0 ==> bit == 0
  {
    bit := 0;
    var rest := size;
    TimesIs(size, 1);
    while rest != 0
      invariant size == Times(rest, Pow2(bit))
      invariant rest == 0 ==> size == 0
      decreases rest
    {
      Halve(rest, bit);
      if rest % 2 == 1 {
        LowestBit(size, rest, bit);
        return;
      }
      rest, bit := rest / 2, bit + 1;
    }
    bit := 0;
  }

  lemma Halve(rest: nat, bit: nat)
    ensures Times(rest, Pow2(bit)) == Times(rest / 2, Pow2(bit + 1)) + if rest % 2 == 1 then Pow2(bit) else 0
  {
    TimesIs(rest / 2, 2);
    TimesAssoc(rest / 2, 2, Pow2(bit));
    assert Times(2, Pow2(bit)) == Times(1, Pow2(bit)) + Pow2(bit) == Pow2(bit + 1);
  }

  lemma LowestBit(size: nat, rest: nat, bit: nat)
    requires size == Times(rest, Pow2(bit)) && rest % 2 == 1
    ensures Rem(size, Pow2(bit)) == 0 && Rem(size, Pow2(bit + 1)) != 0
  {
    RemTimes(rest, Pow2(bit));
    Halve(rest, bit);
    QuotUnique(size, Pow2(bit + 1), rest / 2);
  }

  // The lowest set bit of a power of two is the power itself.
  lemma Ilog2OfPow2(k: nat, bit: nat)
    requires Rem(Pow2(k), Pow2(bit)) == 0 && Rem(Pow2(k), Pow2(bit + 1)) != 0
    ensures bit == k
  {
    if bit < k {
      Pow2Sum(k - bit - 1, bit + 1);
      RemTimes(Pow2(k - bit - 1), Pow2(bit + 1));
    }
    if k < bit { Pow2Less(k, bit); }
  }

  function PageBits(g: Granule): nat {
    if g == GRANULE_4K then 12 else if g == GRANULE_16K then 14 else 16
  }

  // Lines 482-507 for a 40-bit input address.
  function Levels(pageBits: nat, bits: nat): int
    requires bits > 0
  {
    (IAS - pageBits + bits - 1) / bits
  }

  // log2 of the span of one root descriptor.
  function RootBits(g: Granule): nat {
    if g == GRANULE_4K then 39 else if g == GRANULE_16K then 36 else 29
  }

  // What lines 480-507 compute.
  lemma ComputedGeometry(g: Granule)
    requires IsGranule(g)
    ensures var bits := PageBits(g) - 3; var n := Levels(PageBits(g), bits);
            4 - n == g.start && (n - 1) * bits + PageBits(g) == RootBits(g)
  {
  }

  lemma PagePowers(g: Granule)
    requires IsGranule(g)
    ensures Pow2(PageBits(g)) == g.page && Pow2(PageBits(g) - 3) == g.entries
  {
    Pow2Values();
  }

  lemma RootPowers(g: Granule)
    requires IsGranule(g)
    ensures Pow2(RootBits(g)) == Size(g, g.start) && Pow2(IAS - RootBits(g)) <= g.entries
    ensures Times(Pow2(IAS - RootBits(g)), Size(g, g.start)) == INPUT_SPACE
  {
    hide Times, Size;
    Pow2Values();
    SizeIs(g);
    TimesIs(Pow2(IAS - RootBits(g)), Size(g, g.start));
  }

  lemma WalkGeometry(g: Granule)
    requires IsGranule(g)
    ensures Pow2(PageBits(g)) == g.page && Pow2(PageBits(g) - 3) == g.entries
    ensures Pow2(RootBits(g)) == Size(g, g.start) && Pow2(IAS - RootBits(g)) <= g.entries
    ensures Times(Pow2(IAS - RootBits(g)), Size(g, g.start)) == INPUT_SPACE <= TableSize(g, g.start)
    ensures g.start >= 1 ==> INPUT_SPACE <= Size(g, 0)
    ensures g.start == 0 ==> INPUT_SPACE == 2 * Size(g, 0)
  {
    hide Times, Size;
    PagePowers(g);
    RootPowers(g);
    SizeIs(g);
    TimesIs(g.entries, Size(g, g.start));
  }

  // The error returns of lines 104-110, 121-125 and 133-137 are never taken in a call for a 40-bit range.
  lemma GuardsPass(g: Granule, bits: nat, d: TtDesc, cur: nat)
    requires IsGranule(g) && Geometry(g, bits, d) && cur < INPUT_SPACE
    ensures d.sizeLog2 < 64 && 0 < d.nbits <= bits < 64
    ensures cur - Rem(cur, Pow2(d.sizeLog2)) + Pow2(d.sizeLog2) <= 0x1_0000_0000_0000_0000
    ensures Rem(Quot(cur, Pow2(d.sizeLog2)), Pow2(d.nbits)) < g.entries
  {
    hide Rem, Quot, Times, Size, Pow2;
    Pow2Values();
    SizeBound(g, d.level);
    if d.sizeLog2 > 42 { Pow2Less(42, d.sizeLog2); }
    if bits > 16 { Pow2Less(16, bits); }
    if d.nbits > bits { Pow2Less(bits, d.nbits); }
  }

  lemma SizeBound(g: Granule, level: nat)
    requires IsGranule(g) && g.start <= level <= 3
    ensures Size(g, level) <= Pow2(42) == 0x400_0000_0000
  {
    hide Size, Pow2;
    SizeIs(g);
    Pow2Values();
    assert Pow2(42) == 0x400_0000_0000 by { assert Pow2(2) == 4 by { Pow2Two(); } Pow2Product(40, 2); }
  }

  lemma Pow2Two()
    ensures Pow2(2) == 4
  {
  }

  // ---------------------------------------------------------------- translation from the root

  // Walks below level 0 do not see multiples of the level-0 span.
  lemma {:induction false} WalkPeriod(g: Granule, m: Mem, t: nat, level: nat, off: nat, c: nat)
    requires 1 <= level <= 3 && Rem(off, Size(g, 0)) == 0
    ensures Walk(g, m, t, level, off + c) == Walk(g, m, t, level, c)
    decreases 3 - level
  {
    hide Rem, Quot, Times, Size, Index;
    Reduced(g, level, off, c);
    var i := Index(g, level, c);
    if t < |m| && i < |m[t]| && m[t][i].Table? && level < 3 {
      WalkPeriod(g, m, m[t][i].id, level + 1, off, c);
    }
  }

  ghost function HomeWalk(g: Granule, m: Mem, c: nat): Outcome {
    Walk(g, m, Home(g), HomeTag(g).level, c)
  }

  // The root has a table descriptor for x.
  ghost predicate Enters(g: Granule, m: Mem, x: nat) {
    g.start == 0 ==> ROOT < |m| && Index(g, 0, x) < |m[ROOT]| && m[ROOT][Index(g, 0, x)] == Table(L1_TABLE)
  }

  lemma TranslateVia(g: Granule, m: Mem, tags: Tags, off: nat, c: nat)
    requires RootOk(g, m, tags) && Rem(off, Size(g, 0)) == 0
    ensures Translate(g, m, off + c) == if Enters(g, m, off + c) then HomeWalk(g, m, c) else Fault
  {
    hide Rem, Quot, Times, Size, Index, Walk;
    WalkPeriod(g, m, Home(g), HomeTag(g).level, off, c);
  }

  function Half(g: Granule, x: nat): nat {
    Quot(x, Size(g, 0))
  }

  function HalfBase(g: Granule, x: nat): nat {
    x - Rem(x, Size(g, 0))
  }

  // Every 40-bit address of a half has the same root descriptor, and no other.
  lemma RootIndex(g: Granule, x: nat)
    requires IsGranule(g) && x < INPUT_SPACE
    ensures Rem(HalfBase(g, x), Size(g, 0)) == 0
    ensures g.start == 0 ==> Index(g, 0, x) == Half(g, x) < 2
    ensures g.start >= 1 ==> HalfBase(g, x) == 0 && Half(g, x) == 0
    ensures x == Times(Half(g, x), Size(g, 0)) + Rem(x, Size(g, 0)) && HalfBase(g, x) == Times(Half(g, x), Size(g, 0))
  {
    WalkGeometry(g);
    RemFloor(x, Size(g, 0));
    QuotRem(x, Size(g, 0));
    if g.start == 0 {
      TimesIs(2, Size(g, 0));
      QuotBelow(x, 2, Size(g, 0));
    }
  }

  // ---------------------------------------------------------------- one mapping call

  // The checks of lines 460-471 and 492-497.
  predicate Rejected(g: Granule, stage: nat, r: Region) {
    || Rem(r.va, g.page) != 0 || Rem(r.pa, g.page) != 0
    || r.pa >= OUTPUT_SPACE || stage !in {1, 2}
  }

  // Virtual addresses are truncated to the input size (lines 473-478, 500).
  function Base(r: Region): nat {
    Rem(r.va, INPUT_SPACE)
  }

  function Top(r: Region): int {
    Base(r) + r.length - 1
  }

  // End of what is really mapped.
  function End(g: Granule, r: Region): nat {
    MappedEnd(Top(r), g.page)
  }

  function Attr(stage: nat, r: Region): Attributes {
    r.attr | if stage == 1 then STAGE1_AP_RW else STAGE2_AP_RW
  }

  // The region lies inside the input address size and inside one level-0 descriptor, and is not
  // the empty region at address 0.
  predicate Inside(g: Granule, r: Region) {
    && Base(r) + r.length <= INPUT_SPACE && Rem(Base(r), Size(g, 0)) + r.length <= Size(g, 0)
    && (r.length > 0 || Base(r) > 0)
  }

  // The region contains the whole range of a root descriptor, which the block test of lines
  // 163-165 accepts although the architecture has no blocks at that level.
  predicate NeedsRootBlock(g: Granule, r: Region) {
    IllegalBlock(g, Desc(r, g.start, 0, 0))
  }

  predicate Legal(g: Granule, r: Region) {
    Inside(g, r) && !NeedsRootBlock(g, r)
  }

  // At most root descriptor h leads anywhere, and no block stands in the root.
  ghost predicate OneHalf(g: Granule, m: Mem, h: nat) {
    g.start == 0 && ROOT < |m| ==>
      forall k | 0 <= k < |m[ROOT]| :: m[ROOT][k] == Invalid || (k == h && m[ROOT][k] == Table(L1_TABLE))
  }

  // No mapping is left in tt_l1_base while no root descriptor leads to it.
  ghost predicate RootFresh(g: Granule, m: Mem) {
    g.start == 0 && ROOT < |m| && (forall k | 0 <= k < |m[ROOT]| :: m[ROOT][k] == Invalid) ==> Zeroed(m, L1_TABLE)
  }

  ghost predicate Ready(b: Builder)
    reads b, b.tt
  {
    b.Valid() && IsGranule(b.g) && RootFresh(b.g, b.Memory())
  }

  ghost predicate MapsRange(g: Granule, m: Mem, lo: nat, hi: nat, pa: nat, attr: Attributes) {
    forall x: nat | lo <= x < hi :: Translates(Translate(g, m, x), pa + (x - lo), attr)
  }

  ghost predicate KeepsOthers(g: Granule, m: Mem, m': Mem, lo: nat, hi: nat) {
    forall x: nat | x < INPUT_SPACE && !(lo <= x < hi) :: Kept(Translate(g, m, x), Translate(g, m', x), x, lo, hi)
  }

  ghost predicate MapsExactly(g: Granule, m: Mem, m': Mem, lo: nat, hi: nat, pa: nat, attr: Attributes) {
    MapsRange(g, m', lo, hi, pa, attr) && KeepsOthers(g, m, m', lo, hi)
  }

  function Desc(r: Region, level: nat, sizeLog2: nat, nbits: nat): TtDesc {
    TtDesc(ROOT, Base(r), Top(r), r.pa, level, sizeLog2, nbits)
  }

  // The call of line 510.
  function RootDesc(g: Granule, r: Region): TtDesc {
    Desc(r, g.start, RootBits(g), IAS - RootBits(g))
  }

  ghost predicate RootReady(g: Granule, tags: Tags, r: Region) {
    && Inputs(g, tags, RootDesc(g, r), HalfBase(g, Base(r))) && Geometry(g, PageBits(g) - 3, RootDesc(g, r))
    && (IllegalBlock(g, RootDesc(g, r)) <==> NeedsRootBlock(g, r))
  }

  // What the walk below the root makes of a call, in addresses reduced to one level-0 descriptor.
  ghost predicate HomeDone(g: Granule, m: Mem, m': Mem, r: Region, attr: Attributes) {
    var off := HalfBase(g, Base(r));
    Done(g, m, m', Home(g), HomeTag(g), Base(r) - off, MappedEnd(Top(r) - off, g.page), r.pa, attr)
  }

  lemma CreateReady(g: Granule, m: Mem, tags: Tags, r: Region)
    requires IsGranule(g) && Tree(g, m, tags) && RootOk(g, m, tags) && Inside(g, r)
    requires Rem(r.va, g.page) == 0 && Rem(r.pa, g.page) == 0
    ensures RootReady(g, tags, r)
  {
    hide Times, Quot, Size, RoundUp, Rem;
    WalkGeometry(g);
    RootIndex(g, Base(r));
    BaseAligned(g, r);
  }

  lemma InputPages(g: Granule)
    requires IsGranule(g)
    ensures Rem(INPUT_SPACE, g.page) == 0
  {
    QuotRemIs(INPUT_SPACE, g.page);
  }

  lemma BaseAligned(g: Granule, r: Region)
    requires IsGranule(g) && Rem(r.va, g.page) == 0
    ensures Rem(Base(r), g.page) == 0
  {
    InputPages(g);
    RemFloor(r.va, INPUT_SPACE);
    MultipleOfMultiple(r.va - Base(r), INPUT_SPACE, g.page);
    AddMultiple(r.va - Base(r), Base(r), g.page);
  }

  lemma {:induction false} WalkSpan(g: Granule, m: Mem, t: nat, level: nat, y: nat)
    requires 1 <= level <= 3
    ensures var o := Walk(g, m, t, level, y);
            o.Mapped? ==> o.span == Size(g, 1) || o.span == Size(g, 2) || o.span == Size(g, 3)
    decreases 3 - level
  {
    hide Rem, Quot, Times, Size, Index;
    var i := Index(g, level, y);
    if t < |m| && i < |m[t]| && m[t][i].Table? && level < 3 { WalkSpan(g, m, m[t][i].id, level + 1, y); }
  }

  lemma KeptShift(g: Granule, m: Mem, after: Outcome, off: nat, c: nat, lo: nat, hi: nat)
    requires Rem(off, Size(g, 0)) == 0 && Kept(HomeWalk(g, m, c), after, c, lo, hi)
    ensures Kept(HomeWalk(g, m, c), after, off + c, off + lo, off + hi)
  {
    hide Rem, Quot, Times, Size, Index, Walk;
    WalkSpan(g, m, Home(g), HomeTag(g).level, c);
    Reduced(g, 1, off, c);
    Reduced(g, 2, off, c);
    Reduced(g, 3, off, c);
  }

  lemma EndShift(g: Granule, off: nat, top: int)
    requires Rem(off, Size(g, 0)) == 0 && off <= top + 1 && 0 <= top
    ensures MappedEnd(top, g.page) == off + MappedEnd(top - off, g.page)
  {
    hide Times, Quot, Size, Rem;
    ReducedPage(g, off, 0);
    if top >= off {
      ReducedPage(g, off, top - off);
    } else {
      RoundUpUnique(top, off, g.page);
    }
  }

  // Everything one successful call establishes for a region, from the memories before and after.
  ghost predicate CallDone(g: Granule, m: Mem, m': Mem, d: TtDesc, off: nat, attr: Attributes)
    requires off <= d.inputBase
  {
    && Filled(g, HomeTag(g), m, m', d, off, attr) && (g.start == 0) == (d.level == 0)
    && (g.start >= 1 ==> d.table == ROOT)
    && (g.start == 0 ==> ROOT < |m| && ROOT < |m'| && Index(g, 0, d.inputBase) < |m[ROOT]| && m'[ROOT] == RootAfter(g, m, d))
  }

  lemma RoundUpBelow(x: nat, u: nat, p: nat)
    requires p > 0 && x < u && Rem(u, p) == 0
    ensures RoundUp(x, p) <= u
  {
    RoundUpMultiple(x, p);
    if RoundUp(x, p) > u { MultiplesApart(u, RoundUp(x, p), p); }
  }

  lemma SameHalf(g: Granule, base: nat, x: nat)
    requires HalfBase(g, base) <= x < HalfBase(g, base) + Size(g, 0)
    ensures Half(g, x) == Half(g, base) && HalfBase(g, x) == HalfBase(g, base)
    ensures Index(g, 0, x) == Index(g, 0, base)
  {
    hide Size;
    var s, c := Size(g, 0), x - HalfBase(g, base);
    QuotRem(base, s);
    AddTimes(Quot(base, s), s, c);
  }

  // The mapped range stays inside one half and inside the home table.
  lemma RangeInHalf(g: Granule, d: TtDesc)
    requires IsGranule(g) && d.inputBase <= d.inputTop + 1 && 0 <= d.inputTop < INPUT_SPACE && d.inputBase < INPUT_SPACE
    requires d.inputTop - HalfBase(g, d.inputBase) < Size(g, 0)
    ensures var off := HalfBase(g, d.inputBase);
            && MappedEnd(d.inputTop, g.page) == off + MappedEnd(d.inputTop - off, g.page)
            && MappedEnd(d.inputTop - off, g.page) <= Size(g, 0)
            && MappedEnd(d.inputTop - off, g.page) <= TableSize(g, HomeTag(g).level)
            && MappedEnd(d.inputTop, g.page) <= INPUT_SPACE
  {
    hide Rem, Quot, Times;
    var off := HalfBase(g, d.inputBase);
    RootIndex(g, d.inputBase);
    EndShift(g, off, d.inputTop);
    WalkGeometry(g);
    SizePages(g, 0);
    InputPages(g);
    if d.inputTop >= off { RoundUpBelow(d.inputTop - off, Size(g, 0), g.page); }
    RoundUpBelow(d.inputTop, INPUT_SPACE, g.page);
  }

  ghost predicate CallInputs(g: Granule, d: TtDesc) {
    && IsGranule(g) && d.inputBase <= d.inputTop + 1 && 0 <= d.inputTop < INPUT_SPACE && d.inputBase < INPUT_SPACE
    && Rem(d.inputBase, g.page) == 0 && d.inputTop - HalfBase(g, d.inputBase) < Size(g, 0)
  }

  lemma CallRange(g: Granule, m: Mem, m': Mem, tags': Tags, d: TtDesc, attr: Attributes, x: nat)
    requires CallInputs(g, d) && RootOk(g, m', tags') && d.inputBase <= x < MappedEnd(d.inputTop, g.page)
    requires CallDone(g, m, m', d, HalfBase(g, d.inputBase), attr)
    ensures Translates(Translate(g, m', x), d.outputBase + (x - d.inputBase), attr)
  {
    hide Rem, Quot, Times, Walk, Size, Index;
    var off := HalfBase(g, d.inputBase);
    RootIndex(g, d.inputBase);
    RangeInHalf(g, d);
    SameHalf(g, d.inputBase, x);
    TranslateVia(g, m', tags', off, x - off);
    assert InRegion(g, HomeTag(g), x - off);
    if d.inputTop <= d.inputBase { NothingMapped(g, d, 0); }
  }

  lemma CallOthers(g: Granule, m: Mem, tags: Tags, m': Mem, tags': Tags, d: TtDesc, attr: Attributes, x: nat)
    requires CallInputs(g, d) && Tree(g, m, tags) && RootOk(g, m, tags) && RootOk(g, m', tags')
    requires CallDone(g, m, m', d, HalfBase(g, d.inputBase), attr)
    requires RootFresh(g, m) && OneHalf(g, m, Half(g, d.inputBase))
    requires x < INPUT_SPACE && !(d.inputBase <= x < MappedEnd(d.inputTop, g.page))
    ensures Kept(Translate(g, m, x), Translate(g, m', x), x, d.inputBase, MappedEnd(d.inputTop, g.page))
  {
    hide Rem, Quot, Times, Walk, Size, Index, MappedEnd, Filled;
    RootIndex(g, d.inputBase);
    RootIndex(g, x);
    var c := x - HalfBase(g, x);
    TranslateVia(g, m, tags, HalfBase(g, x), c);
    TranslateVia(g, m', tags', HalfBase(g, x), c);
    if Half(g, x) == Half(g, d.inputBase) {
      CallSameHalf(g, m, m', d, attr, x);
      if !Enters(g, m, x) { ZeroedWalk(g, m, L1_TABLE, 1, c); }
    }
  }

  lemma CallSameHalf(g: Granule, m: Mem, m': Mem, d: TtDesc, attr: Attributes, x: nat)
    requires CallInputs(g, d) && CallDone(g, m, m', d, HalfBase(g, d.inputBase), attr)
    requires x < INPUT_SPACE && !(d.inputBase <= x < MappedEnd(d.inputTop, g.page)) && Half(g, x) == Half(g, d.inputBase)
    ensures var c := x - HalfBase(g, x);
            Kept(HomeWalk(g, m, c), HomeWalk(g, m', c), x, d.inputBase, MappedEnd(d.inputTop, g.page))
  {
    hide Rem, Quot, Times, Walk, Size, Index, MappedEnd;
    var off := HalfBase(g, d.inputBase);
    RootIndex(g, d.inputBase);
    RootIndex(g, x);
    RangeInHalf(g, d);
    HomeRegion(g, x);
    KeptShift(g, m, HomeWalk(g, m', x - off), off, x - off, d.inputBase - off, MappedEnd(d.inputTop - off, g.page));
  }

  lemma HomeRegion(g: Granule, x: nat)
    requires IsGranule(g) && x < INPUT_SPACE
    ensures InRegion(g, HomeTag(g), x - HalfBase(g, x))
  {
    WalkGeometry(g);
  }

  lemma CallMaps(g: Granule, m: Mem, tags: Tags, m': Mem, tags': Tags, d: TtDesc, attr: Attributes)
    requires CallInputs(g, d) && Tree(g, m, tags) && RootOk(g, m, tags) && RootOk(g, m', tags')
    requires CallDone(g, m, m', d, HalfBase(g, d.inputBase), attr) && RootFresh(g, m)
    ensures MapsRange(g, m', d.inputBase, MappedEnd(d.inputTop, g.page), d.outputBase, attr)
    ensures OneHalf(g, m, Half(g, d.inputBase)) ==>
              KeepsOthers(g, m, m', d.inputBase, MappedEnd(d.inputTop, g.page)) && OneHalf(g, m', Half(g, d.inputBase))
  {
    hide Rem, Quot, Times, Walk, Size, Index, MappedEnd, CallDone;
    forall x: nat | d.inputBase <= x < MappedEnd(d.inputTop, g.page)
      ensures Translates(Translate(g, m', x), d.outputBase + (x - d.inputBase), attr)
    {
      CallRange(g, m, m', tags', d, attr, x);
    }
    if OneHalf(g, m, Half(g, d.inputBase)) {
      forall x: nat | x < INPUT_SPACE && !(d.inputBase <= x < MappedEnd(d.inputTop, g.page))
        ensures Kept(Translate(g, m, x), Translate(g, m', x), x, d.inputBase, MappedEnd(d.inputTop, g.page))
      {
        CallOthers(g, m, tags, m', tags', d, attr, x);
      }
      CallHalf(g, m, m', d, attr);
    }
  }

  lemma CallHalf(g: Granule, m: Mem, m': Mem, d: TtDesc, attr: Attributes)
    requires IsGranule(g) && d.inputBase < INPUT_SPACE && CallDone(g, m, m', d, HalfBase(g, d.inputBase), attr)
    requires OneHalf(g, m, Half(g, d.inputBase))
    ensures OneHalf(g, m', Half(g, d.inputBase))
  {
    RootIndex(g, d.inputBase);
  }

  // The outcome of a call for region r, from what Fill promises.
  lemma CreateDone(g: Granule, m: Mem, tags: Tags, u2: seq<bool>, u3: seq<bool>,
                   m': Mem, tags': Tags, v2: seq<bool>, v3: seq<bool>, r: Region, d: TtDesc, attr: Attributes)
    requires IsGranule(g) && State(g, m, tags, u2, u3) && State(g, m', tags', v2, v3) && RootFresh(g, m)
    requires Inside(g, r) && d == Desc(r, g.start, d.sizeLog2, d.nbits) && Inputs(g, tags, d, HalfBase(g, Base(r)))
    requires Filled(g, UnderTag(g, tags, d), m, m', d, HalfBase(g, Base(r)), attr)
    requires d.level == 0 ==> m'[ROOT] == RootAfter(g, m, d)
    ensures MapsRange(g, m', Base(r), End(g, r), r.pa, attr) && HomeDone(g, m, m', r, attr)
    ensures OneHalf(g, m, Half(g, Base(r))) ==>
              KeepsOthers(g, m, m', Base(r), End(g, r)) && OneHalf(g, m', Half(g, Base(r)))
  {
    hide Rem, Quot, Times, Walk, Size, Index, IllegalBlock, Done, MapsRange, KeepsOthers, OneHalf, PoolFree;
    CallMaps(g, m, tags, m', tags', d, attr);
  }

  // A block left in the root is translated by no walk, so its range is not mapped.
  lemma BlockFaults(g: Granule, m: Mem, r: Region, d: TtDesc, attr: Attributes)
    requires d == Desc(r, g.start, d.sizeLog2, d.nbits) && IllegalBlock(g, d) && Blocked(g, m, d, d.inputTop + 1)
    ensures !MapsRange(g, m, Base(r), End(g, r), r.pa, attr)
    ensures g.start == 0 ==> RootFresh(g, m)
  {
    hide Rem, Quot, Times, Size, Base, RoundUp, Index;
    var star := FirstBoundary(g, d);
    BoundaryInside(g, d);
    RoundUpMultiple(d.inputTop, g.page);
    assert Translate(g, m, star) == Fault;
  }

  lemma RootStaysFresh(g: Granule, m: Mem, m': Mem, d: TtDesc)
    requires RootFresh(g, m) && d.level == g.start && Shaped(g, m) && |m'| == |m| > ROOT
    requires d.level == 0 ==> m'[ROOT] == RootAfter(g, m, d)
    requires d.inputTop <= d.inputBase ==> m' == m
    ensures RootFresh(g, m')
  {
    if g.start == 0 && d.inputBase < d.inputTop {
      assert m'[ROOT][Index(g, 0, d.inputBase)] == Table(L1_TABLE);
    }
  }

  lemma FreshBelow(g: Granule, m: Mem)
    requires g.start >= 1
    ensures RootFresh(g, m)
  {
  }

  // Lines 480-516, after the checks.
  method CreateTables(b: Builder, r: Region, attr: Attributes) returns (ok: bool)
    requires Ready(b) && Inside(b.g, r) && Rem(r.va, b.g.page) == 0 && Rem(r.pa, b.g.page) == 0
    modifies b, b.tt
    ensures Ready(b)
    ensures ok ==> (MapsRange(b.g, b.Memory(), Base(r), End(b.g, r), r.pa, attr) <==> !NeedsRootBlock(b.g, r))
    ensures b.g.start == 0 && NeedsRootBlock(b.g, r) ==> ok
    ensures ok && !NeedsRootBlock(b.g, r) ==> HomeDone(b.g, old(b.Memory()), b.Memory(), r, attr)
    ensures ok && !NeedsRootBlock(b.g, r) && OneHalf(b.g, old(b.Memory()), Half(b.g, Base(r))) ==>
              && KeepsOthers(b.g, old(b.Memory()), b.Memory(), Base(r), End(b.g, r))
              && OneHalf(b.g, b.Memory(), Half(b.g, Base(r)))
    ensures b.g.start == 0 && r.length > 1 && !NeedsRootBlock(b.g, r) ==>
              b.Memory()[ROOT] == old(b.Memory())[ROOT][Index(b.g, 0, Base(r)) := Table(L1_TABLE)]
    ensures Base(r) == r.pa ==>
              Count(b.l2Used) <= Count(old(b.l2Used)) + 2 && Count(b.l3Used) <= Count(old(b.l3Used)) + 2
    ensures !ok ==> PoolFull(b.l2Used, b.l3Used)
    ensures !ok && Base(r) == r.pa ==>
              Count(old(b.l2Used)) + 2 > L2_POOL || Count(old(b.l3Used)) + 2 > L3_POOL
  {
    hide Rem, Quot, Times, Walk, Size, Index, Pow2, IllegalBlock, NeedsRootBlock, Inputs, Geometry, Done, Count, Need,
      MapsRange, KeepsOthers, OneHalf, RootFresh, PoolFree, Linked, Extends, Blocked, HomeDone,
      PoolFull;
    ghost var m, tags := b.Memory(), b.tags;
    var pageBits := Ilog2(b.g.page);
    WalkGeometry(b.g);
    Ilog2OfPow2(PageBits(b.g), pageBits);
    b.bitsPerLevel := pageBits - 3;
    var levels := Levels(pageBits, b.bitsPerLevel);
    ComputedGeometry(b.g);
    CreateReady(b.g, m, tags, r);
    var sizeLog2 := (levels - 1) * b.bitsPerLevel + pageBits;
    var d := TtDesc(ROOT, Base(r), Top(r), r.pa, 4 - levels, sizeLog2, IAS - sizeLog2);
    ok := b.Fill(d, attr, HalfBase(b.g, Base(r)));
    if !IllegalBlock(b.g, d) {
      RootStaysFresh(b.g, m, b.Memory(), d);
      if ok { CreateDone(b.g, m, tags, old(b.l2Used), old(b.l3Used), b.Memory(), b.tags, b.l2Used, b.l3Used, r, d, attr); }
    } else {
      if ok { BlockFaults(b.g, b.Memory(), r, d, attr); }
      if b.g.start >= 1 { FreshBelow(b.g, b.Memory()); }
    }
  }

  // The mapped range covers every byte asked for unless the length is one more than a multiple
  // of the page: the loop test of line 117 then skips the last byte's page.
  lemma WholeRegionMapped(g: Granule, r: Region)
    requires Rem(Base(r), g.page) == 0 && r.length > 0
    ensures End(g, r) >= Base(r) + r.length <==> Rem(r.length, g.page) != 1
    ensures Rem(r.length, g.page) == 0 ==> End(g, r) == Base(r) + r.length
  {
    hide Base;
    var n := r.length - 1;
    AddMultiple(Base(r), n, g.page);
    QuotRem(n, g.page);
    SuccRem(n, g.page);
  }

  lemma SuccRem(n: nat, p: nat)
    requires p > 1
    ensures Rem(n + 1, p) == if Rem(n, p) == p - 1 then 0 else Rem(n, p) + 1
  {
    RemFloor(n, p);
    AddMultiple(n - Rem(n, p), Rem(n, p) + 1, p);
    RemSelf(p);
  }

  // ---------------------------------------------------------------- what the caller gets

  // Every address from va on translates to its place from pa on; of the attribute bits, those in
  // `forced` are set and all others are as asked for.
  ghost predicate MappedAs(g: Granule, m: Mem, va: nat, length: nat, pa: nat, attr: Attributes, forced: Attributes) {
    forall x: nat | va <= x < va + length ::
      var o := Translate(g, m, x);
      o.Mapped? && o.pa == pa + (x - va) && o.attr & !forced == attr & !forced && o.attr & forced == forced
  }

  // The bytes of a region that are mapped: all, unless the last one is alone in its page.
  function WholeBytes(g: Granule, r: Region): nat {
    if Rem(r.length, g.page) == 1 then r.length - 1 else r.length
  }

  // Stage 1 sets AP[0], stage 2 both S2AP bits; so a stage-1 mapping is read-only (bit 7) exactly as asked for.
  lemma ForcedBits(stage: nat, r: Region)
    requires stage == 1 || stage == 2
    ensures var forced := if stage == 1 then 0x40 else 0xC0;
            Attr(stage, r) & !forced == r.attr & !forced && Attr(stage, r) & forced == forced
    ensures stage == 1 ==> Attr(stage, r) & 0x80 == r.attr & 0x80
  {
  }

  lemma PlainlyMapped(g: Granule, m: Mem, stage: nat, r: Region)
    requires Rem(r.va, g.page) == 0 && r.va + r.length <= 0x100_0000_0000 && (stage == 1 || stage == 2)
    requires MapsRange(g, m, Base(r), End(g, r), r.pa, Attr(stage, r))
    ensures MappedAs(g, m, r.va, WholeBytes(g, r), r.pa, r.attr, if stage == 1 then 0x40 else 0xC0)
  {
    hide Rem, Quot, Times, Translate, Attr, MappedEnd;
    if r.length > 0 {
      BaseIs(r);
      ForcedBits(stage, r);
      WholeEnd(g, r);
    }
  }

  lemma BaseIs(r: Region)
    requires r.va < 0x100_0000_0000
    ensures Base(r) == r.va
  {
    QuotUnique(r.va, INPUT_SPACE, 0);
  }

  lemma WholeEnd(g: Granule, r: Region)
    requires Rem(Base(r), g.page) == 0 && r.length > 0
    ensures Base(r) + WholeBytes(g, r) <= End(g, r)
    ensures Rem(r.length, g.page) == 0 ==> End(g, r) == Base(r) + r.length
  {
    hide Rem, Quot, Times, Base, RoundUp;
    WholeRegionMapped(g, r);
    if Rem(r.length, g.page) == 1 { RoundUpMultiple(Top(r), g.page); }
  }

  // val_pgt_create
  method PgtCreate(b: Builder, stage: nat, r: Region) returns (ok: bool)
    requires Ready(b) && (Rejected(b.g, stage, r) || Inside(b.g, r))
    modifies b, b.tt
    ensures Ready(b) && (Rejected(b.g, stage, r) ==> !ok)
    ensures Rem(r.va, b.g.page) != 0 || Rem(r.pa, b.g.page) != 0 || r.pa >= 0x100_0000_0000 || (stage != 1 && stage != 2) ==>
              !ok && b.Memory() == old(b.Memory()) && b.l2Used == old(b.l2Used) && b.l3Used == old(b.l3Used)
    ensures ok ==>
              (MapsRange(b.g, b.Memory(), Base(r), End(b.g, r), r.pa, Attr(stage, r)) <==> !NeedsRootBlock(b.g, r))
    ensures ok && !NeedsRootBlock(b.g, r) && r.va + r.length <= 0x100_0000_0000 ==>
              MappedAs(b.g, b.Memory(), r.va, WholeBytes(b.g, r), r.pa, r.attr, if stage == 1 then 0x40 else 0xC0)
    ensures !Rejected(b.g, stage, r) && b.g.start == 0 && NeedsRootBlock(b.g, r) ==> ok
    ensures ok && !NeedsRootBlock(b.g, r) ==> HomeDone(b.g, old(b.Memory()), b.Memory(), r, Attr(stage, r))
    ensures ok && !NeedsRootBlock(b.g, r) && OneHalf(b.g, old(b.Memory()), Half(b.g, Base(r))) ==>
              && KeepsOthers(b.g, old(b.Memory()), b.Memory(), Base(r), End(b.g, r))
              && OneHalf(b.g, b.Memory(), Half(b.g, Base(r)))
    ensures !Rejected(b.g, stage, r) && !NeedsRootBlock(b.g, r) && b.g.start == 0 && r.length > 1 ==>
              b.Memory()[ROOT] == old(b.Memory())[ROOT][Index(b.g, 0, Base(r)) := Table(L1_TABLE)]
    ensures Base(r) == r.pa ==>
              Count(b.l2Used) <= Count(old(b.l2Used)) + 2 && Count(b.l3Used) <= Count(old(b.l3Used)) + 2
    ensures !ok && !Rejected(b.g, stage, r) ==> PoolFull(b.l2Used, b.l3Used)
    ensures !ok && Base(r) == r.pa && !Rejected(b.g, stage, r) ==>
              Count(old(b.l2Used)) + 2 > L2_POOL || Count(old(b.l3Used)) + 2 > L3_POOL
  {
    hide Rem, Quot, Times, Walk, Size, Index, NeedsRootBlock, HomeDone, Count, MappedAs, WholeBytes, MapsRange, KeepsOthers, OneHalf, State, RootFresh;
    if Rem(r.va, b.g.page) != 0 || Rem(r.pa, b.g.page) != 0 { return false; }
    if r.pa >= OUTPUT_SPACE { return false; }
    if stage !in {1, 2} { return false; }
    ok := CreateTables(b, r, Attr(stage, r));
    if ok && !NeedsRootBlock(b.g, r) && r.va + r.length <= 0x100_0000_0000 { PlainlyMapped(b.g, b.Memory(), stage, r); }
  }
}
