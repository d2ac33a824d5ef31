/** The page-table builder of val/src/val_memory.c: `fill_translation_table` over a fixed set of
    statically allocated tables. */
module PageTableBuilder {
  import opened Arith
  import opened PageTable

  const L2_POOL := 12
  const L3_POOL := 24

  // Table numbers: the root (tt_l0_base), tt_l1_base, tt_l2_base_1.., tt_l3_base_1..
  const ROOT := 0
  const L1_TABLE := 1
  const L2_FIRST := 2
  const L3_FIRST := 14
  const TABLES := 38

  // The table under which all mapping below level 0 happens.
  function Home(g: Granule): nat {
    if g.start == 0 then L1_TABLE else ROOT
  }

  function HomeTag(g: Granule): Tag {
    Tag(if g.start == 0 then 1 else g.start, 0)
  }

  // Unused pool tables are untagged and zero.
  ghost predicate PoolFree(m: Mem, tags: Tags, used: seq<bool>, first: nat) {
    forall k | 0 <= k < |used| && !used[k] :: first + k !in tags && Zeroed(m, first + k)
  }

  ghost predicate RootOk(g: Granule, m: Mem, tags: Tags) {
    && ROOT < |m|
    && Home(g) in tags && tags[Home(g)] == HomeTag(g)
    && (g.start == 0 ==>
          ROOT !in tags && forall h | 0 <= h < |m[ROOT]| ::
            m[ROOT][h] in {Invalid, Table(L1_TABLE)} || m[ROOT][h].Block?)
  }

  ghost predicate State(g: Granule, m: Mem, tags: Tags, l2Used: seq<bool>, l3Used: seq<bool>) {
    && |m| == TABLES && |l2Used| == L2_POOL && |l3Used| == L3_POOL
    && Tree(g, m, tags) && RootOk(g, m, tags)
    && PoolFree(m, tags, l2Used, L2_FIRST) && PoolFree(m, tags, l3Used, L3_FIRST)
  }

  // The full hardware walk of a 40-bit address.
  function Translate(g: Granule, m: Mem, va: nat): (r: Outcome) {
    if g.start != 0 then Walk(g, m, ROOT, g.start, va)
    else if ROOT >= |m| || Index(g, 0, va) >= |m[ROOT]| then Fault
    else match m[ROOT][Index(g, 0, va)]
      case Table(id) => Walk(g, m, id, 1, va)
      case _ => Fault
  }

  // ---------------------------------------------------------------- address arithmetic

  lemma {:induction false} SizeDivides(g: Granule, level: nat)
    requires 1 <= level <= 3
    ensures Rem(Size(g, 0), TableSize(g, level)) == 0
  {
    if level == 1 {
      RemTimes(1, Size(g, 0));
    } else {
      SizeDivides(g, level - 1);
      RemTimes(g.entries, Size(g, level - 1));
      MultipleOfMultiple(Size(g, 0), TableSize(g, level - 1), TableSize(g, level));
    }
  }

  // Below level 0, adding a multiple of the level-0 span changes neither offset nor index.
  lemma Reduced(g: Granule, level: nat, off: nat, c: nat)
    requires 1 <= level <= 3 && Rem(off, Size(g, 0)) == 0
    ensures Rem(off + c, Size(g, level)) == Rem(c, Size(g, level))
    ensures Index(g, level, off + c) == Index(g, level, c)
  {
    var u := TableSize(g, level);
    SizeDivides(g, level);
    MultipleOfMultiple(off, Size(g, 0), u);
    QuotRem(off, u);
    DigitPeriod(Quot(off, u), g.entries, Size(g, level), c);
  }

  lemma ReducedPage(g: Granule, off: nat, c: nat)
    requires Rem(off, Size(g, 0)) == 0
    ensures Rem(off + c, g.page) == Rem(c, g.page)
  {
    Reduced(g, 3, off, c);
  }

  // The index expression of line 131 is the walk's index field.
  lemma IndexField(g: Granule, level: nat, x: nat, width: nat)
    requires level <= 3 && width > 0
    requires width == g.entries || (width <= g.entries && x < Times(width, Size(g, level)))
    ensures Rem(Quot(x, Size(g, level)), width) == Index(g, level, x)
  {
    if width < g.entries { QuotBelow(x, width, Size(g, level)); }
  }

  lemma {:induction false} SizePages(g: Granule, level: nat)
    requires level <= 3
    ensures Rem(Size(g, level), g.page) == 0
    decreases 3 - level
  {
    if level == 3 {
      RemTimes(1, g.page);
    } else {
      SizePages(g, level + 1);
      RemTimes(g.entries, Size(g, level + 1));
      MultipleOfMultiple(Size(g, level), Size(g, level + 1), g.page);
    }
  }

  // First reduced address of the descriptor that covers c.
  function EntryBase(g: Granule, level: nat, c: nat): (r: nat)
    requires level <= 3
  {
    c - Rem(c, Size(g, level))
  }

  function Min(a: int, b: int): int {
    if a < b then a else b
  }

  // Last reduced address of the chunk that starts at c (lines 119-129).
  function ChunkTop(g: Granule, level: nat, c: nat, top: int): (r: int)
    requires level <= 3
  {
    Min(top, EntryBase(g, level, c) + Size(g, level) - 1)
  }

  // End of what a range with inclusive top really maps: pages whose start lies below top.
  function MappedEnd(top: int, page: nat): (r: nat)
    requires page > 0
  {
    if top < 0 then 0 else RoundUp(top, page)
  }

  lemma EntryOf(g: Granule, tag: Tag, c: nat)
    requires Aligned(g, tag) && InRegion(g, tag, c)
    ensures InEntry(g, tag, Index(g, tag.level, c), c)
    ensures EntryBase(g, tag.level, c) == EntryStart(g, tag, Index(g, tag.level, c))
  {
    IndexInEntry(g, tag, c);
  }

  // How far one chunk really maps: page granularity, and never past its descriptor.
  lemma ChunkEnd(g: Granule, level: nat, c: nat, top: int)
    requires level <= 3 && Rem(c, g.page) == 0 && c < top
    ensures var ct := ChunkTop(g, level, c, top); var end := EntryBase(g, level, c) + Size(g, level);
            && c < MappedEnd(ct, g.page) <= end && c < ct
            && (ct < top ==> ct + 1 == end == MappedEnd(ct, g.page))
            && (ct == end - 1 ==> end == MappedEnd(ct, g.page))
            && Rem(end, Size(g, level)) == 0 && Rem(end, g.page) == 0
            && (level == 3 ==> c == EntryBase(g, level, c) && MappedEnd(ct, g.page) == end)
  {
    var p, s := g.page, Size(g, level);
    var ct, end := ChunkTop(g, level, c, top), EntryBase(g, level, c) + s;
    RemFloor(c, s);
    RemTimes(1, s);
    AddMultiple(c - Rem(c, s), s, s);
    SizePages(g, level);
    MultipleOfMultiple(end, s, p);
    MultiplesApart(c, end, p);
    RoundUpMultiple(ct, p);
    var r := RoundUp(ct, p);
    MultiplesApart(c, r, p);
    if r > end { MultiplesApart(end, r, p); }
    if r < end { MultiplesApart(r, end, p); }
  }

  lemma {:induction false} Pow2Less(a: nat, b: nat)
    requires a < b
    ensures Pow2(a) < Pow2(b)
  {
    if a + 1 < b { Pow2Less(a, b - 1); }
  }

  // Line 404: the next level's size, by logarithms.
  lemma NextSize(sizeLog2: nat, bits: nat, n: nat, s: nat)
    requires n > 0 && s > 0 && Pow2(bits) == n && Pow2(sizeLog2) == Times(n, s)
    ensures bits <= sizeLog2 && Pow2(sizeLog2 - bits) == s
  {
    TimesLarge(n, s);
    if sizeLog2 < bits { Pow2Less(sizeLog2, bits); }
    Pow2Sum(bits, sizeLog2 - bits);
    TimesCancel(n, Pow2(sizeLog2 - bits), s);
  }

  lemma {:induction false} TimesLarge(n: nat, s: nat)
    requires s > 0
    ensures Times(n, s) >= n
  {
    if n > 0 { TimesLarge(n - 1, s); }
  }

  lemma {:induction false} TimesGrows(n: nat, x: nat, y: nat)
    requires n > 0 && x < y
    ensures Times(n, x) < Times(n, y)
  {
    if n > 1 { TimesGrows(n - 1, x, y); }
  }

  lemma TimesCancel(n: nat, x: nat, y: nat)
    requires n > 0 && Times(n, x) == Times(n, y)
    ensures x == y
  {
    if x < y { TimesGrows(n, x, y); }
    if y < x { TimesGrows(n, y, x); }
  }

  datatype TtDesc = TtDesc(table: nat, inputBase: nat, inputTop: int, outputBase: nat,
                           level: nat, sizeLog2: nat, nbits: nat)

  ghost predicate Geometry(g: Granule, bits: nat, d: TtDesc) {
    && g.start <= d.level <= 3 && Pow2(bits) == g.entries && 0 < bits && 0 < d.nbits
    && Pow2(d.sizeLog2) == Size(g, d.level)
    && (d.nbits == bits || (Pow2(d.nbits) <= g.entries && d.inputTop < Times(Pow2(d.nbits), Size(g, d.level))))
  }

  // Line 163 would pick a block descriptor at a level where the architecture has none.
  predicate IllegalBlock(g: Granule, d: TtDesc)
    requires d.level <= 3
  {
    && d.level < g.minBlock
    && Rem(d.inputBase, Size(g, d.level)) == Rem(d.outputBase, Size(g, d.level))
    && FirstBoundary(g, d) + Size(g, d.level) - 1 <= d.inputTop
  }

  // The first descriptor boundary of a range.
  function FirstBoundary(g: Granule, d: TtDesc): (r: nat)
    requires d.level <= 3
    ensures r >= d.inputBase
  {
    RoundUpMultiple(d.inputBase, Size(g, d.level));
    RoundUp(d.inputBase, Size(g, d.level))
  }

  // Lines 163-165 and 171-177: the chunk at cur is written as one block descriptor.
  predicate BlockTest(g: Granule, d: TtDesc, cur: nat, out: nat)
    requires d.level <= 3
  {
    && d.level < 3 && Rem(cur, Size(g, d.level)) == 0 && Rem(out, Size(g, d.level)) == 0
    && d.inputTop >= cur + Size(g, d.level) - 1
  }

  // ... and no walk accepts it.
  predicate WrongBlock(g: Granule, d: TtDesc, cur: nat, out: nat)
    requires d.level <= 3
  {
    d.level < g.minBlock && BlockTest(g, d, cur, out)
  }

  // What a call may be asked to do: a page-aligned range inside its own table's region, given
  // up to a multiple `off` of the level-0 span.
  ghost predicate Inputs(g: Granule, tags: Tags, d: TtDesc, off: nat) {
    && g.start <= d.level <= 3
    && Rem(d.inputBase, g.page) == 0 && Rem(d.outputBase, g.page) == 0
    && Rem(off, Size(g, 0)) == 0 && off <= d.inputBase <= d.inputTop + 1
    && (if d.level == 0 then d.table == ROOT && d.inputBase - off < Size(g, 0) && d.inputTop - off < Size(g, 0)
        else d.table in tags && tags[d.table].level == d.level && tags[d.table].base <= d.inputBase - off
             && d.inputTop - off < tags[d.table].base + TableSize(g, d.level))
  }

  // The table and tag under which a call works: level 0 always hands over to tt_l1_base.
  ghost function Under(d: TtDesc): nat {
    if d.level == 0 then L1_TABLE else d.table
  }

  ghost function UnderTag(g: Granule, tags: Tags, d: TtDesc): Tag
    requires d.level == 0 || d.table in tags
  {
    if d.level == 0 then HomeTag(g) else tags[d.table]
  }

  // The request has been carried out, in reduced addresses.
  ghost predicate Filled(g: Granule, tag: Tag, m: Mem, m': Mem, d: TtDesc, off: nat, attr: Attributes)
    requires 1 <= tag.level <= 3 && off <= d.inputBase
  {
    Done(g, m, m', Under(d), tag, d.inputBase - off, MappedEnd(d.inputTop - off, g.page), d.outputBase, attr)
  }

  // The root after a call: its descriptor for the range now points to tt_l1_base.
  ghost function RootAfter(g: Granule, m: Mem, d: TtDesc): seq<Entry>
    requires ROOT < |m| && Index(g, 0, d.inputBase) < |m[ROOT]|
  {
    if d.level == 0 && d.inputBase < d.inputTop then m[ROOT][Index(g, 0, d.inputBase) := Table(L1_TABLE)]
    else m[ROOT]
  }

  // ---------------------------------------------------------------- one loop iteration

  ghost predicate ChunkAt(g: Granule, tags: Tags, d: TtDesc, off: nat, cur: nat, out: nat, i: nat, chunkTop: int)
    requires Inputs(g, tags, d, off)
  {
    && d.inputBase <= cur < d.inputTop && out == d.outputBase + (cur - d.inputBase)
    && Rem(cur, g.page) == 0 && i == Index(g, d.level, cur)
    && chunkTop == off + ChunkTop(g, d.level, cur - off, d.inputTop - off)
  }

  // A chunk's own facts, in reduced addresses.
  lemma ChunkReduced(g: Granule, tags: Tags, d: TtDesc, off: nat, cur: nat, out: nat, i: nat, chunkTop: int)
    requires Inputs(g, tags, d, off) && d.level >= 1 && Aligned(g, tags[d.table])
    requires ChunkAt(g, tags, d, off, cur, out, i, chunkTop)
    ensures Rem(cur - off, g.page) == 0 && Rem(out, g.page) == 0
    ensures Rem(cur, Size(g, d.level)) == Rem(cur - off, Size(g, d.level))
    ensures InEntry(g, tags[d.table], i, cur - off)
    ensures EntryBase(g, d.level, cur - off) == EntryStart(g, tags[d.table], i)
  {
    hide Rem, Times, Quot, Walk, RoundUp;
    ReducedPage(g, off, cur - off);
    Reduced(g, d.level, off, cur - off);
    EntryOf(g, tags[d.table], cur - off);
    SubMultiple(cur, d.inputBase, g.page);
    AddMultiple(d.outputBase, cur - d.inputBase, g.page);
  }

  // Where blocks are not architectural the block test of lines 163-165 fails.
  lemma NoIllegalBlock(g: Granule, d: TtDesc, cur: nat, out: nat)
    requires d.level <= 3 && !IllegalBlock(g, d) && d.inputBase <= cur && out == d.outputBase + (cur - d.inputBase)
    ensures !WrongBlock(g, d, cur, out)
  {
    if !WrongBlock(g, d, cur, out) { return; }
    var s := Size(g, d.level);
    var r := RoundUp(d.inputBase, s);
    RoundUpMultiple(d.inputBase, s);
    if cur < r { MultiplesApart(cur, r, s); }
    SameResidue(d.inputBase, d.outputBase, cur - d.inputBase, s);
  }

  // Where they are not, the first whole descriptor's range is written as one all the same.
  lemma IllegalIsWrong(g: Granule, d: TtDesc, out: nat)
    requires d.level <= 3 && IllegalBlock(g, d)
    requires out == d.outputBase + (FirstBoundary(g, d) - d.inputBase)
    ensures WrongBlock(g, d, FirstBoundary(g, d), out)
  {
    hide Rem, Quot, Times, Size, RoundUp;
    RoundUpMultiple(d.inputBase, Size(g, d.level));
    AlignedTogether(d.inputBase, d.outputBase, FirstBoundary(g, d) - d.inputBase, Size(g, d.level));
  }

  // Two addresses with the same residue become aligned together.
  lemma AlignedTogether(a: nat, b: nat, d: nat, s: nat)
    requires s > 0 && Rem(a, s) == Rem(b, s) && Rem(a + d, s) == 0
    ensures Rem(b + d, s) == 0
  {
    hide Rem, Quot, Times;
    RemFloor(a, s);
    RemFloor(b, s);
    AddMultiple(a - Rem(a, s), Rem(a, s) + d, s);
    AddMultiple(b - Rem(b, s), Rem(b, s) + d, s);
  }

  lemma SameResidue(x: nat, y: nat, k: nat, s: nat)
    requires s > 0 && Rem(x + k, s) == 0 && Rem(y + k, s) == 0
    ensures Rem(x, s) == Rem(y, s)
  {
    var a, b := x - Rem(x, s), y - Rem(y, s);
    RemFloor(x, s);
    RemFloor(y, s);
    AddMultiple(a, Rem(x, s) + k, s);
    AddMultiple(b, Rem(y, s) + k, s);
    if Rem(x, s) < Rem(y, s) { MultiplesApart(Rem(x, s) + k, Rem(y, s) + k, s); }
    if Rem(y, s) < Rem(x, s) { MultiplesApart(Rem(y, s) + k, Rem(x, s) + k, s); }
  }

  lemma LeafState(g: Granule, m: Mem, tags: Tags, l2Used: seq<bool>, l3Used: seq<bool>, t: nat, i: nat, e: Entry)
    requires State(g, m, tags, l2Used, l3Used) && t in tags && i < g.entries
    requires Tree(g, Put(m, t, i, e), tags)
    ensures State(g, Put(m, t, i, e), tags, l2Used, l3Used)
    ensures g.start == 0 ==> Put(m, t, i, e)[ROOT] == m[ROOT]
  {
  }

  // A pool table just marked used is a legal child.
  lemma InstallState(g: Granule, m: Mem, tags: Tags, l2Used: seq<bool>, l3Used: seq<bool>, t: nat, i: nat, c: nat,
                     tags1: Tags, l2Used': seq<bool>, l3Used': seq<bool>)
    requires State(g, m, tags, l2Used, l3Used) && t in tags && i < g.entries
    requires Installs(g, m, tags, t, i, c, tags1)
    requires |l2Used'| == L2_POOL && |l3Used'| == L3_POOL
    requires forall k | 0 <= k < L2_POOL :: l2Used'[k] == (l2Used[k] || (c !in tags && c == L2_FIRST + k))
    requires forall k | 0 <= k < L3_POOL :: l3Used'[k] == (l3Used[k] || (c !in tags && c == L3_FIRST + k))
    requires c != ROOT || c in tags
    ensures State(g, Put(m, t, i, Table(c)), tags1, l2Used', l3Used')
    ensures g.start == 0 ==> Put(m, t, i, Table(c))[ROOT] == m[ROOT]
  {
    InstallTree(g, m, tags, t, i, c, tags1);
  }

  lemma ChildInputs(g: Granule, tags: Tags, d: TtDesc, off: nat, cur: nat, out: nat, i: nat, chunkTop: int,
                    tags1: Tags, d1: TtDesc)
    requires Inputs(g, tags, d, off) && 1 <= d.level < 3 && Aligned(g, tags[d.table])
    requires ChunkAt(g, tags, d, off, cur, out, i, chunkTop)
    requires d1.inputBase == cur && d1.inputTop == chunkTop && d1.outputBase == out && d1.level == d.level + 1
    requires d1.table in tags1 && tags1[d1.table] == Child(g, tags[d.table], i)
    ensures Inputs(g, tags1, d1, off)
  {
    hide Rem, Quot, Times;
    ChunkReduced(g, tags, d, off, cur, out, i, chunkTop);
    ChunkEnd(g, d.level, cur - off, d.inputTop - off);
  }

  lemma RootInputs(g: Granule, tags: Tags, d: TtDesc, off: nat, cur: nat, out: nat, i: nat, chunkTop: int, d1: TtDesc)
    requires Inputs(g, tags, d, off) && d.level == 0 && L1_TABLE in tags && tags[L1_TABLE] == HomeTag(g)
    requires ChunkAt(g, tags, d, off, cur, out, i, chunkTop) && cur == d.inputBase
    requires d1.inputBase == cur && d1.inputTop == chunkTop && d1.outputBase == out && d1.level == 1 && d1.table == L1_TABLE
    ensures chunkTop == d.inputTop
    ensures Inputs(g, tags, d1, off)
  {
  }

  // ---------------------------------------------------------------- the loop of lines 115-414

  // The loop stops at descriptor boundaries only, and the level-0 loop runs at most once.
  ghost predicate OnBoundary(g: Granule, d: TtDesc, off: nat, cur: nat)
    requires d.level <= 3 && off <= d.inputBase <= cur
  {
    if d.level == 0 then cur == d.inputBase || cur > d.inputTop
    else cur <= d.inputTop ==> Rem(cur - off, g.page) == 0 && (cur == d.inputBase || Rem(cur - off, Size(g, d.level)) == 0)
  }

  // Where the loop stands at address cur, for a call below level 0.
  ghost predicate TableInv(g: Granule, m0: Mem, m: Mem, d: TtDesc, tag: Tag, off: nat, cur: nat, attr: Attributes)
    requires 1 <= tag.level == d.level <= 3 && off <= d.inputBase <= cur
  {
    var lo, c := d.inputBase - off, cur - off;
    && Done(g, m0, m, d.table, tag, lo,
            if cur <= d.inputTop then c else MappedEnd(d.inputTop - off, g.page), d.outputBase, attr)
    && (cur < d.inputTop ==> Untouched(g, m0, m, d.table, tag, EntryBase(g, d.level, c)))
  }

  ghost predicate RootInv(g: Granule, m0: Mem, m: Mem, d: TtDesc, off: nat, cur: nat, attr: Attributes)
    requires d.level == 0 && off <= d.inputBase && ROOT < |m0| && ROOT < |m| && Index(g, 0, d.inputBase) < |m0[ROOT]|
  {
    || (cur == d.inputBase && m == m0)
    || (d.inputBase < d.inputTop < cur && Filled(g, HomeTag(g), m0, m, d, off, attr) && m[ROOT] == RootAfter(g, m0, d))
  }

  lemma TableInit(g: Granule, m: Mem, tags: Tags, d: TtDesc, off: nat, attr: Attributes)
    requires Inputs(g, tags, d, off) && d.level >= 1
    ensures TableInv(g, m, m, d, tags[d.table], off, d.inputBase, attr) && OnBoundary(g, d, off, d.inputBase)
  {
    ReducedPage(g, off, d.inputBase - off);
    if d.inputTop < d.inputBase { NothingMapped(g, d, off); }
  }

  lemma NothingMapped(g: Granule, d: TtDesc, off: nat)
    requires off <= d.inputBase && Rem(d.inputBase - off, g.page) == 0
    requires d.inputBase - 1 <= d.inputTop <= d.inputBase
    ensures MappedEnd(d.inputTop - off, g.page) == d.inputBase - off
  {
    if d.inputTop >= off { RoundUpUnique(d.inputTop - off, d.inputBase - off, g.page); }
  }

  lemma TableExit(g: Granule, m0: Mem, m: Mem, d: TtDesc, tag: Tag, off: nat, cur: nat, attr: Attributes)
    requires 1 <= tag.level == d.level <= 3 && off <= d.inputBase <= cur
    requires TableInv(g, m0, m, d, tag, off, cur, attr) && OnBoundary(g, d, off, cur) && d.inputTop <= cur
    ensures Filled(g, tag, m0, m, d, off, attr)
  {
    if cur == d.inputTop {
      RoundUpUnique(d.inputTop - off, d.inputTop - off, g.page);
    }
  }

  lemma RootExit(g: Granule, m0: Mem, m: Mem, d: TtDesc, off: nat, cur: nat, attr: Attributes)
    requires d.level == 0 && off <= d.inputBase && ROOT < |m0| && ROOT < |m| && Index(g, 0, d.inputBase) < |m0[ROOT]|
    requires Rem(off, Size(g, 0)) == 0 && Rem(d.inputBase, g.page) == 0 && d.inputBase <= d.inputTop + 1
    requires RootInv(g, m0, m, d, off, cur, attr) && d.inputTop <= cur
    ensures Filled(g, HomeTag(g), m0, m, d, off, attr) && m[ROOT] == RootAfter(g, m0, d)
  {
    if cur == d.inputBase {
      ReducedPage(g, off, d.inputBase - off);
      NothingMapped(g, d, off);
    }
  }

  lemma TableStep(g: Granule, m0: Mem, tags0: Tags, m: Mem, m': Mem, d: TtDesc, off: nat,
                  cur: nat, out: nat, i: nat, chunkTop: int, attr: Attributes)
    requires Inputs(g, tags0, d, off) && d.level >= 1 && Aligned(g, tags0[d.table])
    requires ChunkAt(g, tags0, d, off, cur, out, i, chunkTop)
    requires TableInv(g, m0, m, d, tags0[d.table], off, cur, attr) && OnBoundary(g, d, off, cur)
    requires EntryDone(g, m, m', d.table, tags0[d.table], i, cur - off, MappedEnd(chunkTop - off, g.page), out, attr)
    ensures cur <= chunkTop <= d.inputTop
    ensures TableInv(g, m0, m', d, tags0[d.table], off, chunkTop + 1, attr)
  {
    hide Rem, Times, Quot, Size, Walk, RoundUp;
    var c, nxt := cur - off, MappedEnd(chunkTop - off, g.page);
    ChunkReduced(g, tags0, d, off, cur, out, i, chunkTop);
    ChunkEnd(g, d.level, c, d.inputTop - off);
    Advance(g, m0, m, m', d.table, tags0[d.table], i, d.inputBase - off, c, nxt, d.outputBase, attr);
    if chunkTop < d.inputTop {
      assert chunkTop + 1 - off == nxt && EntryBase(g, d.level, nxt) == nxt;
    }
  }

  lemma ExtendsTrans(g: Granule, m0: Mem, tags0: Tags, m: Mem, tags: Tags, m': Mem, tags': Tags, tag: Tag)
    requires tag.level <= 3
    requires Extends(g, m0, tags0, m, tags, tag) && Extends(g, m, tags, m', tags', tag)
    ensures Extends(g, m0, tags0, m', tags', tag) && Tree(g, m, tags) && |m'| == |m|
  {
  }

  lemma LeafBranch(g: Granule, m: Mem, tags: Tags, d: TtDesc, off: nat, cur: nat, out: nat, i: nat, chunkTop: int,
                   e: Entry, attr: Attributes)
    requires Tree(g, m, tags) && Inputs(g, tags, d, off) && ChunkAt(g, tags, d, off, cur, out, i, chunkTop)
    requires 1 <= d.level && g.minBlock <= d.level
    requires d.level == 3 || (Rem(cur, Size(g, d.level)) == 0 && d.inputTop >= cur + Size(g, d.level) - 1)
    requires IsLeaf(e, d.level, out, attr)
    ensures Extends(g, m, tags, Put(m, d.table, i, e), tags, tags[d.table])
    ensures EntryDone(g, m, Put(m, d.table, i, e), d.table, tags[d.table], i, cur - off,
                      MappedEnd(chunkTop - off, g.page), out, attr)
  {
    hide Rem, Times, Quot, Size, Walk, RoundUp;
    ChunkReduced(g, tags, d, off, cur, out, i, chunkTop);
    ChunkEnd(g, d.level, cur - off, d.inputTop - off);
    LeafEntry(g, m, tags, d.table, i, cur - off, e, out, attr);
    assert MappedEnd(chunkTop - off, g.page) == cur - off + Size(g, d.level);
  }

  lemma TableBranch(g: Granule, m: Mem, tags: Tags, d: TtDesc, off: nat, cur: nat, out: nat, i: nat, chunkTop: int,
                    c: nat, tags1: Tags, m2: Mem, tags2: Tags, attr: Attributes)
    requires Tree(g, m, tags) && Inputs(g, tags, d, off) && ChunkAt(g, tags, d, off, cur, out, i, chunkTop)
    requires 1 <= d.level < 3 && Installs(g, m, tags, d.table, i, c, tags1)
    requires Extends(g, Put(m, d.table, i, Table(c)), tags1, m2, tags2, Child(g, tags[d.table], i))
    requires Done(g, Put(m, d.table, i, Table(c)), m2, c, Child(g, tags[d.table], i), cur - off,
                  MappedEnd(chunkTop - off, g.page), out, attr)
    ensures EntryDone(g, m, m2, d.table, tags[d.table], i, cur - off, MappedEnd(chunkTop - off, g.page), out, attr)
  {
    hide Rem, Times, Quot, Size, Walk, RoundUp;
    ChunkReduced(g, tags, d, off, cur, out, i, chunkTop);
    ChunkEnd(g, d.level, cur - off, d.inputTop - off);
    TableEntry(g, m, tags, d.table, i, c, tags1, m2, tags2, cur - off, MappedEnd(chunkTop - off, g.page), out, attr);
  }

  // Whatever a recursive call does stays under its caller's table.
  lemma BranchExtends(g: Granule, m: Mem, tags: Tags, t: nat, i: nat, c: nat, tags1: Tags, m2: Mem, tags2: Tags)
    requires Tree(g, m, tags) && t in tags && i < g.entries && Installs(g, m, tags, t, i, c, tags1)
    requires Extends(g, Put(m, t, i, Table(c)), tags1, m2, tags2, Child(g, tags[t], i))
    ensures Extends(g, m, tags, m2, tags2, tags[t])
    ensures m2[t] == m[t][i := Table(c)]
  {
    InstallTree(g, m, tags, t, i, c, tags1);
    ChildSmaller(g, tags[t], i);
  }

  // Writing the root descriptor of a level-0 walk changes no walk below it.
  lemma RootBranch(g: Granule, m: Mem, tags: Tags, h: nat, e: Entry)
    requires g.start == 0 && Tree(g, m, tags) && RootOk(g, m, tags) && h < g.entries
    requires e == Table(L1_TABLE) || e.Block?
    ensures Extends(g, m, tags, Put(m, ROOT, h, e), tags, HomeTag(g))
    ensures RootOk(g, Put(m, ROOT, h, e), tags)
    ensures Untouched(g, m, Put(m, ROOT, h, e), L1_TABLE, HomeTag(g), 0)
  {
    var m1, tag := Put(m, ROOT, h, e), HomeTag(g);
    forall y: nat | InRegion(g, tag, y)
      ensures Walk(g, m1, L1_TABLE, tag.level, y) == Walk(g, m, L1_TABLE, tag.level, y)
    {
      WalkLocal(g, m, m1, tags, L1_TABLE, y);
    }
  }

  lemma DoneAfterSame(g: Granule, m: Mem, m1: Mem, m2: Mem, t: nat, tag: Tag, lo: nat, hi: nat, pa: nat, attr: Attributes)
    requires 1 <= tag.level <= 3 && Untouched(g, m, m1, t, tag, 0) && Done(g, m1, m2, t, tag, lo, hi, pa, attr)
    ensures Done(g, m, m2, t, tag, lo, hi, pa, attr)
  {
  }

  // Lines 399-405: the recursive call is well formed.
  lemma DescendReady(g: Granule, bits: nat, m: Mem, tags: Tags, d: TtDesc, off: nat, cur: nat, out: nat, i: nat,
                     chunkTop: nat, tags1: Tags, next: nat)
    requires Tree(g, m, tags) && RootOk(g, m, tags) && Inputs(g, tags, d, off) && Geometry(g, bits, d) && d.level < 3
    requires ChunkAt(g, tags, d, off, cur, out, i, chunkTop) && (d.level == 0 ==> cur == d.inputBase)
    requires if d.level == 0 then next == L1_TABLE && tags1 == tags else Installs(g, m, tags, d.table, i, next, tags1)
    ensures bits <= d.sizeLog2
    ensures var d1 := TtDesc(next, cur, chunkTop, out, d.level + 1, d.sizeLog2 - bits, bits);
            Inputs(g, tags1, d1, off) && Geometry(g, bits, d1) && !IllegalBlock(g, d1)
    ensures d.level == 0 ==> chunkTop == d.inputTop
  {
    hide Rem, Times, Quot, Walk, RoundUp;
    NextSize(d.sizeLog2, bits, g.entries, Size(g, d.level + 1));
    var d1 := TtDesc(next, cur, chunkTop, out, d.level + 1, d.sizeLog2 - bits, bits);
    if d.level == 0 {
      RootInputs(g, tags, d, off, cur, out, i, chunkTop, d1);
    } else {
      InstallTree(g, m, tags, d.table, i, next, tags1);
      ChildInputs(g, tags, d, off, cur, out, i, chunkTop, tags1, d1);
    }
  }

  // Only descriptor i of table t was rewritten in it.
  ghost predicate SameEntries(m: Mem, m': Mem, t: nat, i: nat) {
    t < |m| && t < |m'| && |m'[t]| == |m[t]| && forall j | 0 <= j < |m[t]| && j != i :: m'[t][j] == m[t][j]
  }

  // What the recursive call achieved, seen from its caller.
  lemma DescendDone(g: Granule, m: Mem, tags: Tags, d: TtDesc, off: nat, cur: nat, out: nat, i: nat, chunkTop: nat,
                    next: nat, tags1: Tags, m2: Mem, tags2: Tags, attr: Attributes, ok: bool)
    requires Tree(g, m, tags) && RootOk(g, m, tags) && Inputs(g, tags, d, off) && d.level < 3
    requires ChunkAt(g, tags, d, off, cur, out, i, chunkTop)
    requires if d.level == 0 then next == L1_TABLE && tags1 == tags else Installs(g, m, tags, d.table, i, next, tags1)
    requires next in tags1 && tags1[next].level == d.level + 1
    requires Extends(g, Put(m, d.table, i, Table(next)), tags1, m2, tags2, tags1[next])
    requires ok ==> Done(g, Put(m, d.table, i, Table(next)), m2, next, tags1[next], cur - off,
                         MappedEnd(chunkTop - off, g.page), out, attr)
    ensures Extends(g, m, tags, m2, tags2, UnderTag(g, tags, d))
    ensures ok && d.level == 0 ==>
              Done(g, m, m2, L1_TABLE, HomeTag(g), cur - off, MappedEnd(chunkTop - off, g.page), out, attr)
    ensures ok && d.level >= 1 ==>
              EntryDone(g, m, m2, d.table, tags[d.table], i, cur - off, MappedEnd(chunkTop - off, g.page), out, attr)
    ensures d.level >= 1 ==> SameEntries(m, m2, d.table, i)
  {
    hide Rem, Times, Quot, Size, Walk, RoundUp;
    var m1 := Put(m, d.table, i, Table(next));
    if d.level == 0 {
      RootBranch(g, m, tags, i, Table(next));
      ExtendsTrans(g, m, tags, m1, tags1, m2, tags2, HomeTag(g));
      if ok {
        DoneAfterSame(g, m, m1, m2, L1_TABLE, HomeTag(g), cur - off, MappedEnd(chunkTop - off, g.page), out, attr);
      }
    } else {
      InstallTree(g, m, tags, d.table, i, next, tags1);
      BranchExtends(g, m, tags, d.table, i, next, tags1, m2, tags2);
      if ok { TableBranch(g, m, tags, d, off, cur, out, i, chunkTop, next, tags1, m2, tags2, attr); }
    }
  }

  // ---------------------------------------------------------------- pool consumption

  function Count(used: seq<bool>): (r: nat)
    ensures r <= |used|
  {
    if used == [] then 0 else Count(used[..|used| - 1]) + if used[|used| - 1] then 1 else 0
  }

  lemma {:induction false} CountSet(used: seq<bool>, k: nat)
    requires k < |used| && !used[k]
    ensures Count(used[k := true]) == Count(used) + 1
  {
    var n := |used| - 1;
    if k == n {
      assert used[k := true][..n] == used[..n];
    } else {
      CountSet(used[..n], k);
      assert used[k := true][..n] == used[..n][k := true];
    }
  }

  lemma {:induction false} CountFull(used: seq<bool>)
    requires forall k | 0 <= k < |used| :: used[k]
    ensures Count(used) == |used|
  {
    if used != [] { CountFull(used[..|used| - 1]); }
  }

  lemma {:induction false} CountNone(used: seq<bool>)
    requires forall k | 0 <= k < |used| :: !used[k]
    ensures Count(used) == 0
  {
    if used != [] { CountNone(used[..|used| - 1]); }
  }

  // How many ends of [lo, stop) are not aligned to s.
  function Ends(lo: nat, stop: nat, s: nat): (r: nat)
    requires s > 0
    ensures r <= 2
  {
    (if Rem(lo, s) != 0 then 1 else 0) + (if Rem(stop, s) != 0 then 1 else 0)
  }

  // Tables a flat mapping of [lo, stop) may take at descriptors of level `kind` (1 or 2).
  function Need(g: Granule, level: nat, kind: nat, lo: nat, stop: nat): (r: nat)
    requires level <= 3 && kind <= 3
    ensures r <= 2
  {
    if level <= kind then Ends(lo, stop, Size(g, kind)) else 0
  }

  // The part of the need that lies before cur.
  function Spent(g: Granule, d: TtDesc, kind: nat, cur: nat): (r: nat)
    requires d.level <= 3 && kind <= 3 && 0 <= d.inputTop + 1
  {
    if d.level > kind then 0
    else (if cur > d.inputBase && Rem(d.inputBase, Size(g, kind)) != 0 then 1 else 0)
         + (if cur > d.inputTop && Rem(d.inputTop + 1, Size(g, kind)) != 0 then 1 else 0)
  }

  // A step took no more tables than the misaligned ends of [lo, stop) account for.
  ghost predicate Frugal(g: Granule, level: nat, lo: nat, stop: nat, l2Used: seq<bool>, l3Used: seq<bool>,
                         l2Used': seq<bool>, l3Used': seq<bool>)
    requires level <= 3
  {
    && Count(l2Used') <= Count(l2Used) + Need(g, level, 1, lo, stop)
    && Count(l3Used') <= Count(l3Used) + Need(g, level, 2, lo, stop)
  }

  // Every table of one of the two pools is in use.
  ghost predicate PoolFull(l2Used: seq<bool>, l3Used: seq<bool>) {
    Count(l2Used) == 12 || Count(l3Used) == 24
  }

  // The pools cannot be sure to serve [lo, stop).
  ghost predicate Starved(g: Granule, level: nat, lo: nat, stop: nat, l2Used: seq<bool>, l3Used: seq<bool>)
    requires level <= 3
  {
    || Count(l2Used) + Need(g, level, 1, lo, stop) > L2_POOL
    || Count(l3Used) + Need(g, level, 2, lo, stop) > L3_POOL
  }

  lemma {:induction false} SizeMultiple(g: Granule, level: nat, kind: nat)
    requires level <= kind <= 3
    ensures Rem(Size(g, level), Size(g, kind)) == 0
    decreases kind - level
  {
    if level == kind {
      RemTimes(1, Size(g, kind));
    } else {
      SizeMultiple(g, level + 1, kind);
      RemTimes(g.entries, Size(g, level + 1));
      MultipleOfMultiple(Size(g, level), Size(g, level + 1), Size(g, kind));
    }
  }

  // Only the two end chunks of a range can be misaligned.
  lemma SpentStep(g: Granule, d: TtDesc, kind: nat, cur: nat, chunkTop: nat)
    requires d.level <= 3 && kind <= 3 && d.inputBase <= cur <= chunkTop <= d.inputTop
    requires cur == d.inputBase || Rem(cur, Size(g, d.level)) == 0
    requires chunkTop < d.inputTop ==> Rem(chunkTop + 1, Size(g, d.level)) == 0
    ensures Spent(g, d, kind, cur) + Need(g, d.level, kind, cur, chunkTop + 1) <= Spent(g, d, kind, chunkTop + 1)
    ensures Spent(g, d, kind, chunkTop + 1) <= Need(g, d.level, kind, d.inputBase, d.inputTop + 1)
  {
    hide Size, Rem;
    if d.level <= kind {
      SizeMultiple(g, d.level, kind);
      if cur != d.inputBase { MultipleOfMultiple(cur, Size(g, d.level), Size(g, kind)); }
      if chunkTop < d.inputTop { MultipleOfMultiple(chunkTop + 1, Size(g, d.level), Size(g, kind)); }
    }
  }

  // A flat chunk that fails the block test has a misaligned end.
  lemma SplitNeeds(g: Granule, d: TtDesc, cur: nat, chunkTop: nat)
    requires d.level <= 3 && cur <= chunkTop <= d.inputTop
    requires chunkTop == d.inputTop || chunkTop + 1 == cur - Rem(cur, Size(g, d.level)) + Size(g, d.level)
    requires chunkTop + 1 <= cur - Rem(cur, Size(g, d.level)) + Size(g, d.level)
    requires !(Rem(cur, Size(g, d.level)) == 0 && d.inputTop >= cur + Size(g, d.level) - 1)
    ensures Need(g, d.level, d.level, cur, chunkTop + 1) >= 1
  {
    hide Size;
    if Rem(cur, Size(g, d.level)) == 0 && Rem(chunkTop + 1, Size(g, d.level)) == 0 {
      MultiplesApart(cur, chunkTop + 1, Size(g, d.level));
    }
  }

  lemma DescendNeeds(g: Granule, tags: Tags, d: TtDesc, off: nat, cur: nat, out: nat, i: nat, chunkTop: nat)
    requires Inputs(g, tags, d, off) && 1 <= d.level < 3 && Aligned(g, tags[d.table])
    requires ChunkAt(g, tags, d, off, cur, out, i, chunkTop)
    requires !(Rem(cur, Size(g, d.level)) == 0 && d.inputTop >= cur + Size(g, d.level) - 1)
    ensures Need(g, d.level, d.level, cur, chunkTop + 1) >= 1
  {
    hide Rem, Times, Quot, Size, RoundUp;
    ChunkReduced(g, tags, d, off, cur, out, i, chunkTop);
    ChunkEnd(g, d.level, cur - off, d.inputTop - off);
    SplitNeeds(g, d, cur, chunkTop);
  }

  // One table for this descriptor plus the recursive call's own need.
  lemma FrugalDescend(g: Granule, level: nat, lo: nat, stop: nat, u2: seq<bool>, u3: seq<bool>,
                      v2: seq<bool>, v3: seq<bool>, w2: seq<bool>, w3: seq<bool>, ok: bool)
    requires level < 3 && (level >= 1 ==> Need(g, level, level, lo, stop) >= 1)
    requires Count(v2) <= Count(u2) + (if level == 1 then 1 else 0)
    requires Count(v3) <= Count(u3) + (if level == 2 then 1 else 0)
    requires Frugal(g, level + 1, lo, stop, v2, v3, w2, w3) && (!ok ==> Starved(g, level + 1, lo, stop, v2, v3))
    ensures Frugal(g, level, lo, stop, u2, u3, w2, w3) && (!ok ==> Starved(g, level, lo, stop, u2, u3))
  {
    hide Ends, Size, Count;
  }

  // ---------------------------------------------------------------- the loop, at every level

  ghost predicate FillInv(g: Granule, m0: Mem, tags0: Tags, m: Mem, d: TtDesc, off: nat, cur: nat, attr: Attributes)
    requires Tree(g, m0, tags0) && RootOk(g, m0, tags0) && Inputs(g, tags0, d, off)
    requires |m| == |m0| && d.inputBase <= cur
  {
    if d.level == 0 then RootInv(g, m0, m, d, off, cur, attr)
    else TableInv(g, m0, m, d, tags0[d.table], off, cur, attr)
  }

  lemma FillInit(g: Granule, m: Mem, tags: Tags, d: TtDesc, off: nat, attr: Attributes)
    requires Tree(g, m, tags) && RootOk(g, m, tags) && Inputs(g, tags, d, off)
    ensures Extends(g, m, tags, m, tags, UnderTag(g, tags, d))
    ensures LoopAt(g, m, tags, m, tags, d, off, d.inputBase, attr)
  {
    if d.level >= 1 { TableInit(g, m, tags, d, off, attr); }
  }

  // The chunk that the loop computes at cur (lines 119-138).
  lemma FillChunk(g: Granule, bits: nat, m0: Mem, tags0: Tags, m: Mem, tags: Tags, d: TtDesc, off: nat, cur: nat,
                  out: nat, attr: Attributes)
    requires Tree(g, m0, tags0) && RootOk(g, m0, tags0) && Inputs(g, tags0, d, off) && Geometry(g, bits, d)
    requires d.inputBase <= cur < d.inputTop && out == d.outputBase + (cur - d.inputBase)
    requires LoopAt(g, m0, tags0, m, tags, d, off, cur, attr)
    ensures var size, width := Pow2(d.sizeLog2), Pow2(d.nbits);
            var chunkTop := Min(d.inputTop, cur - Rem(cur, size) + size - 1);
            && size == Size(g, d.level) && cur <= chunkTop
            && Inputs(g, tags, d, off)
            && ChunkAt(g, tags, d, off, cur, out, Rem(Quot(cur, size), width), chunkTop)
    ensures d.level == 0 ==> cur == d.inputBase
  {
    hide Rem, Times, Quot, Walk, RoundUp, Done, Untouched, Size;
    IndexField(g, d.level, cur, Pow2(d.nbits));
    SameUnder(g, m0, tags0, m, tags, d, off);
    if d.level == 0 {
      RootChunk(g, off, cur - off);
    } else {
      ReducedPage(g, off, cur - off);
      Reduced(g, d.level, off, cur - off);
    }
  }

  lemma RootChunk(g: Granule, off: nat, c: nat)
    requires Rem(off, Size(g, 0)) == 0 && c < Size(g, 0)
    ensures Rem(off + c, Size(g, 0)) == c == Rem(c, Size(g, 0))
  {
    AddMultiple(off, c, Size(g, 0));
  }

  lemma FillStep(g: Granule, m0: Mem, tags0: Tags, m: Mem, tags: Tags, m': Mem, d: TtDesc, off: nat, cur: nat,
                 out: nat, i: nat, chunkTop: nat, attr: Attributes)
    requires Tree(g, m0, tags0) && RootOk(g, m0, tags0) && Inputs(g, tags0, d, off)
    requires Extends(g, m0, tags0, m, tags, UnderTag(g, tags0, d)) && |m'| == |m|
    requires Inputs(g, tags, d, off) && ChunkAt(g, tags, d, off, cur, out, i, chunkTop)
    requires d.level == 0 ==> cur == d.inputBase
    requires FillInv(g, m0, tags0, m, d, off, cur, attr) && OnBoundary(g, d, off, cur)
    requires d.level == 0 ==>
               && m'[ROOT] == m[ROOT][i := Table(L1_TABLE)]
               && Done(g, m, m', L1_TABLE, HomeTag(g), cur - off, MappedEnd(chunkTop - off, g.page), out, attr)
    requires d.level >= 1 ==>
               EntryDone(g, m, m', d.table, tags[d.table], i, cur - off, MappedEnd(chunkTop - off, g.page), out, attr)
    ensures FillInv(g, m0, tags0, m', d, off, chunkTop + 1, attr) && cur <= chunkTop <= d.inputTop
  {
    hide Rem, Times, Quot, Size, Walk, RoundUp, Done, Untouched, EntryDone;
    if d.level == 0 {
      RootInputs(g, tags, d, off, cur, out, i, chunkTop, TtDesc(L1_TABLE, cur, chunkTop, out, 1, 0, 0));
    } else {
      TableStep(g, m0, tags0, m, m', d, off, cur, out, i, chunkTop, attr);
    }
  }

  // Chunks start and end on descriptor boundaries, except at the two ends of the range.
  lemma ChunkGuards(g: Granule, m: Mem, tags: Tags, d: TtDesc, off: nat, cur: nat, out: nat, i: nat, chunkTop: nat)
    requires Tree(g, m, tags) && RootOk(g, m, tags) && Inputs(g, tags, d, off)
    requires ChunkAt(g, tags, d, off, cur, out, i, chunkTop)
    requires d.level == 0 ==> cur == d.inputBase
    requires OnBoundary(g, d, off, cur)
    ensures OnBoundary(g, d, off, chunkTop + 1)
    ensures chunkTop + 1 <= cur - Rem(cur, Size(g, d.level)) + Size(g, d.level)
    ensures cur <= chunkTop <= d.inputTop
    ensures cur == d.inputBase || Rem(cur, Size(g, d.level)) == 0
    ensures chunkTop < d.inputTop ==> Rem(chunkTop + 1, Size(g, d.level)) == 0
  {
    hide Rem, Times, Quot, Size, Walk, RoundUp, Done, Untouched;
    if d.level == 0 {
      RootChunk(g, off, cur - off);
      RootInputs(g, tags, d, off, cur, out, i, chunkTop, TtDesc(L1_TABLE, cur, chunkTop, out, 1, 0, 0));
    } else {
      ChunkReduced(g, tags, d, off, cur, out, i, chunkTop);
      ChunkEnd(g, d.level, cur - off, d.inputTop - off);
      if chunkTop < d.inputTop { Reduced(g, d.level, off, chunkTop + 1 - off); }
    }
  }

  // Once the loop has passed the first descriptor boundary of an illegal range, a block stands there.
  ghost predicate Blocked(g: Granule, m: Mem, d: TtDesc, cur: nat)
    requires d.level <= 3
  {
    || cur <= FirstBoundary(g, d)
    || (d.table < |m| && Index(g, d.level, FirstBoundary(g, d)) < |m[d.table]|
        && m[d.table][Index(g, d.level, FirstBoundary(g, d))].Block?)
  }

  lemma BlockedStep(g: Granule, m: Mem, tags: Tags, m': Mem, d: TtDesc, off: nat, cur: nat, out: nat, i: nat,
                    chunkTop: nat, attr: Attributes)
    requires Tree(g, m, tags) && RootOk(g, m, tags) && Inputs(g, tags, d, off)
    requires ChunkAt(g, tags, d, off, cur, out, i, chunkTop) && IllegalBlock(g, d) && Blocked(g, m, d, cur)
    requires d.level == 0 ==> cur == d.inputBase
    requires cur == d.inputBase || Rem(cur, Size(g, d.level)) == 0
    requires chunkTop + 1 <= cur - Rem(cur, Size(g, d.level)) + Size(g, d.level)
    requires d.level >= 1 ==> SameEntries(m, m', d.table, i)
    requires WrongBlock(g, d, cur, out) && i < |m[d.table]| ==> m' == Put(m, d.table, i, Block(out, attr))
    ensures Blocked(g, m', d, chunkTop + 1)
    ensures d.level == 0 ==> WrongBlock(g, d, cur, out) && FirstBoundary(g, d) == cur
  {
    hide Rem, Times, Quot, Size, Walk, RoundUp;
    var s, star := Size(g, d.level), FirstBoundary(g, d);
    RoundUpMultiple(d.inputBase, s);
    if d.level == 0 { RootBoundary(g, tags, d, off); }
    if cur < star {
      RemFloor(cur, s);
      MultiplesApart(cur - Rem(cur, s), star, s);
    } else if cur == star {
      IllegalIsWrong(g, d, out);
    } else {
      MultiplesApart(star, cur, s);
      OtherIndex(g, tags, d, off, star, cur);
    }
  }

  // A level-0 range with room for a whole descriptor starts on its boundary.
  lemma RootBoundary(g: Granule, tags: Tags, d: TtDesc, off: nat)
    requires Inputs(g, tags, d, off) && d.level == 0 && IllegalBlock(g, d)
    ensures FirstBoundary(g, d) == d.inputBase
  {
    hide Rem, Times, Quot, Size, RoundUp;
    var s, star := Size(g, 0), FirstBoundary(g, d);
    RoundUpMultiple(d.inputBase, s);
    if off < star { MultiplesApart(off, star, s); }
  }

  lemma BoundaryInside(g: Granule, d: TtDesc)
    requires d.level <= 3 && IllegalBlock(g, d)
    ensures FirstBoundary(g, d) < d.inputTop
  {
    SizePages(g, d.level);
    if Size(g, d.level) == 1 { QuotUnique(1, g.page, 0); }
  }

  // Addresses a whole descriptor apart have different descriptors.
  lemma OtherIndex(g: Granule, tags: Tags, d: TtDesc, off: nat, x: nat, y: nat)
    requires Inputs(g, tags, d, off) && d.level >= 1 && Aligned(g, tags[d.table])
    requires d.inputBase <= x && x + Size(g, d.level) <= y <= d.inputTop
    ensures Index(g, d.level, x) != Index(g, d.level, y)
  {
    hide Rem, Times, Quot, Size;
    Reduced(g, d.level, off, x - off);
    Reduced(g, d.level, off, y - off);
    IndexInEntry(g, tags[d.table], x - off);
    IndexInEntry(g, tags[d.table], y - off);
  }

  // What one iteration achieves for the chunk [cur, chunkTop], when it succeeds and when it does not.
  ghost predicate EntryFilled(g: Granule, m: Mem, tags: Tags, m': Mem, tags': Tags, d: TtDesc, off: nat, cur: nat,
                              out: nat, i: nat, chunkTop: nat, attr: Attributes, ok: bool)
    requires Tree(g, m, tags) && RootOk(g, m, tags) && Inputs(g, tags, d, off) && off <= cur && i < g.entries
  {
    && Extends(g, m, tags, m', tags', UnderTag(g, tags, d))
    && (g.start == 0 && d.level >= 1 ==> m'[ROOT] == m[ROOT])
    && (d.level >= 1 ==> SameEntries(m, m', d.table, i))
    && if WrongBlock(g, d, cur, out) then ok && m' == Put(m, d.table, i, Block(out, attr))
       else if d.level == 0 then
         && m'[ROOT] == m[ROOT][i := Table(L1_TABLE)]
         && (ok ==> Done(g, m, m', L1_TABLE, HomeTag(g), cur - off, MappedEnd(chunkTop - off, g.page), out, attr))
       else
         ok ==> EntryDone(g, m, m', d.table, tags[d.table], i, cur - off, MappedEnd(chunkTop - off, g.page), out, attr)
  }

  // What a whole call achieves.  A block at a level without blocks is left where one was illegal.
  ghost predicate FillDone(g: Granule, m: Mem, tags: Tags, m': Mem, tags': Tags, d: TtDesc, off: nat, attr: Attributes,
                           ok: bool)
    requires Tree(g, m, tags) && RootOk(g, m, tags) && Inputs(g, tags, d, off)
  {
    && Extends(g, m, tags, m', tags', UnderTag(g, tags, d))
    && (g.start == 0 && d.level >= 1 ==> m'[ROOT] == m[ROOT])
    && (d.inputTop <= d.inputBase ==> ok && m' == m)
    && if IllegalBlock(g, d) then (d.level == 0 ==> ok) && (ok ==> Blocked(g, m', d, d.inputTop + 1))
       else (d.level == 0 ==> m'[ROOT] == RootAfter(g, m, d))
            && (ok ==> Filled(g, UnderTag(g, tags, d), m, m', d, off, attr))
  }

  // Where the loop stands at cur.
  ghost predicate LoopAt(g: Granule, m0: Mem, tags0: Tags, m: Mem, tags: Tags, d: TtDesc, off: nat, cur: nat,
                         attr: Attributes)
    requires Tree(g, m0, tags0) && RootOk(g, m0, tags0) && Inputs(g, tags0, d, off) && d.inputBase <= cur
  {
    && Extends(g, m0, tags0, m, tags, UnderTag(g, tags0, d)) && OnBoundary(g, d, off, cur)
    && (g.start == 0 && d.level >= 1 ==> m[ROOT] == m0[ROOT])
    && (d.inputTop <= d.inputBase ==> cur == d.inputBase && m == m0)
    && if IllegalBlock(g, d) then Blocked(g, m, d, cur) else FillInv(g, m0, tags0, m, d, off, cur, attr)
  }

  lemma LoopStep(g: Granule, m0: Mem, tags0: Tags, m: Mem, tags: Tags, m': Mem, tags': Tags, d: TtDesc, off: nat,
                 cur: nat, out: nat, i: nat, chunkTop: nat, attr: Attributes, ok: bool)
    requires Tree(g, m0, tags0) && RootOk(g, m0, tags0) && Inputs(g, tags0, d, off) && d.inputBase <= cur
    requires LoopAt(g, m0, tags0, m, tags, d, off, cur, attr)
    requires RootOk(g, m, tags) && Inputs(g, tags, d, off)
    requires ChunkAt(g, tags, d, off, cur, out, i, chunkTop) && (d.level == 0 ==> cur == d.inputBase)
    requires EntryFilled(g, m, tags, m', tags', d, off, cur, out, i, chunkTop, attr, ok)
    ensures cur <= chunkTop <= d.inputTop
    ensures cur == d.inputBase || Rem(cur, Size(g, d.level)) == 0
    ensures chunkTop < d.inputTop ==> Rem(chunkTop + 1, Size(g, d.level)) == 0
    ensures if ok then LoopAt(g, m0, tags0, m', tags', d, off, chunkTop + 1, attr)
            else FillDone(g, m0, tags0, m', tags', d, off, attr, false)
  {
    hide Rem, Times, Quot, Size, Walk, RoundUp, Done, EntryDone, Extends, Linked, IllegalBlock, WrongBlock, BlockTest,
      FirstBoundary, Blocked, OnBoundary, Geometry, TableInv;
    SameUnder(g, m0, tags0, m, tags, d, off);
    ExtendsTrans(g, m0, tags0, m, tags, m', tags', UnderTag(g, tags0, d));
    ChunkGuards(g, m, tags, d, off, cur, out, i, chunkTop);
    if IllegalBlock(g, d) {
      BlockedStep(g, m, tags, m', d, off, cur, out, i, chunkTop, attr);
    } else {
      NoIllegalBlock(g, d, cur, out);
      if ok { FillStep(g, m0, tags0, m, tags, m', d, off, cur, out, i, chunkTop, attr); }
    }
  }

  lemma LoopExit(g: Granule, m0: Mem, tags0: Tags, m: Mem, tags: Tags, d: TtDesc, off: nat, cur: nat, attr: Attributes)
    requires Tree(g, m0, tags0) && RootOk(g, m0, tags0) && Inputs(g, tags0, d, off) && d.inputBase <= cur
    requires LoopAt(g, m0, tags0, m, tags, d, off, cur, attr) && d.inputTop <= cur
    ensures FillDone(g, m0, tags0, m, tags, d, off, attr, true)
  {
    hide Rem, Times, Quot, Size, Walk, RoundUp, Done, Linked, IllegalBlock, TableInv;
    if IllegalBlock(g, d) {
      BoundaryInside(g, d);
    } else if d.level == 0 {
      RootExit(g, m0, m, d, off, cur, attr);
    } else {
      TableExit(g, m0, m, d, UnderTag(g, tags0, d), off, cur, attr);
    }
  }

  // Tables taken so far by a flat mapping.
  ghost predicate Thrifty(g: Granule, d: TtDesc, cur: nat, u2: seq<bool>, u3: seq<bool>, v2: seq<bool>, v3: seq<bool>)
    requires d.level <= 3 && 0 <= d.inputTop + 1
  {
    Count(v2) <= Count(u2) + Spent(g, d, 1, cur) && Count(v3) <= Count(u3) + Spent(g, d, 2, cur)
  }

  lemma ThriftyInit(g: Granule, d: TtDesc, u2: seq<bool>, u3: seq<bool>)
    requires d.level <= 3 && 0 <= d.inputTop + 1
    ensures Thrifty(g, d, d.inputBase, u2, u3, u2, u3)
  {
  }

  lemma ThriftyTotal(g: Granule, d: TtDesc, cur: nat, u2: seq<bool>, u3: seq<bool>, v2: seq<bool>, v3: seq<bool>)
    requires d.level <= 3 && 0 <= d.inputTop + 1
    ensures Thrifty(g, d, cur, u2, u3, v2, v3) ==>
              Frugal(g, d.level, d.inputBase, d.inputTop + 1, u2, u3, v2, v3)
  {
  }

  lemma SameUnder(g: Granule, m: Mem, tags: Tags, m': Mem, tags': Tags, d: TtDesc, off: nat)
    requires Tree(g, m, tags) && Inputs(g, tags, d, off) && Extends(g, m, tags, m', tags', UnderTag(g, tags, d))
    ensures d.level == 0 || d.table in tags'
    ensures UnderTag(g, tags', d) == UnderTag(g, tags, d)
  {
  }

  lemma ThriftyStep(g: Granule, d: TtDesc, cur: nat, chunkTop: nat, u2: seq<bool>, u3: seq<bool>,
                    v2: seq<bool>, v3: seq<bool>, w2: seq<bool>, w3: seq<bool>, ok: bool)
    requires d.level <= 3 && d.inputBase <= cur <= chunkTop <= d.inputTop
    requires cur == d.inputBase || Rem(cur, Size(g, d.level)) == 0
    requires chunkTop < d.inputTop ==> Rem(chunkTop + 1, Size(g, d.level)) == 0
    requires Thrifty(g, d, cur, u2, u3, v2, v3)
    requires Frugal(g, d.level, cur, chunkTop + 1, v2, v3, w2, w3)
    requires !ok ==> Starved(g, d.level, cur, chunkTop + 1, v2, v3)
    ensures Thrifty(g, d, chunkTop + 1, u2, u3, w2, w3)
    ensures Frugal(g, d.level, d.inputBase, d.inputTop + 1, u2, u3, w2, w3)
    ensures !ok ==> Starved(g, d.level, d.inputBase, d.inputTop + 1, u2, u3)
  {
    hide Rem, Size, Need, Spent, Count;
    SpentStep(g, d, 1, cur, chunkTop);
    SpentStep(g, d, 2, cur, chunkTop);
  }

  class Builder {
    const g: Granule
    const tt: array2<Entry>
    var bitsPerLevel: nat
    var l2Used: seq<bool>
    var l3Used: seq<bool>
    ghost var tags: Tags

    ghost predicate Shape() {
      tt.Length0 == TABLES && tt.Length1 == g.entries
    }

    ghost function Memory(): Mem
      reads tt
    {
      seq(tt.Length0, (t: nat) requires t < tt.Length0 reads tt =>
        seq(tt.Length1, (i: nat) requires i < tt.Length1 reads tt => tt[t, i]))
    }

    ghost predicate Valid()
      reads this, tt
    {
      Shape() && State(g, Memory(), tags, l2Used, l3Used)
    }

    // The statically allocated tables, zeroed.
    constructor (g: Granule)
      ensures Valid() && this.g == g && fresh(tt) && tags == map[Home(g) := HomeTag(g)]
      ensures forall t | 0 <= t < TABLES :: Zeroed(Memory(), t)
      ensures Count(l2Used) == 0 && Count(l3Used) == 0
    {
      this.g := g;
      tt := new Entry[TABLES, g.entries]((t, i) => Invalid);
      bitsPerLevel := 0;
      l2Used, l3Used := seq(L2_POOL, _ => false), seq(L3_POOL, _ => false);
      tags := map[Home(g) := HomeTag(g)];
      new;
      CountNone(l2Used);
      CountNone(l3Used);
      assert forall t | 0 <= t < TABLES :: |Memory()[t]| == g.entries && Zeroed(Memory(), t);
    }

    method Store(t: nat, i: nat, e: Entry)
      requires Shape() && t < TABLES && i < g.entries
      modifies tt
      ensures Memory() == Put(old(Memory()), t, i, e)
    {
      tt[t, i] := e;
      assert Memory()[t] == old(Memory())[t][i := e];
      assert forall u | 0 <= u < TABLES && u != t :: Memory()[u] == old(Memory())[u];
    }

    // The if-chains of lines 189-253 and 257-381.
    static method FirstUnused(used: seq<bool>) returns (k: nat)
      ensures k <= |used|
      ensures k < |used| ==> !used[k]
      ensures forall j | 0 <= j < k :: used[j]
    {
      k := 0;
      while k < |used| && used[k]
        invariant k <= |used| && forall j | 0 <= j < k :: used[j]
      {
        k := k + 1;
      }
    }

    // Lines 184-391: the table that a table descriptor at this entry will point to.
    method NextTable(level: nat, e: Entry) returns (ok: bool, c: nat)
      requires |l2Used| == L2_POOL && |l3Used| == L3_POOL && level < 3 && !e.Page?
      modifies this`l2Used, this`l3Used
      ensures e.Table? ==> ok && c == e.id && l2Used == old(l2Used) && l3Used == old(l3Used)
      ensures !e.Table? && level == 0 ==> ok && c == L1_TABLE && l2Used == old(l2Used) && l3Used == old(l3Used)
      ensures !e.Table? && level == 1 && ok ==>
                L2_FIRST <= c < L3_FIRST && !old(l2Used)[c - L2_FIRST]
                && l2Used == old(l2Used)[c - L2_FIRST := true] && l3Used == old(l3Used)
      ensures !e.Table? && level == 2 && ok ==>
                L3_FIRST <= c < TABLES && !old(l3Used)[c - L3_FIRST]
                && l3Used == old(l3Used)[c - L3_FIRST := true] && l2Used == old(l2Used)
      ensures !ok ==> level >= 1 && !e.Table? && l2Used == old(l2Used) && l3Used == old(l3Used)
      ensures Count(l2Used) <= Count(old(l2Used)) + (if level == 1 then 1 else 0)
      ensures Count(l3Used) <= Count(old(l3Used)) + (if level == 2 then 1 else 0)
      ensures !ok ==> if level == 1 then Count(l2Used) == L2_POOL else level == 2 && Count(l3Used) == L3_POOL
    {
      hide Count;
      ok, c := true, L1_TABLE;
      if e.Invalid? || e.Block? {
        if level == 1 {
          var k := FirstUnused(l2Used);
          if k == L2_POOL {
            CountFull(l2Used);
            return false, c;
          }
          CountSet(l2Used, k);
          l2Used := l2Used[k := true];
          c := L2_FIRST + k;
        } else if level == 2 {
          var k := FirstUnused(l3Used);
          if k == L3_POOL {
            CountFull(l3Used);
            return false, c;
          }
          CountSet(l3Used, k);
          l3Used := l3Used[k := true];
          c := L3_FIRST + k;
        }
      } else {
        c := e.id;
      }
    }

    // Lines 184-394: select the next table and install its descriptor.
    method Install(t: nat, level: nat, i: nat) returns (ok: bool, next: nat)
      requires Valid() && level < 3 && i < g.entries
      requires if level == 0 then g.start == 0 && t == ROOT else t in tags && tags[t].level == level
      modifies this`l2Used, this`l3Used, this`tags, tt
      ensures Valid()
      ensures !ok ==> Memory() == old(Memory()) && tags == old(tags)
      ensures ok ==> Memory() == Put(old(Memory()), t, i, Table(next))
      ensures ok && level == 0 ==> next == L1_TABLE && tags == old(tags)
      ensures ok && level >= 1 ==> Installs(g, old(Memory()), old(tags), t, i, next, tags)
      ensures g.start == 0 && level >= 1 ==> Memory()[ROOT] == old(Memory())[ROOT]
      ensures Count(l2Used) <= Count(old(l2Used)) + (if level == 1 then 1 else 0)
      ensures Count(l3Used) <= Count(old(l3Used)) + (if level == 2 then 1 else 0)
      ensures !ok ==> if level == 1 then Count(old(l2Used)) == L2_POOL else level == 2 && Count(old(l3Used)) == L3_POOL
      ensures !ok ==> PoolFull(l2Used, l3Used)
    {
      hide Rem, Times, Quot, Size, Walk, Count;
      ghost var m, tags0 := Memory(), tags;
      var e := tt[t, i];
      assert e == m[t][i];
      if level >= 1 { assert EntryLinked(g, tags, tags[t], i, m[t][i]); }
      ok, next := NextTable(level, e);
      if !ok { return; }
      if level >= 1 && !e.Table? {
        tags := tags[next := Child(g, tags[t], i)];
      }
      Store(t, i, Table(next));
      if level == 0 {
        RootBranch(g, m, tags0, i, Table(next));
      } else {
        InstallState(g, m, tags0, old(l2Used), old(l3Used), t, i, next, tags, l2Used, l3Used);
      }
    }

    // The body of the loop of lines 115-414 for the chunk [cur, chunkTop].
    method FillEntry(d: TtDesc, size: nat, cur: nat, out: nat, i: nat, chunkTop: nat, attr: Attributes, ghost off: nat)
      returns (ok: bool)
      requires Valid() && Inputs(g, tags, d, off) && Geometry(g, bitsPerLevel, d)
      requires ChunkAt(g, tags, d, off, cur, out, i, chunkTop) && size == Size(g, d.level)
      requires d.level == 0 ==> cur == d.inputBase
      modifies this`l2Used, this`l3Used, this`tags, tt
      decreases 3 - d.level, 0
      ensures Valid() && bitsPerLevel == old(bitsPerLevel)
      ensures EntryFilled(g, old(Memory()), old(tags), Memory(), tags, d, off, cur, out, i, chunkTop, attr, ok)
      ensures !ok ==> PoolFull(l2Used, l3Used)
      ensures cur == out ==> Frugal(g, d.level, cur, chunkTop + 1, old(l2Used), old(l3Used), l2Used, l3Used)
      ensures cur == out && !ok ==> Starved(g, d.level, cur, chunkTop + 1, old(l2Used), old(l3Used))
    {
      hide Rem, Times, Quot, Size, Walk, RoundUp;
      ghost var m := Memory();
      if d.level >= 1 { ChunkReduced(g, tags, d, off, cur, out, i, chunkTop); }
      if d.level == 3 {
        var e := Page(out - Rem(out, g.page), attr);
        LeafBranch(g, m, tags, d, off, cur, out, i, chunkTop, e, attr);
        LeafState(g, m, tags, l2Used, l3Used, d.table, i, e);
        Store(d.table, i, e);
        return true;
      }
      if Rem(cur, size) == 0 && Rem(out, size) == 0 && d.inputTop >= cur + size - 1 {
        var e := Block(out - Rem(out, size), attr);
        if d.level == 0 {
          RootBranch(g, m, tags, i, e);
        } else {
          LeafExtends(g, m, tags, d.table, i, e, out, attr);
          if g.minBlock <= d.level { LeafBranch(g, m, tags, d, off, cur, out, i, chunkTop, e, attr); }
          LeafState(g, m, tags, l2Used, l3Used, d.table, i, e);
        }
        Store(d.table, i, e);
        return true;
      }
      ok := Descend(d, cur, out, i, chunkTop, attr, off);
    }

    // Lines 184-413: select a table, install its descriptor and recurse.
    method Descend(d: TtDesc, cur: nat, out: nat, i: nat, chunkTop: nat, attr: Attributes, ghost off: nat)
      returns (ok: bool)
      requires Valid() && Inputs(g, tags, d, off) && Geometry(g, bitsPerLevel, d)
      requires ChunkAt(g, tags, d, off, cur, out, i, chunkTop)
      requires d.level < 3 && (d.level == 0 ==> cur == d.inputBase)
      requires !BlockTest(g, d, cur, out)
      modifies this`l2Used, this`l3Used, this`tags, tt
      decreases 2 - d.level, 2
      ensures Valid() && bitsPerLevel == old(bitsPerLevel)
      ensures EntryFilled(g, old(Memory()), old(tags), Memory(), tags, d, off, cur, out, i, chunkTop, attr, ok)
      ensures !ok ==> PoolFull(l2Used, l3Used)
      ensures cur == out ==> Frugal(g, d.level, cur, chunkTop + 1, old(l2Used), old(l3Used), l2Used, l3Used)
      ensures cur == out && !ok ==> Starved(g, d.level, cur, chunkTop + 1, old(l2Used), old(l3Used))
    {
      hide Rem, Times, Quot, Size, Walk, RoundUp, Ends, Count, Done, EntryDone, Extends, PoolFree, Blocked, Geometry,
        IllegalBlock, FirstBoundary, FillInv, OnBoundary, PoolFull;
      ghost var m, tags0 := Memory(), tags;
      if d.level >= 1 && cur == out { DescendNeeds(g, tags, d, off, cur, out, i, chunkTop); }
      var next;
      FillInit(g, m, tags0, d, off, attr);
      ok, next := Install(d.table, d.level, i);
      if !ok { return; }
      ghost var tags1, l2Used1, l3Used1 := tags, l2Used, l3Used;
      DescendReady(g, bitsPerLevel, m, tags0, d, off, cur, out, i, chunkTop, tags, next);
      var d1 := TtDesc(next, cur, chunkTop, out, d.level + 1, d.sizeLog2 - bitsPerLevel, bitsPerLevel);
      ok := Fill(d1, attr, off);
      DescendDone(g, m, tags0, d, off, cur, out, i, chunkTop, next, tags1, Memory(), tags, attr, ok);
      if cur == out {
        FrugalDescend(g, d.level, cur, chunkTop + 1, old(l2Used), old(l3Used), l2Used1, l3Used1, l2Used, l3Used, ok);
      }
    }

    // fill_translation_table
    method Fill(d: TtDesc, attr: Attributes, ghost off: nat) returns (ok: bool)
      requires Valid() && Inputs(g, tags, d, off) && Geometry(g, bitsPerLevel, d)
      modifies this`l2Used, this`l3Used, this`tags, tt
      decreases 3 - d.level, 1
      ensures Valid() && bitsPerLevel == old(bitsPerLevel)
      ensures FillDone(g, old(Memory()), old(tags), Memory(), tags, d, off, attr, ok)
      ensures !ok ==> PoolFull(l2Used, l3Used)
      ensures d.inputBase == d.outputBase ==>
                Frugal(g, d.level, d.inputBase, d.inputTop + 1, old(l2Used), old(l3Used), l2Used, l3Used)
      ensures d.inputBase == d.outputBase && !ok ==>
                Starved(g, d.level, d.inputBase, d.inputTop + 1, old(l2Used), old(l3Used))
    {
      hide Rem, Times, Quot, Size, Walk, RoundUp, Ends, Count, LoopAt, FillDone, EntryFilled, Linked, PoolFree, Need, Spent,
        Thrifty, Frugal, Starved, PoolFull;
      ghost var m0, tags0, u2, u3 := Memory(), tags, l2Used, l3Used;
      var size, width := Pow2(d.sizeLog2), Pow2(d.nbits);
      var cur, out := d.inputBase, d.outputBase;
      FillInit(g, m0, tags0, d, off, attr);
      ThriftyInit(g, d, u2, u3);
      while cur < d.inputTop
        invariant Valid() && bitsPerLevel == old(bitsPerLevel)
        invariant d.inputBase <= cur <= d.inputTop + 1 && out == d.outputBase + (cur - d.inputBase)
        invariant LoopAt(g, m0, tags0, Memory(), tags, d, off, cur, attr)
        invariant d.inputBase == d.outputBase ==> Thrifty(g, d, cur, u2, u3, l2Used, l3Used)
        decreases d.inputTop - cur
      {
        ghost var m, tags1, v2, v3 := Memory(), tags, l2Used, l3Used;
        FillChunk(g, bitsPerLevel, m0, tags0, m, tags, d, off, cur, out, attr);
        var chunkTop := Min(d.inputTop, cur - Rem(cur, size) + size - 1);
        var i := Rem(Quot(cur, size), width);
        ok := FillEntry(d, size, cur, out, i, chunkTop, attr, off);
        LoopStep(g, m0, tags0, m, tags1, Memory(), tags, d, off, cur, out, i, chunkTop, attr, ok);
        if d.inputBase == d.outputBase {
          ThriftyStep(g, d, cur, chunkTop, u2, u3, v2, v3, l2Used, l3Used, ok);
        }
        if !ok { return; }
        cur, out := chunkTop + 1, out + (chunkTop - cur + 1);
      }
      ok := true;
      ThriftyTotal(g, d, cur, u2, u3, l2Used, l3Used);
      LoopExit(g, m0, tags0, Memory(), tags, d, off, cur, attr);
    }
  }
}
