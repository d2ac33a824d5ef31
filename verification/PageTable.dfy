/** The meaning of a VMSAv8-64 stage-1 translation table, independent of how it was built.

    A table is a sequence of descriptors, memory is a sequence of tables, and `Walk` is the
    hardware table walk.  Every table in use carries a ghost `Tag`: its level and the first
    address it translates.  Tags make walks local: a walk for address y only visits tables
    whose region contains y.

    The root of a level-0 (4KB granule) walk is kept apart.  Below it, addresses are taken
    modulo `Size(g, 0)`, because a level-0 index says nothing about the levels under it. */
module PageTable {
  import opened Arith

  // A translation granule: page size, descriptors per table (one page of 8-byte descriptors),
  // first level of a 40-bit walk, and first level at which the architecture accepts a block
  // descriptor (without FEAT_LPA2).
  datatype GranuleInfo = Info(page: nat, entries: nat, start: nat, minBlock: nat)

  type Granule = g: GranuleInfo | g.page > 1 && g.entries > 1 && g.start <= 2 && 1 <= g.minBlock <= g.start + 1
    witness Info(4096, 512, 0, 1)

  const GRANULE_4K: Granule := Info(4096, 512, 0, 1)
  const GRANULE_16K: Granule := Info(16384, 2048, 1, 2)
  const GRANULE_64K: Granule := Info(65536, 8192, 2, 2)

  type Attributes = bv64

  datatype Entry =
    | Invalid
    | Block(pa: nat, attr: Attributes)
    | Page(pa: nat, attr: Attributes)
    | Table(id: nat)

  type Mem = seq<seq<Entry>>

  datatype Outcome = Fault | Mapped(pa: nat, attr: Attributes, span: nat)

  datatype Tag = Tag(level: nat, base: nat)

  type Tags = map<nat, Tag>

  // Bytes translated by one descriptor of a level.
  function Size(g: Granule, level: nat): (r: nat)
    requires level <= 3
    ensures r > 0
    decreases 3 - level
  {
    if level == 3 then g.page else Times(g.entries, Size(g, level + 1))
  }

  // Bytes translated by a whole table of a level.
  function TableSize(g: Granule, level: nat): (r: nat)
    requires level <= 3
    ensures r >= Size(g, level)
  {
    Times(g.entries, Size(g, level))
  }

  // The index field of an address: shift by the level's size, mask to one table.
  function Index(g: Granule, level: nat, y: nat): (r: nat)
    requires level <= 3
    ensures r < g.entries
  {
    Rem(Quot(y, Size(g, level)), g.entries)
  }

  ghost predicate Shaped(g: Granule, m: Mem) {
    forall t | 0 <= t < |m| :: |m[t]| == g.entries
  }

  // The walk below level 0.  `span` is the size of the descriptor that ended it.
  function Walk(g: Granule, m: Mem, t: nat, level: nat, y: nat): (r: Outcome)
    requires 1 <= level <= 3
    decreases 3 - level
  {
    if t >= |m| || Index(g, level, y) >= |m[t]| then Fault
    else
      match m[t][Index(g, level, y)]
      case Invalid => Fault
      case Block(pa, attr) =>
        if g.minBlock <= level < 3 then Mapped(pa + Rem(y, Size(g, level)), attr, Size(g, level)) else Fault
      case Page(pa, attr) =>
        if level == 3 then Mapped(pa + Rem(y, Size(g, level)), attr, Size(g, level)) else Fault
      case Table(id) =>
        if level < 3 then Walk(g, m, id, level + 1, y) else Fault
  }

  // ---------------------------------------------------------------- regions and entries

  ghost predicate InRegion(g: Granule, tag: Tag, y: nat)
    requires tag.level <= 3
  {
    tag.base <= y < tag.base + TableSize(g, tag.level)
  }

  // First address of descriptor i.
  function EntryStart(g: Granule, tag: Tag, i: nat): (r: nat)
    requires tag.level <= 3
  {
    tag.base + Times(i, Size(g, tag.level))
  }

  ghost predicate InEntry(g: Granule, tag: Tag, i: nat, y: nat)
    requires tag.level <= 3
  {
    EntryStart(g, tag, i) <= y < EntryStart(g, tag, i) + Size(g, tag.level)
  }

  ghost predicate Aligned(g: Granule, tag: Tag) {
    1 <= tag.level <= 3 && Rem(tag.base, TableSize(g, tag.level)) == 0
  }

  // The index field of an address in a table's region is the entry that contains it.
  lemma IndexInEntry(g: Granule, tag: Tag, y: nat)
    requires Aligned(g, tag) && InRegion(g, tag, y)
    ensures InEntry(g, tag, Index(g, tag.level, y), y)
    ensures Rem(y, Size(g, tag.level)) == y - EntryStart(g, tag, Index(g, tag.level, y))
  {
    Digit(tag.base, y, g.entries, Size(g, tag.level));
  }

  // Distinct entries of one table translate disjoint ranges.
  lemma EntriesDisjoint(g: Granule, tag: Tag, i: nat, j: nat, y: nat)
    requires tag.level <= 3
    requires InEntry(g, tag, i, y) && InEntry(g, tag, j, y)
    ensures i == j
  {
    if i < j { TimesLess(i, j, Size(g, tag.level)); }
    if j < i { TimesLess(j, i, Size(g, tag.level)); }
  }

  lemma EntryIndex(g: Granule, tag: Tag, i: nat, y: nat)
    requires Aligned(g, tag) && i < g.entries && InEntry(g, tag, i, y)
    ensures InRegion(g, tag, y) && Index(g, tag.level, y) == i
    ensures Rem(y, Size(g, tag.level)) == y - EntryStart(g, tag, i)
  {
    TimesLess(i, g.entries, Size(g, tag.level));
    IndexInEntry(g, tag, y);
    EntriesDisjoint(g, tag, i, Index(g, tag.level, y), y);
  }

  // The table under entry i: one level down, and its region is exactly that entry.
  function Child(g: Granule, tag: Tag, i: nat): (r: Tag)
    requires tag.level < 3
    ensures r.level == tag.level + 1 && TableSize(g, r.level) == Size(g, tag.level)
  {
    Tag(tag.level + 1, EntryStart(g, tag, i))
  }

  lemma ChildAligned(g: Granule, tag: Tag, i: nat)
    requires Aligned(g, tag) && tag.level < 3
    ensures Aligned(g, Child(g, tag, i))
    ensures forall y: nat :: InRegion(g, Child(g, tag, i), y) <==> InEntry(g, tag, i, y)
  {
    var s := Size(g, tag.level);
    RemTimes(g.entries, s);
    MultipleOfMultiple(tag.base, TableSize(g, tag.level), s);
    RemTimes(i, s);
    AddMultiple(tag.base, Times(i, s), s);
  }

  // ---------------------------------------------------------------- the tree invariant

  // Every table descriptor in a tagged table leads to a tagged table, one level down, that
  // covers exactly the descriptor's own range.
  ghost predicate Linked(g: Granule, m: Mem, tags: Tags) {
    && (forall t | t in tags :: t < |m| && Aligned(g, tags[t]))
    && (forall t, i | t in tags && 0 <= i < |m[t]| ::
          EntryLinked(g, tags, tags[t], i, m[t][i]))
  }

  ghost predicate EntryLinked(g: Granule, tags: Tags, tag: Tag, i: nat, e: Entry) {
    match e
    case Invalid => true
    case Block(_, _) => tag.level < 3
    case Page(_, _) => tag.level == 3
    case Table(id) => tag.level < 3 && id in tags && tags[id] == Child(g, tag, i)
  }

  // m' agrees with m on the descriptor of y in every tagged table whose region contains y.
  ghost predicate SameOnPath(g: Granule, m: Mem, m': Mem, tags: Tags, y: nat)
    requires Shaped(g, m) && Shaped(g, m') && Linked(g, m, tags) && |m'| == |m|
  {
    forall t | t in tags && InRegion(g, tags[t], y) ::
      m'[t][Index(g, tags[t].level, y)] == m[t][Index(g, tags[t].level, y)]
  }

  // Locality: a walk only depends on the descriptors of the tables that cover its address.
  lemma {:induction false} WalkLocal(g: Granule, m: Mem, m': Mem, tags: Tags, t: nat, y: nat)
    requires Shaped(g, m) && Shaped(g, m') && Linked(g, m, tags) && |m'| == |m|
    requires t in tags && InRegion(g, tags[t], y) && SameOnPath(g, m, m', tags, y)
    ensures Walk(g, m', t, tags[t].level, y) == Walk(g, m, t, tags[t].level, y)
    decreases 3 - tags[t].level
  {
    var i := Index(g, tags[t].level, y);
    assert m'[t][i] == m[t][i];
    if m[t][i].Table? {
      IndexInEntry(g, tags[t], y);
      ChildAligned(g, tags[t], i);
      WalkLocal(g, m, m', tags, m[t][i].id, y);
    }
  }

  // ---------------------------------------------------------------- one mapping call

  ghost predicate Translates(o: Outcome, pa: nat, attr: Attributes) {
    o.Mapped? && o.pa == pa && o.attr == attr
  }

  // The descriptor that translated y covers more than y and meets the range [lo, hi).
  ghost predicate Shattered(o: Outcome, y: nat, lo: nat, hi: nat) {
    lo < hi && o.Mapped? && o.span > 0 && y - Rem(y, o.span) < hi && lo < y - Rem(y, o.span) + o.span
  }

  ghost predicate Kept(before: Outcome, after: Outcome, y: nat, lo: nat, hi: nat) {
    after == before || (after == Fault && Shattered(before, y, lo, hi))
  }

  // From table t, [lo, hi) now translates to pa onwards and every other address is kept.
  ghost predicate Done(g: Granule, m: Mem, m': Mem, t: nat, tag: Tag, lo: nat, hi: nat, pa: nat, attr: Attributes)
    requires 1 <= tag.level <= 3
  {
    forall y: nat | InRegion(g, tag, y) ::
      if lo <= y < hi then Translates(Walk(g, m', t, tag.level, y), pa + (y - lo), attr)
      else Kept(Walk(g, m, t, tag.level, y), Walk(g, m', t, tag.level, y), y, lo, hi)
  }

  ghost predicate Untouched(g: Granule, m: Mem, m': Mem, t: nat, tag: Tag, from: nat)
    requires 1 <= tag.level <= 3
  {
    forall y: nat | InRegion(g, tag, y) && from <= y ::
      Walk(g, m', t, tag.level, y) == Walk(g, m, t, tag.level, y)
  }

  // The work done for descriptor i alone.
  ghost predicate EntryDone(g: Granule, m: Mem, m': Mem, t: nat, tag: Tag, i: nat,
                            cur: nat, nxt: nat, pa: nat, attr: Attributes)
    requires 1 <= tag.level <= 3
  {
    forall y: nat | InRegion(g, tag, y) ::
      if !InEntry(g, tag, i, y) then Walk(g, m', t, tag.level, y) == Walk(g, m, t, tag.level, y)
      else if cur <= y < nxt then Translates(Walk(g, m', t, tag.level, y), pa + (y - cur), attr)
      else Kept(Walk(g, m, t, tag.level, y), Walk(g, m', t, tag.level, y), y, cur, nxt)
  }

  ghost predicate Within(g: Granule, inner: Tag, outer: Tag)
    requires inner.level <= 3 && outer.level <= 3
  {
    && outer.base <= inner.base
    && inner.base + TableSize(g, inner.level) <= outer.base + TableSize(g, outer.level)
  }

  ghost predicate Tree(g: Granule, m: Mem, tags: Tags) {
    Shaped(g, m) && Linked(g, m, tags)
  }

  // The tree grew from (m, tags) to (m', tags'), and only tables under `tag` changed.
  ghost predicate Extends(g: Granule, m: Mem, tags: Tags, m': Mem, tags': Tags, tag: Tag)
    requires tag.level <= 3
  {
    && Tree(g, m, tags) && Tree(g, m', tags') && |m'| == |m|
    && (forall t | t in tags :: t in tags' && tags'[t] == tags[t])
    && (forall t | t in tags && !Within(g, tags[t], tag) :: m'[t] == m[t])
  }

  lemma Advance(g: Granule, m0: Mem, m: Mem, m': Mem, t: nat, tag: Tag, i: nat,
                lo: nat, cur: nat, nxt: nat, pa: nat, attr: Attributes)
    requires 1 <= tag.level <= 3
    requires Done(g, m0, m, t, tag, lo, cur, pa, attr)
    requires Untouched(g, m0, m, t, tag, EntryStart(g, tag, i))
    requires InEntry(g, tag, i, cur) && lo <= cur < nxt
    requires nxt <= EntryStart(g, tag, i) + Size(g, tag.level)
    requires cur == lo || cur == EntryStart(g, tag, i)
    requires EntryDone(g, m, m', t, tag, i, cur, nxt, pa + (cur - lo), attr)
    ensures Done(g, m0, m', t, tag, lo, nxt, pa, attr)
    ensures Untouched(g, m0, m', t, tag, EntryStart(g, tag, i) + Size(g, tag.level))
  {
  }

  // Only entry i of table t and tables under that entry changed: other walks are the same.
  lemma OtherEntries(g: Granule, m: Mem, tags: Tags, m': Mem, t: nat, i: nat, y: nat)
    requires Tree(g, m, tags) && Shaped(g, m') && |m'| == |m|
    requires t in tags && i < g.entries && InRegion(g, tags[t], y) && !InEntry(g, tags[t], i, y)
    requires forall j | 0 <= j < g.entries && j != i :: m'[t][j] == m[t][j]
    requires forall u | u in tags && u != t && m'[u] != m[u] ::
               tags[t].level < 3 && Within(g, tags[u], Child(g, tags[t], i))
    ensures Walk(g, m', t, tags[t].level, y) == Walk(g, m, t, tags[t].level, y)
  {
    forall u | u in tags && InRegion(g, tags[u], y)
      ensures m'[u][Index(g, tags[u].level, y)] == m[u][Index(g, tags[u].level, y)]
    {
      if u == t {
        IndexInEntry(g, tags[t], y);
      } else if m'[u] != m[u] {
        ChildAligned(g, tags[t], i);
      }
    }
    WalkLocal(g, m, m', tags, t, y);
  }

  function Put(m: Mem, t: nat, i: nat, e: Entry): (r: Mem)
    requires t < |m| && i < |m[t]|
  {
    m[t := m[t][i := e]]
  }

  ghost predicate IsLeaf(e: Entry, level: nat, pa: nat, attr: Attributes) {
    e == if level == 3 then Page(pa, attr) else Block(pa, attr)
  }

  // A block or page descriptor keeps the tree, whether or not the architecture has blocks at its level.
  lemma LeafExtends(g: Granule, m: Mem, tags: Tags, t: nat, i: nat, e: Entry, pa: nat, attr: Attributes)
    requires Tree(g, m, tags) && t in tags && i < g.entries && IsLeaf(e, tags[t].level, pa, attr)
    ensures Extends(g, m, tags, Put(m, t, i, e), tags, tags[t])
  {
  }

  // Writing a block or page descriptor over a whole entry (lines 145-177).
  lemma LeafEntry(g: Granule, m: Mem, tags: Tags, t: nat, i: nat, cur: nat, e: Entry, pa: nat, attr: Attributes)
    requires Tree(g, m, tags) && t in tags && i < g.entries
    requires cur == EntryStart(g, tags[t], i)
    requires IsLeaf(e, tags[t].level, pa, attr) && g.minBlock <= tags[t].level
    ensures Extends(g, m, tags, Put(m, t, i, e), tags, tags[t])
    ensures EntryDone(g, m, Put(m, t, i, e), t, tags[t], i, cur, cur + Size(g, tags[t].level), pa, attr)
  {
    var m', tag := Put(m, t, i, e), tags[t];
    forall y: nat | InRegion(g, tag, y)
      ensures !InEntry(g, tag, i, y) ==> Walk(g, m', t, tag.level, y) == Walk(g, m, t, tag.level, y)
      ensures InEntry(g, tag, i, y) ==> Translates(Walk(g, m', t, tag.level, y), pa + (y - cur), attr)
    {
      if InEntry(g, tag, i, y) {
        EntryIndex(g, tag, i, y);
      } else {
        OtherEntries(g, m, tags, m', t, i, y);
      }
    }
  }

  ghost predicate Zeroed(m: Mem, t: nat) {
    t < |m| && forall i | 0 <= i < |m[t]| :: m[t][i] == Invalid
  }

  // A table descriptor installed at entry i: an existing child, or a zeroed pool table that
  // replaces an invalid or block descriptor (lines 184-394).
  ghost predicate Installs(g: Granule, m: Mem, tags: Tags, t: nat, i: nat, c: nat, tags1: Tags)
    requires Tree(g, m, tags) && t in tags && i < g.entries
  {
    && tags[t].level < 3 && c < |m|
    && (if m[t][i].Table? then m[t][i].id == c && tags1 == tags
        else c !in tags && Zeroed(m, c) && tags1 == tags[c := Child(g, tags[t], i)])
  }

  lemma InstallTree(g: Granule, m: Mem, tags: Tags, t: nat, i: nat, c: nat, tags1: Tags)
    requires Tree(g, m, tags) && t in tags && i < g.entries && Installs(g, m, tags, t, i, c, tags1)
    ensures Tree(g, Put(m, t, i, Table(c)), tags1)
    ensures Extends(g, m, tags, Put(m, t, i, Table(c)), tags1, tags[t])
    ensures c in tags1 && tags1[c] == Child(g, tags[t], i)
  {
    ChildAligned(g, tags[t], i);
    assert EntryLinked(g, tags, tags[t], i, m[t][i]);
    var m1 := Put(m, t, i, Table(c));
    forall u, j | u in tags1 && 0 <= j < |m1[u]|
      ensures EntryLinked(g, tags1, tags1[u], j, m1[u][j])
    {
      if u in tags { assert EntryLinked(g, tags, tags[u], j, m[u][j]); }
    }
  }

  // A child table is strictly smaller than its parent.
  lemma ChildSmaller(g: Granule, tag: Tag, i: nat)
    requires 1 <= tag.level < 3 && i < g.entries
    ensures Within(g, Child(g, tag, i), tag) && !Within(g, tag, Child(g, tag, i))
  {
    TimesLess(i, g.entries, Size(g, tag.level));
    TimesLess(1, g.entries, Size(g, tag.level));
  }

  // The recursive call for the entry's chunk (lines 399-413).
  lemma TableEntry(g: Granule, m: Mem, tags: Tags, t: nat, i: nat, c: nat, tags1: Tags, m2: Mem, tags2: Tags,
                   cur: nat, nxt: nat, pa: nat, attr: Attributes)
    requires Tree(g, m, tags) && t in tags && i < g.entries && Installs(g, m, tags, t, i, c, tags1)
    requires InEntry(g, tags[t], i, cur) && cur < nxt
    requires Extends(g, Put(m, t, i, Table(c)), tags1, m2, tags2, Child(g, tags[t], i))
    requires Done(g, Put(m, t, i, Table(c)), m2, c, Child(g, tags[t], i), cur, nxt, pa, attr)
    ensures Extends(g, m, tags, m2, tags2, tags[t])
    ensures EntryDone(g, m, m2, t, tags[t], i, cur, nxt, pa, attr)
  {
    hide Rem, Times, Quot, Size;
    var m1, tag := Put(m, t, i, Table(c)), tags[t];
    InstallTree(g, m, tags, t, i, c, tags1);
    ChildSmaller(g, tag, i);
    ChildAligned(g, tag, i);
    assert m2[t] == m1[t];
    forall y: nat | InRegion(g, tag, y) && InEntry(g, tag, i, y)
      ensures if cur <= y < nxt then Translates(Walk(g, m2, t, tag.level, y), pa + (y - cur), attr)
              else Kept(Walk(g, m, t, tag.level, y), Walk(g, m2, t, tag.level, y), y, cur, nxt)
    {
      ChildOutcome(g, m, tags, t, i, c, tags1, m2, y);
    }
    forall y: nat | InRegion(g, tag, y) && !InEntry(g, tag, i, y)
      ensures Walk(g, m2, t, tag.level, y) == Walk(g, m, t, tag.level, y)
    {
      OtherEntries(g, m, tags, m2, t, i, y);
    }
  }

  // A walk that reaches entry i continues in the child, whose old answer was the entry's own
  // unless a block descriptor was replaced.
  lemma ChildOutcome(g: Granule, m: Mem, tags: Tags, t: nat, i: nat, c: nat, tags1: Tags, m2: Mem, y: nat)
    requires Tree(g, m, tags) && t in tags && i < g.entries && Installs(g, m, tags, t, i, c, tags1)
    requires Shaped(g, m2) && |m2| == |m| && m2[t][i] == Table(c) && InEntry(g, tags[t], i, y)
    ensures Walk(g, m2, t, tags[t].level, y) == Walk(g, m2, c, tags[t].level + 1, y)
    ensures var before := Walk(g, m, t, tags[t].level, y);
            var child := Walk(g, Put(m, t, i, Table(c)), c, tags[t].level + 1, y);
            child == before || (child == Fault && before.Mapped? && before.span == Size(g, tags[t].level))
    ensures Rem(y, Size(g, tags[t].level)) == y - EntryStart(g, tags[t], i)
  {
    EntryIndex(g, tags[t], i, y);
    BeforeInstall(g, m, tags, t, i, c, tags1, y);
  }

  // What the installed child translates before the recursive call.
  lemma BeforeInstall(g: Granule, m: Mem, tags: Tags, t: nat, i: nat, c: nat, tags1: Tags, y: nat)
    requires Tree(g, m, tags) && t in tags && i < g.entries && Installs(g, m, tags, t, i, c, tags1)
    requires Index(g, tags[t].level, y) == i
    ensures var before := Walk(g, m, t, tags[t].level, y);
            var child := Walk(g, Put(m, t, i, Table(c)), c, tags[t].level + 1, y);
            child == before || (child == Fault && before.Mapped? && before.span == Size(g, tags[t].level))
  {
    assert EntryLinked(g, tags, tags[t], i, m[t][i]);
    if m[t][i].Table? {
      assert m[t][i := Table(c)] == m[t];
      assert Put(m, t, i, Table(c)) == m;
    } else {
      ZeroedWalk(g, Put(m, t, i, Table(c)), c, tags[t].level + 1, y);
    }
  }

  lemma ZeroedWalk(g: Granule, m: Mem, t: nat, level: nat, y: nat)
    requires 1 <= level <= 3 && Zeroed(m, t)
    ensures Walk(g, m, t, level, y) == Fault
  {
  }
}
