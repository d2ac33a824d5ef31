/** Whole runs of mapping calls (`val_map_endpoint_region`), and what the built tables are: a tree
    in which no table is shared, except for the one sharing that line 385 builds in. */
module EndpointRuns {
  import opened Arith
  import opened PageTable
  import opened PageTableBuilder
  import opened EndpointMapping

  // ---------------------------------------------------------------- blocks translate as a whole

  lemma SameQuot(x: nat, z: nat, s: nat, u: nat)
    requires s > 0 && u > 0 && Rem(u, s) == 0 && x - Rem(x, s) == z - Rem(z, s)
    ensures Quot(x, u) == Quot(z, u)
  {
    hide Rem, Times, Quot;
    QuotRem(x, u);
    var q := Quot(x, u);
    var start := Times(q, u);
    RemTimes(q, u);
    MultipleOfMultiple(start, u, s);
    RemSelf(u);
    AddMultiple(start, u, u);
    MultipleOfMultiple(start + u, u, s);
    var b := x - Rem(x, s);
    RemFloor(x, s);
    if b < start { MultiplesApart(b, start, s); }
    MultiplesApart(b, start + u, s);
    QuotUnique(z, u, q);
  }

  // The descriptor that translates x translates its whole span.
  lemma {:induction false} BlockShared(g: Granule, m: Mem, t: nat, level: nat, x: nat, z: nat)
    requires 1 <= level <= 3 && Walk(g, m, t, level, x).Mapped? && Walk(g, m, t, level, x).span > 0
    requires x - Rem(x, Walk(g, m, t, level, x).span) == z - Rem(z, Walk(g, m, t, level, x).span)
    ensures Walk(g, m, t, level, z).Mapped?
    ensures Rem(Size(g, level), Walk(g, m, t, level, x).span) == 0
    decreases 3 - level
  {
    hide Rem, Quot, Times, Size;
    var s, u := Walk(g, m, t, level, x).span, Size(g, level);
    var e := m[t][Index(g, level, x)];
    if e.Table? {
      BlockShared(g, m, e.id, level + 1, x, z);
      SizeMultiple(g, level, level + 1);
      MultipleOfMultiple(u, Size(g, level + 1), s);
    } else {
      RemSelf(u);
    }
    SameQuot(x, z, s, u);
  }

  lemma TranslateShared(g: Granule, m: Mem, tags: Tags, x: nat, z: nat)
    requires IsGranule(g) && RootOk(g, m, tags) && Translate(g, m, x).Mapped? && Translate(g, m, x).span > 0
    requires x - Rem(x, Translate(g, m, x).span) == z - Rem(z, Translate(g, m, x).span)
    ensures Translate(g, m, z).Mapped?
  {
    hide Rem, Quot, Times, Size, Walk;
    var level := HomeTag(g).level;
    BlockShared(g, m, Home(g), level, x, z);
    if g.start == 0 {
      SizeMultiple(g, 0, 1);
      MultipleOfMultiple(Size(g, 0), Size(g, 1), Translate(g, m, x).span);
      SameQuot(x, z, Translate(g, m, x).span, Size(g, 0));
    }
  }

  // ---------------------------------------------------------------- a list of regions

  ghost predicate Covers(g: Granule, r: Region, x: nat) {
    Base(r) <= x < End(g, r)
  }

  ghost predicate Disjoint(g: Granule, rs: seq<Region>) {
    forall j, k, x: nat | 0 <= j < k < |rs| && Covers(g, rs[j], x) :: !Covers(g, rs[k], x)
  }

  // Every region's addresses translate to its own output addresses with its own attributes
  // (plus the access-permission bit), and nothing else translates.
  ghost predicate RegionsMapped(g: Granule, m: Mem, rs: seq<Region>) {
    && (forall k, x: nat | 0 <= k < |rs| && Covers(g, rs[k], x) ::
          Translates(Translate(g, m, x), rs[k].pa + (x - Base(rs[k])), Attr(1, rs[k])))
    && (forall x: nat | x < INPUT_SPACE && (forall k | 0 <= k < |rs| :: !Covers(g, rs[k], x)) ::
          Translate(g, m, x) == Fault)
  }

  // A call whose range meets no earlier region shatters none of their blocks.
  lemma NotShattered(g: Granule, m: Mem, tags: Tags, rs: seq<Region>, r: Region, x: nat)
    requires IsGranule(g) && RootOk(g, m, tags) && RegionsMapped(g, m, rs)
    requires forall k, z: nat | 0 <= k < |rs| && Covers(g, rs[k], z) :: !Covers(g, r, z)
    requires End(g, r) <= INPUT_SPACE && Base(r) <= End(g, r)
    ensures !Shattered(Translate(g, m, x), x, Base(r), End(g, r))
  {
    hide Rem, Quot, Times, Size, Walk, Base, End;
    var o := Translate(g, m, x);
    if Shattered(o, x, Base(r), End(g, r)) {
      var b := x - Rem(x, o.span);
      var z := if b < Base(r) then Base(r) else b;
      InSpan(x, z, o.span);
      TranslateShared(g, m, tags, x, z);
      CoversInside(g, r, z);
    }
  }

  lemma CoversInside(g: Granule, r: Region, z: nat)
    requires Base(r) <= z < End(g, r)
    ensures Covers(g, r, z)
  {
  }

  lemma InSpan(x: nat, z: nat, s: nat)
    requires s > 0 && x - Rem(x, s) <= z < x - Rem(x, s) + s
    ensures z - Rem(z, s) == x - Rem(x, s)
  {
    QuotRem(x, s);
    QuotUnique(z, s, Quot(x, s));
  }

  lemma OneMore(g: Granule, m: Mem, tags: Tags, m': Mem, rs: seq<Region>, r: Region)
    requires IsGranule(g) && RootOk(g, m, tags) && RegionsMapped(g, m, rs) && Disjoint(g, rs + [r])
    requires MapsExactly(g, m, m', Base(r), End(g, r), r.pa, Attr(1, r))
    requires End(g, r) <= INPUT_SPACE && Base(r) <= End(g, r)
    requires forall k | 0 <= k < |rs| :: End(g, rs[k]) <= INPUT_SPACE
    ensures RegionsMapped(g, m', rs + [r])
  {
    hide Rem, Quot, Times, Size, Walk, Base, End, Translate;
    var all := rs + [r];
    forall k, z: nat | 0 <= k < |rs| && Covers(g, rs[k], z) ensures !Covers(g, r, z) {
      assert all[k] == rs[k] && all[|rs|] == r;
    }
    forall x: nat | x < INPUT_SPACE && !Covers(g, r, x)
      ensures Translate(g, m', x) == Translate(g, m, x)
    {
      NotShattered(g, m, tags, rs, r, x);
    }
    forall x: nat | x < INPUT_SPACE && (forall k | 0 <= k < |all| :: !Covers(g, all[k], x))
      ensures Translate(g, m', x) == Fault
    {
      assert all[|rs|] == r;
      assert forall k | 0 <= k < |rs| :: !Covers(g, rs[k], x) by { assert forall k | 0 <= k < |rs| :: all[k] == rs[k]; }
    }
  }

  // What the caller of a run must provide: every region is refused outright or is legal, and all
  // regions lie under root descriptor h (trivial unless the walk starts at level 0).
  ghost predicate Suitable(g: Granule, rs: seq<Region>, h: nat) {
    forall k | 0 <= k < |rs| :: Rejected(g, 1, rs[k]) || (Legal(g, rs[k]) && Half(g, Base(rs[k])) == h)
  }

  // Regions for which virtual and physical address agree, and which no check refuses.
  ghost predicate Flat(g: Granule, rs: seq<Region>) {
    forall k | 0 <= k < |rs| :: Base(rs[k]) == rs[k].pa && !Rejected(g, 1, rs[k])
  }

  lemma LegalEnd(g: Granule, r: Region)
    requires IsGranule(g) && Legal(g, r) && Rem(r.va, g.page) == 0
    ensures Base(r) <= End(g, r) <= INPUT_SPACE
  {
    hide Rem, Quot, Times, Size, NeedsRootBlock, RoundUp;
    RootIndex(g, Base(r));
    BaseAligned(g, r);
    var d := Desc(r, g.start, 0, 0);
    RangeInHalf(g, d);
    if r.length <= 1 { NothingMapped(g, d, 0); }
  }

  ghost predicate AllInside(g: Granule, rs: seq<Region>) {
    forall k | 0 <= k < |rs| :: Base(rs[k]) <= End(g, rs[k]) <= INPUT_SPACE
  }

  lemma DisjointPrefix(g: Granule, rs: seq<Region>, n: nat)
    requires n <= |rs| && Disjoint(g, rs)
    ensures Disjoint(g, rs[..n])
  {
    var p := rs[..n];
    forall j, k, x: nat | 0 <= j < k < |p| && Covers(g, p[j], x) ensures !Covers(g, p[k], x) {
      assert p[j] == rs[j] && p[k] == rs[k];
    }
  }

  // One of the two loops of val_map_endpoint_region (lines 568-583 and 589-607).
  method MapRegions(b: Builder, rs: seq<Region>, ghost prior: seq<Region>, ghost h: nat) returns (ok: bool)
    requires Ready(b) && OneHalf(b.g, b.Memory(), h) && Suitable(b.g, rs, h) && Disjoint(b.g, prior + rs)
    requires RegionsMapped(b.g, b.Memory(), prior) && AllInside(b.g, prior)
    modifies b, b.tt
    ensures Ready(b)
    ensures if ok then Accepted(b.g, rs) else !Accepted(b.g, rs) || PoolFull(b.l2Used, b.l3Used)
    ensures ok ==> RegionsMapped(b.g, b.Memory(), prior + rs) && AllInside(b.g, prior + rs) && OneHalf(b.g, b.Memory(), h)
    ensures Flat(b.g, rs) ==> Count(b.l2Used) <= Count(old(b.l2Used)) + 2 * |rs|
                              && Count(b.l3Used) <= Count(old(b.l3Used)) + 2 * |rs|
    ensures Flat(b.g, rs) && Count(old(b.l2Used)) + 2 * |rs| <= L2_POOL && Count(old(b.l3Used)) + 2 * |rs| <= L3_POOL ==> ok
  {
    hide Rem, Quot, Times, Size, Walk, Base, End, Translate, Count, Disjoint, RegionsMapped, State, RootFresh, OneHalf,
      Inside, NeedsRootBlock, HomeDone, KeepsOthers, MapsRange, Covers, Rejected, Index,
      MappedAs, PoolFull, WholePages, ExactlyMapped;
    var i := 0;
    assert prior + rs[..0] == prior;
    while i < |rs|
      invariant i <= |rs| && Ready(b) && OneHalf(b.g, b.Memory(), h) && forall k | 0 <= k < i :: !Rejected(b.g, 1, rs[k])
      invariant RegionsMapped(b.g, b.Memory(), prior + rs[..i]) && AllInside(b.g, prior + rs[..i])
      invariant Flat(b.g, rs) ==> Count(b.l2Used) <= Count(old(b.l2Used)) + 2 * i
                                  && Count(b.l3Used) <= Count(old(b.l3Used)) + 2 * i
    {
      ghost var m, tags, u2, u3 := b.Memory(), b.tags, b.l2Used, b.l3Used;
      ok := PgtCreate(b, 1, rs[i]);
      if !ok { return; }
      AddRegion(b.g, m, tags, u2, u3, b.Memory(), prior, rs, i, h);
      i := i + 1;
    }
    assert prior + rs[..|rs|] == prior + rs;
    ok := true;
  }

  lemma AddRegion(g: Granule, m: Mem, tags: Tags, u2: seq<bool>, u3: seq<bool>, m': Mem,
                  prior: seq<Region>, rs: seq<Region>, i: nat, h: nat)
    requires IsGranule(g) && State(g, m, tags, u2, u3) && i < |rs| && Disjoint(g, prior + rs)
    requires RegionsMapped(g, m, prior + rs[..i]) && AllInside(g, prior + rs[..i])
    requires Suitable(g, rs, h) && !Rejected(g, 1, rs[i])
    requires MapsRange(g, m', Base(rs[i]), End(g, rs[i]), rs[i].pa, Attr(1, rs[i]))
    requires KeepsOthers(g, m, m', Base(rs[i]), End(g, rs[i]))
    ensures RegionsMapped(g, m', prior + rs[..i + 1]) && AllInside(g, prior + rs[..i + 1])
  {
    hide Rem, Quot, Times, Size, Walk, Base, End, Translate, Disjoint, RegionsMapped, Legal, KeepsOthers, MapsRange, Covers;
    var before := prior + rs[..i];
    assert prior + rs[..i + 1] == before + [rs[i]] == (prior + rs)[..|prior| + i + 1];
    DisjointPrefix(g, prior + rs, |prior| + i + 1);
    LegalEnd(g, rs[i]);
    OneMore(g, m, tags, m', before, rs[i]);
  }

  // Regions of whole pages inside the input space.
  predicate WholePages(g: Granule, rs: seq<Region>) {
    forall k | 0 <= k < |rs| ::
      Rem(rs[k].va, g.page) == 0 && Rem(rs[k].length, g.page) == 0 && rs[k].va + rs[k].length <= 0x100_0000_0000
  }

  // Each region's bytes are mapped as asked for, with AP[0] set, and no other address is.
  ghost predicate ExactlyMapped(g: Granule, m: Mem, rs: seq<Region>) {
    && (forall k | 0 <= k < |rs| :: MappedAs(g, m, rs[k].va, rs[k].length, rs[k].pa, rs[k].attr, 0x40))
    && (forall x: nat | x < 0x100_0000_0000 && (forall k | 0 <= k < |rs| :: !(rs[k].va <= x < rs[k].va + rs[k].length)) ::
          Translate(g, m, x) == Fault)
  }

  lemma CoversBytes(g: Granule, r: Region, x: nat)
    requires IsGranule(g) && Rem(r.va, g.page) == 0 && Rem(r.length, g.page) == 0 && r.va + r.length <= 0x100_0000_0000
    requires r.length > 0 || Base(r) > 0
    ensures Covers(g, r, x) <==> r.va <= x < r.va + r.length
    ensures Covers(g, r, x) ==> Base(r) == r.va
  {
    hide Rem, Quot, Times, RoundUp;
    BaseAligned(g, r);
    if r.length > 0 {
      BaseIs(r);
      WholeEnd(g, r);
    } else {
      RoundUpBelow(Base(r) - 1, Base(r), g.page);
    }
  }

  lemma AttributesAsked(g: Granule, m: Mem, r: Region)
    requires forall x: nat | r.va <= x < r.va + r.length :: Translates(Translate(g, m, x), r.pa + (x - r.va), Attr(1, r))
    ensures MappedAs(g, m, r.va, r.length, r.pa, r.attr, 0x40)
  {
    hide Translate, Attr;
    ForcedBits(1, r);
  }

  lemma RegionsExactly(g: Granule, m: Mem, rs: seq<Region>)
    requires IsGranule(g) && RegionsMapped(g, m, rs) && WholePages(g, rs)
    requires forall k | 0 <= k < |rs| :: rs[k].length > 0 || Base(rs[k]) > 0
    ensures ExactlyMapped(g, m, rs)
  {
    hide Rem, Quot, Times, Base, End, Translate, Attr, Covers, IsGranule;
    forall k, x: nat | 0 <= k < |rs|
      ensures Covers(g, rs[k], x) <==> rs[k].va <= x < rs[k].va + rs[k].length
      ensures Covers(g, rs[k], x) ==> Base(rs[k]) == rs[k].va
    {
      CoversBytes(g, rs[k], x);
    }
    forall k | 0 <= k < |rs| ensures MappedAs(g, m, rs[k].va, rs[k].length, rs[k].pa, rs[k].attr, 0x40) {
      forall x: nat | rs[k].va <= x < rs[k].va + rs[k].length
        ensures Translates(Translate(g, m, x), rs[k].pa + (x - rs[k].va), Attr(1, rs[k]))
      {
        assert Covers(g, rs[k], x);
      }
      AttributesAsked(g, m, rs[k]);
    }
  }

  // No region of a successful run was refused.
  ghost predicate Accepted(g: Granule, rs: seq<Region>) {
    forall k | 0 <= k < |rs| :: !Rejected(g, 1, rs[k])
  }

  lemma RunExactly(g: Granule, m: Mem, image: seq<Region>, device: seq<Region>, h: nat)
    requires IsGranule(g) && RegionsMapped(g, m, image + device) && WholePages(g, image + device)
    requires Suitable(g, image, h) && Suitable(g, device, h) && Accepted(g, image) && Accepted(g, device)
    ensures ExactlyMapped(g, m, image + device)
  {
    hide Rem, Quot, Times, Size, Base, RegionsMapped, WholePages, ExactlyMapped, NeedsRootBlock, Rejected, IsGranule, Half;
    var rs := image + device;
    forall k | 0 <= k < |rs| ensures rs[k].length > 0 || Base(rs[k]) > 0 {
      assert rs[k] == if k < |image| then image[k] else device[k - |image|];
    }
    RegionsExactly(g, m, rs);
  }

  // val_map_endpoint_region: the image sections, then the device regions.
  method MapEndpointRegion(b: Builder, image: seq<Region>, device: seq<Region>, ghost h: nat) returns (ok: bool)
    requires Ready(b) && forall t | 0 <= t < TABLES :: Zeroed(b.Memory(), t)
    requires Suitable(b.g, image, h) && Suitable(b.g, device, h) && Disjoint(b.g, image + device)
    modifies b, b.tt
    ensures Ready(b)
    ensures ok ==> RegionsMapped(b.g, b.Memory(), image + device)
    ensures !ok && Accepted(b.g, image) && Accepted(b.g, device) ==> PoolFull(b.l2Used, b.l3Used)
    ensures ok && WholePages(b.g, image + device) ==> ExactlyMapped(b.g, b.Memory(), image + device)
    ensures (Count(old(b.l2Used)) == Count(old(b.l3Used)) == 0 && Flat(b.g, image + device)
             && |image| + |device| <= 6) ==> ok
  {
    hide Rem, Quot, Times, Size, Walk, Base, End, Translate, Count, Disjoint, RegionsMapped, State, RootFresh,
      Inside, NeedsRootBlock, HomeDone, KeepsOthers, MapsRange, Covers, Rejected, Index,
      MappedAs, PoolFull, WholePages, ExactlyMapped;
    NothingYet(b.g, b.Memory());
    DisjointPrefix(b.g, image + device, |image|);
    assert (image + device)[..|image|] == image == [] + image;
    if Flat(b.g, image + device) { FlatParts(b.g, image, device); }
    ok := MapRegions(b, image, [], h);
    if ok { ok := MapRegions(b, device, image, h); }
    if ok && WholePages(b.g, image + device) { RunExactly(b.g, b.Memory(), image, device, h); }
  }

  lemma FlatParts(g: Granule, image: seq<Region>, device: seq<Region>)
    requires Flat(g, image + device)
    ensures Flat(g, image) && Flat(g, device)
  {
    var all := image + device;
    assert forall k | 0 <= k < |image| :: image[k] == all[k];
    assert forall k | 0 <= k < |device| :: device[k] == all[|image| + k];
  }

  lemma NothingYet(g: Granule, m: Mem)
    requires |m| == TABLES && Shaped(g, m) && forall t | 0 <= t < TABLES :: Zeroed(m, t)
    ensures RegionsMapped(g, m, [])
    ensures forall h: nat :: OneHalf(g, m, h)
  {
    assert Zeroed(m, ROOT);
    forall x: nat ensures Translate(g, m, x) == Fault {
      if g.start >= 1 { ZeroedWalk(g, m, ROOT, g.start, x); }
    }
  }

  // ---------------------------------------------------------------- the tables form a tree

  datatype Reached = Nowhere | At(table: nat)

  // The table found by following table descriptors along a path of indices.
  function Follow(m: Mem, t: nat, path: seq<nat>): (r: Reached)
    decreases |path|
  {
    if path == [] then At(t)
    else if t < |m| && path[0] < |m[t]| && m[t][path[0]].Table? then Follow(m, m[t][path[0]].id, path[1..])
    else Nowhere
  }

  // Where a path leads is tagged with the region of its own indices, and depth is level.
  lemma {:induction false} FollowTag(g: Granule, m: Mem, tags: Tags, t: nat, path: seq<nat>)
    requires Tree(g, m, tags) && t in tags && Follow(m, t, path).At?
    ensures Follow(m, t, path).table in tags
    ensures tags[Follow(m, t, path).table].level == tags[t].level + |path| <= 3
    ensures Within(g, tags[Follow(m, t, path).table], tags[t])
    decreases |path|
  {
    hide Rem, Quot, Times, Size;
    if path != [] {
      var i := path[0];
      assert EntryLinked(g, tags, tags[t], i, m[t][i]);
      FollowTag(g, m, tags, m[t][i].id, path[1..]);
      ChildSmaller(g, tags[t], i);
    }
  }

  // No two live descriptors reference the same table: a live table has one path.
  lemma {:induction false} UniquePath(g: Granule, m: Mem, tags: Tags, t: nat, p: seq<nat>, q: seq<nat>)
    requires Tree(g, m, tags) && t in tags
    requires Follow(m, t, p).At? && Follow(m, t, p) == Follow(m, t, q)
    ensures p == q
    decreases |p|
  {
    FollowTag(g, m, tags, t, p);
    FollowTag(g, m, tags, t, q);
    if p != [] {
      var i, j, c := p[0], q[0], Follow(m, t, p).table;
      assert EntryLinked(g, tags, tags[t], i, m[t][i]) && EntryLinked(g, tags, tags[t], j, m[t][j]);
      FollowTag(g, m, tags, m[t][i].id, p[1..]);
      FollowTag(g, m, tags, m[t][j].id, q[1..]);
      ChildAligned(g, tags[t], i);
      ChildAligned(g, tags[t], j);
      assert InRegion(g, Child(g, tags[t], i), tags[c].base) && InRegion(g, Child(g, tags[t], j), tags[c].base);
      EntriesDisjoint(g, tags[t], i, j, tags[c].base);
      UniquePath(g, m, tags, m[t][i].id, p[1..], q[1..]);
      assert p == [i] + p[1..] && q == [j] + q[1..];
    }
  }

  // Every live pool table is marked used, so it can never be handed out again.
  lemma LivePoolTablesAreUsed(g: Granule, m: Mem, tags: Tags, l2Used: seq<bool>, l3Used: seq<bool>, path: seq<nat>)
    requires State(g, m, tags, l2Used, l3Used) && Follow(m, Home(g), path).At?
    ensures var t := Follow(m, Home(g), path).table;
            && (L2_FIRST <= t < L2_FIRST + L2_POOL ==> l2Used[t - L2_FIRST])
            && (L3_FIRST <= t < L3_FIRST + L3_POOL ==> l3Used[t - L3_FIRST])
  {
    FollowTag(g, m, tags, Home(g), path);
  }

  // ---------------------------------------------------------------- where the promise stops

  // With two root descriptors in use (4KB granule), both lead to tt_l1_base (line 385): the whole
  // translation repeats with the period of one root descriptor.
  lemma TwoHalvesAlias(g: Granule, m: Mem, tags: Tags, x: nat)
    requires IsGranule(g) && g.start == 0 && Tree(g, m, tags) && RootOk(g, m, tags) && x < Size(g, 0)
    requires m[ROOT][0] == m[ROOT][1] == Table(L1_TABLE)
    ensures Translate(g, m, x) == Translate(g, m, Size(g, 0) + x)
  {
    hide Walk, Size, HomeWalk;
    WalkGeometry(g);
    RemSelf(Size(g, 0));
    TranslateVia(g, m, tags, 0, x);
    TranslateVia(g, m, tags, Size(g, 0), x);
    AddTimes(1, Size(g, 0), x);
  }

  // high lies where low is seen in the other half, and asks for the same translation.
  predicate Mirror(g: Granule, low: Region, high: Region) {
    && Base(high) == Size(g, 0) + Base(low) && End(g, high) == Size(g, 0) + End(g, low)
    && high.pa == low.pa && Attr(1, high) == Attr(1, low)
  }

  // The two halves show the same translation.
  ghost predicate Repeats(g: Granule, m: Mem) {
    forall x: nat | x < Size(g, 0) :: Translate(g, m, x) == Translate(g, m, Size(g, 0) + x)
  }

  ghost predicate TwoHalves(g: Granule, low: Region, high: Region) {
    && IsGranule(g) && g.start == 0 && Legal(g, low) && Legal(g, high) && low.length > 1 && high.length > 1
    && Rem(low.va, g.page) == 0 && Rem(high.va, g.page) == 0
    && Half(g, Base(low)) == 0 && Half(g, Base(high)) == 1
  }

  lemma HalfRanges(g: Granule, low: Region, high: Region)
    requires TwoHalves(g, low, high)
    ensures HalfBase(g, Base(low)) == 0 && HalfBase(g, Base(high)) == Size(g, 0) && INPUT_SPACE == 2 * Size(g, 0)
    ensures Base(low) < End(g, low) <= Size(g, 0) <= Base(high) < End(g, high) <= INPUT_SPACE
    ensures End(g, high) == Size(g, 0) + MappedEnd(Top(high) - Size(g, 0), g.page)
  {
    hide Rem, Quot, Times, Size, NeedsRootBlock, RoundUp;
    WalkGeometry(g);
    RootIndex(g, Base(low));
    RootIndex(g, Base(high));
    TimesIs(0, Size(g, 0));
    TimesIs(1, Size(g, 0));
    BaseAligned(g, low);
    BaseAligned(g, high);
    RangeInHalf(g, Desc(low, 0, 0, 0));
    RangeInHalf(g, Desc(high, 0, 0, 0));
    RoundUpMultiple(Top(low), g.page);
    RoundUpMultiple(Top(high), g.page);
  }

  // Regions that come out right in both halves must be mirror images.
  lemma MappedMirrors(g: Granule, m: Mem, low: Region, high: Region)
    requires TwoHalves(g, low, high) && Repeats(g, m) && RegionsMapped(g, m, [low, high])
    ensures Mirror(g, low, high)
  {
    hide Rem, Quot, Times, Size, Translate, Base, End, Legal;
    HalfRanges(g, low, high);
    var rs, s := [low, high], Size(g, 0);
    ShownTwice(g, m, low, high, Base(low));
    ShownTwice(g, m, low, high, End(g, low) - 1);
    ShownTwice(g, m, low, high, Base(high) - s);
    ShownTwice(g, m, low, high, End(g, high) - 1 - s);
  }

  // An address of either region is covered by both, in its own half, with one translation.
  lemma ShownTwice(g: Granule, m: Mem, low: Region, high: Region, x: nat)
    requires TwoHalves(g, low, high) && Repeats(g, m) && RegionsMapped(g, m, [low, high])
    requires Base(low) <= x < End(g, low) || Base(high) <= Size(g, 0) + x < End(g, high)
    ensures Base(low) <= x < End(g, low) && Base(high) <= Size(g, 0) + x < End(g, high)
    ensures low.pa + (x - Base(low)) == high.pa + (Size(g, 0) + x - Base(high)) && Attr(1, low) == Attr(1, high)
  {
    hide Rem, Quot, Times, Size, Translate, Base, End, Legal;
    HalfRanges(g, low, high);
    TranslatesIff(g, m, low, high, x);
    TranslatesIff(g, m, low, high, Size(g, 0) + x);
    assert Translate(g, m, x) == Translate(g, m, Size(g, 0) + x);
  }

  lemma TranslatesIff(g: Granule, m: Mem, low: Region, high: Region, x: nat)
    requires RegionsMapped(g, m, [low, high]) && x < INPUT_SPACE
    ensures Translate(g, m, x).Mapped? <==> Covers(g, low, x) || Covers(g, high, x)
    ensures Covers(g, low, x) ==> Translates(Translate(g, m, x), low.pa + (x - Base(low)), Attr(1, low))
    ensures Covers(g, high, x) ==> Translates(Translate(g, m, x), high.pa + (x - Base(high)), Attr(1, high))
  {
    hide Rem, Translate, Base, End;
    var rs := [low, high];
    assert rs[0] == low && rs[1] == high;
    if !Covers(g, low, x) && !Covers(g, high, x) { assert forall k | 0 <= k < |rs| :: !Covers(g, rs[k], x); }
  }

  // The walk below the root translates [lo, hi) and nothing else.
  ghost predicate HomeIs(g: Granule, m: Mem, lo: nat, hi: nat, pa: nat, attr: Attributes) {
    forall y: nat | InRegion(g, HomeTag(g), y) ::
      if lo <= y < hi then Translates(HomeWalk(g, m, y), pa + (y - lo), attr) else HomeWalk(g, m, y) == Fault
  }

  // Mirror images write the same reduced range twice.
  lemma MirrorHome(g: Granule, m0: Mem, m1: Mem, m2: Mem, low: Region, high: Region)
    requires TwoHalves(g, low, high) && Mirror(g, low, high)
    requires Zeroed(m0, L1_TABLE)
    requires HomeDone(g, m0, m1, low, Attr(1, low)) && HomeDone(g, m1, m2, high, Attr(1, high))
    ensures HomeIs(g, m2, Base(low), End(g, low), low.pa, Attr(1, low))
  {
    hide Rem, Quot, Times, Size, Walk, Base, Top, RoundUp, MappedEnd, Legal, HalfBase;
    HalfRanges(g, low, high);
    forall y: nat | InRegion(g, HomeTag(g), y) ensures HomeWalk(g, m0, y) == Fault {
      ZeroedWalk(g, m0, L1_TABLE, 1, y);
    }
  }

  // With both root descriptors in use every address is translated by the walk below the root.
  lemma MirrorAt(g: Granule, m: Mem, tags: Tags, x: nat)
    requires IsGranule(g) && g.start == 0 && Tree(g, m, tags) && RootOk(g, m, tags) && x < INPUT_SPACE
    requires m[ROOT][0] == m[ROOT][1] == Table(L1_TABLE)
    ensures var c := if x < Size(g, 0) then x else x - Size(g, 0);
            Translate(g, m, x) == HomeWalk(g, m, c) && InRegion(g, HomeTag(g), c)
  {
    hide Walk, Size, HomeWalk, Rem, Quot, Times;
    WalkGeometry(g);
    RootIndex(g, x);
    HomeRegion(g, x);
    TimesIs(0, Size(g, 0));
    TimesIs(1, Size(g, 0));
    TranslateVia(g, m, tags, HalfBase(g, x), x - HalfBase(g, x));
  }

  lemma MirrorPoint(g: Granule, m: Mem, tags: Tags, low: Region, high: Region, x: nat)
    requires TwoHalves(g, low, high) && Mirror(g, low, high) && Tree(g, m, tags) && RootOk(g, m, tags)
    requires m[ROOT][0] == m[ROOT][1] == Table(L1_TABLE) && x < INPUT_SPACE
    requires HomeIs(g, m, Base(low), End(g, low), low.pa, Attr(1, low))
    ensures Covers(g, low, x) ==> Translates(Translate(g, m, x), low.pa + (x - Base(low)), Attr(1, low))
    ensures Covers(g, high, x) ==> Translates(Translate(g, m, x), high.pa + (x - Base(high)), Attr(1, high))
    ensures !Covers(g, low, x) && !Covers(g, high, x) ==> Translate(g, m, x) == Fault
  {
    hide Rem, Quot, Times, Size, Walk, Translate, Base, End, Legal, HomeWalk, InRegion, Attr;
    HalfRanges(g, low, high);
    MirrorAt(g, m, tags, x);
  }

  lemma MirrorMaps(g: Granule, m: Mem, tags: Tags, low: Region, high: Region)
    requires TwoHalves(g, low, high) && Mirror(g, low, high) && Tree(g, m, tags) && RootOk(g, m, tags)
    requires m[ROOT][0] == m[ROOT][1] == Table(L1_TABLE)
    requires HomeIs(g, m, Base(low), End(g, low), low.pa, Attr(1, low))
    ensures RegionsMapped(g, m, [low, high])
  {
    hide Rem, Quot, Times, Size, Walk, Translate, Base, End, Legal, HomeWalk, HomeIs, Mirror, Attr;
    HalfRanges(g, low, high);
    var rs := [low, high];
    assert rs[0] == low && rs[1] == high;
    forall k, x: nat | 0 <= k < |rs| && Covers(g, rs[k], x)
      ensures Translates(Translate(g, m, x), rs[k].pa + (x - Base(rs[k])), Attr(1, rs[k]))
    {
      MirrorPoint(g, m, tags, low, high, x);
    }
    forall x: nat | x < INPUT_SPACE && (forall k | 0 <= k < |rs| :: !Covers(g, rs[k], x))
      ensures Translate(g, m, x) == Fault
    {
      assert !Covers(g, rs[0], x) && !Covers(g, rs[1], x);
      MirrorPoint(g, m, tags, low, high, x);
    }
  }

  // So mapping one region in each half makes each half show both: from zeroed tables the two come
  // out right exactly when one is the mirror image of the other.
  method MapTwoHalves(b: Builder, low: Region, high: Region) returns (ok: bool)
    requires Ready(b) && TwoHalves(b.g, low, high) && !Rejected(b.g, 1, low) && !Rejected(b.g, 1, high)
    modifies b, b.tt
    ensures ok ==> Repeats(b.g, b.Memory())
    ensures ok && Zeroed(old(b.Memory()), L1_TABLE) ==>
              (RegionsMapped(b.g, b.Memory(), [low, high]) <==> Mirror(b.g, low, high))
  {
    hide Rem, Quot, Times, Size, Index, Translate, Inside, NeedsRootBlock, RootFresh, PoolFree, MapsRange, KeepsOthers,
      OneHalf, HomeDone, RegionsMapped, Mirror;
    RootIndex(b.g, Base(low));
    RootIndex(b.g, Base(high));
    ghost var m0 := b.Memory();
    ok := PgtCreate(b, 1, low);
    ghost var m1 := b.Memory();
    if ok { ok := PgtCreate(b, 1, high); }
    if ok {
      forall x: nat | x < Size(b.g, 0)
        ensures Translate(b.g, b.Memory(), x) == Translate(b.g, b.Memory(), Size(b.g, 0) + x)
      {
        TwoHalvesAlias(b.g, b.Memory(), b.tags, x);
      }
      if RegionsMapped(b.g, b.Memory(), [low, high]) { MappedMirrors(b.g, b.Memory(), low, high); }
      if Mirror(b.g, low, high) && Zeroed(m0, L1_TABLE) {
        MirrorHome(b.g, m0, m1, b.Memory(), low, high);
        MirrorMaps(b.g, b.Memory(), b.tags, low, high);
      }
    }
  }

  // For example the first half of the input space, with the 4KB granule.
  lemma WholeHalfIsIllegal()
    ensures Inside(GRANULE_4K, Region(0, 0, 0x80_0000_0000, 0)) && NeedsRootBlock(GRANULE_4K, Region(0, 0, 0x80_0000_0000, 0))
  {
    hide Size;
    SizeIs(GRANULE_4K);
  }
}
