/** What each allocator call leaves of the block list, written out as a list: header 32 bytes, a
    remainder split off from 40 bytes on.  The loops and splits of the other files are proved to end
    there. */
module HeapLists {
  import opened Arith
  import opened HeapAligned
  import opened HeapBlocks

  // A block from which n bytes are used: what is left over becomes a free block if it has a header and
  // eight bytes.
  function Carved(addr: nat, size: nat, n: nat): seq<Block> {
    if size >= n + 40 then [Block(addr, n, false), Block(addr + 32 + n, size - n - 32, true)]
    else [Block(addr, size, false)]
  }

  // Block k is the first free one of n bytes.
  ghost predicate First(bs: seq<Block>, k: nat, n: nat) {
    k < |bs| && bs[k].free && bs[k].size >= n && forall j | 0 <= j < k && bs[j].free :: bs[j].size < n
  }

  ghost predicate NoneOf(bs: seq<Block>, n: nat) {
    forall j | 0 <= j < |bs| && bs[j].free :: bs[j].size < n
  }

  // val_malloc of n bytes, n a multiple of eight: NULL if no free block has them, else the first that has.
  ghost predicate MallocResult(bs: seq<Block>, bs': seq<Block>, n: nat, p: nat, k: nat) {
    if NoneOf(bs, n) then p == 0 && bs' == bs
    else First(bs, k, n) && p == bs[k].addr + 32 && bs' == bs[..k] + Carved(bs[k].addr, bs[k].size, n) + bs[k + 1..]
  }

  ghost predicate MallocSome(bs: seq<Block>, bs': seq<Block>, n: nat, p: nat) {
    exists k: nat :: MallocResult(bs, bs', n, p, k)
  }

  lemma SomeMalloc(bs: seq<Block>, bs': seq<Block>, n: nat, p: nat, k: nat)
    requires MallocResult(bs, bs', n, p, k)
    ensures MallocSome(bs, bs', n, p)
  {
  }

  lemma TakeIs(bs: seq<Block>, k: nat, n: nat)
    requires k < |bs|
    ensures Take(bs, k, n) == bs[..k] + Carved(bs[k].addr, bs[k].size, n) + bs[k + 1..]
  {
  }

  // ---------------------------------------------------------------- freeing

  // The free neighbours of block k, and the block that it and they become.
  function Low(bs: seq<Block>, k: nat): (r: nat)
    requires k < |bs|
    ensures r <= k
  {
    if k > 0 && bs[k - 1].free then k - 1 else k
  }

  function High(bs: seq<Block>, k: nat): (r: nat)
    requires k < |bs|
    ensures k < r <= |bs|
  {
    if k + 1 < |bs| && bs[k + 1].free then k + 2 else k + 1
  }

  function Joined(bs: seq<Block>, k: nat): nat
    requires k < |bs|
  {
    bs[k].size + (if k > 0 && bs[k - 1].free then 32 + bs[k - 1].size else 0)
               + (if k + 1 < |bs| && bs[k + 1].free then 32 + bs[k + 1].size else 0)
  }

  // val_free of block k: it and its free neighbours are one free block.
  ghost predicate FreeResult(bs: seq<Block>, bs': seq<Block>, k: nat) {
    k < |bs| && bs' == bs[..Low(bs, k)] + [Block(bs[Low(bs, k)].addr, Joined(bs, k), true)] + bs[High(bs, k)..]
  }

  // Both loops of val_coalesce, on a list without other free neighbours.
  lemma CoalesceIs(bs: seq<Block>, k: nat)
    requires k < |bs| && CoalescedBut(bs, k)
    ensures Coalesce(bs, k).1 == Low(bs, k)
    ensures Coalesce(bs, k).0
         == bs[..Low(bs, k)] + [Block(bs[Low(bs, k)].addr, Joined(bs, k), bs[Low(bs, k)].free)] + bs[High(bs, k)..]
  {
    hide CoalescedBut, Forward, Backward;
    ForwardOnce(bs, k);
    var f := Forward(bs, k);
    BackwardOnce(f, k);
  }

  lemma ReleaseIs(bs: seq<Block>, k: nat)
    requires k < |bs| && Coalesced(bs)
    ensures FreeResult(bs, Release(bs, k), k)
  {
    hide Coalesce;
    var f := bs[k := bs[k].(free := true)];
    CoalesceIs(f, k);
    assert f[..Low(f, k)] == bs[..Low(bs, k)] && f[High(f, k)..] == bs[High(bs, k)..];
  }

  // ---------------------------------------------------------------- resizing

  // Without a tail to give back, line 371 coalesces a successor in use with a free block behind it.
  predicate Swallows(bs: seq<Block>, k: nat, n: nat)
    requires k < |bs|
  {
    bs[k].size < n + 40 && k + 2 < |bs| && !bs[k + 1].free && bs[k + 2].free
  }

  // Lines 369-373: a tail of 40 bytes or more is given back, together with a free successor.
  ghost predicate ShrinkResult(bs: seq<Block>, bs': seq<Block>, k: nat, n: nat)
    requires k < |bs|
  {
    if bs[k].size >= n + 40 then
      var more := if k + 1 < |bs| && bs[k + 1].free then 32 + bs[k + 1].size else 0;
      bs' == bs[..k] + [Block(bs[k].addr, n, false), Block(bs[k].addr + 32 + n, bs[k].size - n - 32 + more, true)]
             + bs[High(bs, k)..]
    else if Swallows(bs, k, n) then
      bs' == bs[..k + 1] + [Block(bs[k + 1].addr, bs[k + 1].size + 32 + bs[k + 2].size, false)] + bs[k + 3..]
    else bs' == bs
  }

  // Either neighbour alone makes up for what block k lacks.
  ghost predicate Extends(bs: seq<Block>, k: nat, n: nat)
    requires k < |bs|
  {
    || (k > 0 && bs[k - 1].free && bs[k - 1].size + 32 + bs[k].size >= n)
    || (k + 1 < |bs| && bs[k + 1].free && bs[k].size + 32 + bs[k + 1].size >= n)
  }

  // Where block k is in the list once n bytes of block t have been taken.
  function Shifted(bs: seq<Block>, t: nat, n: nat, k: nat): nat
    requires t < |bs|
  {
    if k > t && bs[t].size >= n + 40 then k + 1 else k
  }

  // val_realloc of block k to n bytes, n a multiple of eight: in place if it has them, else over its free
  // neighbours, else in the first free block that has them, and NULL only if none of these is possible.
  ghost predicate ReallocResult(bs: seq<Block>, bs': seq<Block>, k: nat, n: nat, q: nat)
    requires k < |bs|
  {
    if bs[k].size >= n then q == bs[k].addr + 32 && ShrinkResult(bs, bs', k, n)
    else if Extends(bs, k, n) then
      && q == bs[Low(bs, k)].addr + 32
      && bs' == bs[..Low(bs, k)] + Carved(bs[Low(bs, k)].addr, Joined(bs, k), n) + bs[High(bs, k)..]
    else if NoneOf(bs, n) then q == 0 && bs' == bs
    else exists t: nat | First(bs, t, n) ::
           && q == bs[t].addr + 32
           && FreeResult(bs[..t] + Carved(bs[t].addr, bs[t].size, n) + bs[t + 1..], bs', Shifted(bs, t, n, k))
  }

  lemma ShrinkIs(bs: seq<Block>, bs': seq<Block>, k: nat, n: nat, q: nat)
    requires k < |bs| && Coalesced(bs) && !bs[k].free && ByShrink(bs, bs', k, n, q)
    ensures ShrinkResult(bs, bs', k, n)
  {
    hide Coalesce, CoalescedBut;
    var s := Split(bs, k, n);
    ShrinkBut(bs, k, n);
    CoalesceIs(s, k + 1);
    if Splits(bs[k], n) {
      assert s == bs[..k] + [Block(bs[k].addr, n, false), Rest(bs[k], n)] + bs[k + 1..];
    } else {
      assert bs == bs[..k + 1] + [bs[k + 1]] + bs[k + 2..];
      if k + 2 < |bs| { NeighboursApart(bs, k + 2); }
    }
  }

  lemma GrowIs(bs: seq<Block>, bs': seq<Block>, k: nat, n: nat, q: nat)
    requires k < |bs| && Coalesced(bs) && !bs[k].free && ByGrow(bs, bs', k, n, q)
    ensures bs[k].size < n && Extends(bs, k, n) && q == bs[Low(bs, k)].addr + 32
    ensures bs' == bs[..Low(bs, k)] + Carved(bs[Low(bs, k)].addr, Joined(bs, k), n) + bs[High(bs, k)..]
  {
    hide Coalesce, Take;
    CoalesceIs(bs, k);
    var (c, j) := Coalesce(bs, k);
    TakeIs(c, j, n);
    assert c[..j] == bs[..j] && c[j + 1..] == bs[High(bs, k)..];
  }

  lemma CopyIs(bs: seq<Block>, bs': seq<Block>, k: nat, t: nat, n: nat, q: nat, base: nat, limit: nat)
    requires Heap(bs, base, limit) && k < |bs| && !bs[k].free && n % ALIGNMENT == 0 && ByCopy(bs, bs', k, t, n, q)
    ensures bs[k].size < n && !Extends(bs, k, n) && First(bs, t, n) && q == bs[t].addr + 32
    ensures FreeResult(bs[..t] + Carved(bs[t].addr, bs[t].size, n) + bs[t + 1..], bs', Shifted(bs, t, n, k))
  {
    hide Release, Take, Ordered, Total;
    TakeHeap(bs, t, n, base, limit);
    TakeIs(bs, t, n);
    ReleaseIs(Take(bs, t, n), TakenAt(bs, t, n, k));
  }

  // The three ways of val_realloc end in these lists.
  lemma ReallocatesIs(bs: seq<Block>, bs': seq<Block>, k: nat, n: nat, q: nat, base: nat, limit: nat)
    requires Heap(bs, base, limit) && k < |bs| && !bs[k].free && n % ALIGNMENT == 0 && Reallocates(bs, bs', k, n, q)
    ensures ReallocResult(bs, bs', k, n, q)
  {
    hide Shrink, Grow, Release, Take, Coalesce, CanGrow, NoSuccessor, Ordered, ShrinkResult, FreeResult, Extends;
    if ByShrink(bs, bs', k, n, q) {
      ShrinkIs(bs, bs', k, n, q);
    } else if ByGrow(bs, bs', k, n, q) {
      GrowIs(bs, bs', k, n, q);
    } else {
      var t: nat :| ByCopy(bs, bs', k, t, n, q);
      CopyIs(bs, bs', k, t, n, q, base, limit);
      assert First(bs, t, n) && !NoneOf(bs, n);
    }
  }

  // A resize in place changes another block in use exactly then.
  lemma SwallowsIff(bs: seq<Block>, bs': seq<Block>, k: nat, n: nat, base: nat, limit: nat)
    requires Ordered(bs, base, limit) && k < |bs| && !bs[k].free && n <= bs[k].size && ShrinkResult(bs, bs', k, n)
    ensures (exists j :: 0 <= j < |bs| && j != k && !bs[j].free && bs[j] !in bs') <==> Swallows(bs, k, n)
  {
    if Swallows(bs, k, n) {
      assert bs[k + 1] !in bs';
    } else {
      forall j | 0 <= j < |bs| && j != k && !bs[j].free ensures bs[j] in bs' {
        var j' := if bs[k].size < n + 40 || j < k then j else if bs[k + 1].free then j else j + 1;
        assert bs'[j'] == bs[j];
      }
    }
  }

  // ---------------------------------------------------------------- aligned requests

  // The first multiple of the alignment after the block's header.
  ghost predicate AlignedIn(b: Block, alignment: nat, u: nat)
    requires alignment > 0
  {
    Rem(u, alignment) == 0 && b.addr + 32 <= u < b.addr + 32 + alignment
  }

  // From there on the free block b has n bytes.
  ghost predicate RoomIn(b: Block, alignment: nat, n: nat)
    requires alignment > 0
  {
    b.free && exists u: nat :: AlignedIn(b, alignment, u) && u + n <= b.addr + 32 + b.size
  }

  // Block b from which n bytes at p are used: the bytes before p's header stay a free block, those
  // behind become one if they are more than 40, and are lost otherwise.
  function AlignedParts(b: Block, n: nat, p: nat): seq<Block>
    requires b.addr + 32 <= p && p + n <= b.addr + 32 + b.size && (p == b.addr + 32 || b.addr + 64 <= p)
  {
    (if p == b.addr + 32 then [] else [Block(b.addr, p - 64 - b.addr, true)])
    + [Block(p - 32, n, false)]
    + (if b.addr + 32 + b.size > p + n + 40 then [Block(p + n, b.addr + b.size - p - n, true)] else [])
  }

  // val_aligned_alloc: NULL if no free block has room, else the aligned address in the first that has.
  ghost predicate AlignedResult(bs: seq<Block>, bs': seq<Block>, alignment: nat, n: nat, p: nat, k: nat)
    requires alignment > 0
  {
    if forall j | 0 <= j < |bs| :: !RoomIn(bs[j], alignment, n) then p == 0 && bs' == bs
    else
      && k < |bs| && RoomIn(bs[k], alignment, n) && (forall j | 0 <= j < k :: !RoomIn(bs[j], alignment, n))
      && AlignedIn(bs[k], alignment, p) && p + n <= bs[k].addr + 32 + bs[k].size
      && (p == bs[k].addr + 32 || bs[k].addr + 64 <= p)
      && bs' == bs[..k] + AlignedParts(bs[k], n, p) + bs[k + 1..]
  }

  lemma AlignedInIff(b: Block, alignment: nat, u: nat)
    requires alignment > 0
    ensures AlignedIn(b, alignment, u) <==> u == b.addr + Gap(b.addr, alignment) + HEADER
  {
    hide Rem, Quot, Times;
    var v := RoundUp(b.addr + HEADER, alignment);
    RoundUpMultiple(b.addr + HEADER, alignment);
    if AlignedIn(b, alignment, u) && u < v { MultiplesApart(u, v, alignment); }
    if AlignedIn(b, alignment, u) && v < u { MultiplesApart(v, u, alignment); }
  }

  lemma RoomIff(b: Block, alignment: nat, n: nat)
    requires alignment > 0
    ensures RoomIn(b, alignment, n) <==> Holds(b, alignment, n)
  {
    hide Rem, Gap, AlignedIn;
    var v := b.addr + Gap(b.addr, alignment) + HEADER;
    AlignedInIff(b, alignment, v);
    if RoomIn(b, alignment, n) {
      var u: nat :| AlignedIn(b, alignment, u) && u + n <= b.addr + 32 + b.size;
      AlignedInIff(b, alignment, u);
    }
  }

  lemma TakeExactIs(bs: seq<Block>, k: nat, n: nat)
    requires k < |bs| && bs[k].size >= n
    ensures TakeExact(bs, k, n)
         == bs[..k] + [Block(bs[k].addr, n, false)]
            + (if bs[k].size > n + 40 then [Block(bs[k].addr + 32 + n, bs[k].size - n - 32, true)] else []) + bs[k + 1..]
  {
  }

  lemma LeadIs(bs: seq<Block>, k: nat, gap: nat)
    requires k < |bs| && bs[k].free && Sound(bs[k], gap)
    ensures var (s, i) := Lead(bs, k, gap);
            && i < |s| && s[i] == Block(bs[k].addr + gap, bs[k].size - gap, true) && s[i + 1..] == bs[k + 1..]
            && s[..i] == bs[..k] + if gap == 0 then [] else [Block(bs[k].addr, gap - 32, true)]
  {
  }

  lemma AlignedTakeIs(bs: seq<Block>, k: nat, gap: nat, n: nat)
    requires k < |bs| && bs[k].free && Sound(bs[k], gap) && bs[k].size >= gap + n
    ensures AlignedTake(bs, k, gap, n) == bs[..k] + AlignedParts(bs[k], n, bs[k].addr + gap + 32) + bs[k + 1..]
  {
    hide Lead, TakeExact;
    LeadIs(bs, k, gap);
    var (s, i) := Lead(bs, k, gap);
    TakeExactIs(s, i, n);
  }
}
