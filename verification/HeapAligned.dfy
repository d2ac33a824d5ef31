/** val_aligned_alloc on the block list: the leading gap, the discarded tail, and exactly when the
    pointer it returns belongs to the list. */
module HeapAligned {
  import opened Arith
  import opened HeapBlocks

  // The test of line 426, (a & (a - 1)) == 0, for a > 0.
  predicate PowerOfTwo(a: nat) {
    a == 1 || (a > 1 && a % 2 == 0 && PowerOfTwo(a / 2))
  }

  ghost predicate IsPower(a: nat) {
    exists e: nat :: a == Pow2(e)
  }

  lemma {:induction false} PowerIs(e: nat)
    ensures PowerOfTwo(Pow2(e))
  {
    if e > 0 { PowerIs(e - 1); }
  }

  lemma {:induction false} PowerOfTwoIff(a: nat)
    ensures PowerOfTwo(a) <==> IsPower(a)
  {
    if PowerOfTwo(a) {
      if a == 1 {
        assert a == Pow2(0);
      } else {
        PowerOfTwoIff(a / 2);
        var e: nat :| a / 2 == Pow2(e);
        assert a == Pow2(e + 1);
      }
    }
    if e: nat :| a == Pow2(e) { PowerIs(e); }
  }

  lemma PowerAligned(a: nat)
    requires PowerOfTwo(a) && a >= ALIGNMENT
    ensures a % ALIGNMENT == 0
  {
    assert PowerOfTwo(a / 2) && PowerOfTwo(a / 2 / 2);
  }

  // Bytes between a block's header and the header an aligned payload would have; ALIGN_TO rounds up
  // to a multiple.
  function Gap(raw: nat, alignment: nat): (r: nat)
    requires alignment > 0
    ensures r < alignment
  {
    RoundUp(raw + HEADER, alignment) - HEADER - raw
  }

  lemma GapAligned(raw: nat, alignment: nat)
    requires alignment > 0 && alignment % ALIGNMENT == 0 && raw % ALIGNMENT == 0
    ensures Gap(raw, alignment) % ALIGNMENT == 0 && Rem(raw + Gap(raw, alignment) + HEADER, alignment) == 0
  {
    hide Rem, Times, Quot;
    RoundUpMultiple(raw + HEADER, alignment);
    QuotRemIs(alignment, ALIGNMENT);
    MultipleOfMultiple(RoundUp(raw + HEADER, alignment), alignment, ALIGNMENT);
    QuotRemIs(RoundUp(raw + HEADER, alignment), ALIGNMENT);
  }

  // Line 447, without wrap-around.
  predicate Holds(b: Block, alignment: nat, size: nat)
    requires alignment > 0
  {
    b.free && b.size >= Gap(b.addr, alignment) + size
  }

  // The gap is nothing, or becomes a block of its own.
  predicate Sound(b: Block, gap: nat) {
    gap == 0 || (gap >= HEADER && Splits(b, gap - HEADER))
  }

  // Lines 452-455.
  function Lead(bs: seq<Block>, k: nat, gap: nat): (r: (seq<Block>, nat))
    requires k < |bs|
  {
    if gap >= HEADER then (Split(bs, k, gap - HEADER), k + 1) else (bs, k)
  }

  // Lines 457-461.
  function TakeExact(bs: seq<Block>, k: nat, size: nat): (r: seq<Block>)
    requires k < |bs|
  {
    var s := if bs[k].size > size + HEADER + ALIGNMENT then Split(bs, k, size) else bs;
    s[k := s[k].(size := size, free := false)]
  }

  function Discarded(b: Block, size: nat): int {
    if b.size > size + HEADER + ALIGNMENT then 0 else b.size - size
  }

  // What the call drops: the tail of the block it takes, if too short to split off.
  function Wasted(bs: seq<Block>, k: nat, gap: nat, size: nat): nat
    requires k < |bs|
  {
    var (s, i) := Lead(bs, k, gap);
    if i < |s| && Discarded(s[i], size) >= 0 then Discarded(s[i], size) else 0
  }

  // val_aligned_alloc takes block k: the list after lines 450-461.
  function AlignedTake(bs: seq<Block>, k: nat, gap: nat, size: nat): (r: seq<Block>)
    requires k < |bs| && Lead(bs, k, gap).1 < |Lead(bs, k, gap).0|
  {
    var (s, i) := Lead(bs, k, gap);
    TakeExact(s, i, size)
  }

  lemma TakeExactOrdered(bs: seq<Block>, k: nat, size: nat, base: nat, limit: nat)
    requires k < |bs| && Ordered(bs, base, limit) && size <= bs[k].size && size % ALIGNMENT == 0
    ensures Ordered(TakeExact(bs, k, size), base, limit)
    ensures Total(TakeExact(bs, k, size)) + Discarded(bs[k], size) == Total(bs)
  {
    hide Total, Ordered;
    var s := if bs[k].size > size + HEADER + ALIGNMENT then Split(bs, k, size) else bs;
    SplitOrdered(bs, k, size, base, limit);
    SplitTotal(bs, k, size);
    ResizeOrdered(s, k, size, base, limit);
  }

  lemma ResizeOrdered(bs: seq<Block>, k: nat, size: nat, base: nat, limit: nat)
    requires k < |bs| && Ordered(bs, base, limit) && size <= bs[k].size && size % ALIGNMENT == 0
    ensures var r := bs[k := bs[k].(size := size, free := false)];
            Ordered(r, base, limit) && Total(r) + bs[k].size == Total(bs) + size
  {
    hide Total;
    var r := bs[k := bs[k].(size := size, free := false)];
    assert Inside(bs[k], base, limit);
    forall j | 0 <= j < |r| ensures Inside(r[j], base, limit) { assert Inside(bs[j], base, limit); }
    SetTotal(bs, k, r[k]);
  }

  // Both splits leave the taken block between its free remainders.
  lemma AlignedCoalesced(bs: seq<Block>, k: nat, gap: nat, size: nat)
    requires k < |bs| && Coalesced(bs) && bs[k].free && Sound(bs[k], gap)
    ensures Coalesced(AlignedTake(bs, k, gap, size))
  {
    hide Split;
    var (s, i) := Lead(bs, k, gap);
    forall j | 0 < j < |s| && j != i && j != i + 1 ensures !(s[j - 1].free && s[j].free) {
      if gap > 0 && j >= i + 2 { assert s[j] == bs[j - 1] && s[j - 1] == bs[j - 2]; }
    }
    assert i + 1 < |s| ==> s[i + 1] == bs[k + 1] && !bs[k + 1].free;
    ExactCoalesced(s, i, size);
  }

  lemma ExactCoalesced(bs: seq<Block>, k: nat, size: nat)
    requires k < |bs| && CoalescedBut(bs, k) && (k + 1 < |bs| ==> !bs[k + 1].free)
    ensures Coalesced(TakeExact(bs, k, size))
  {
    hide Split;
    var r := TakeExact(bs, k, size);
    forall j | 0 < j < |r| ensures !(r[j - 1].free && r[j].free) {
      if |r| > |bs| {
        if j >= k + 2 { assert r[j] == bs[j - 1]; }
        if j >= k + 3 { assert r[j - 1] == bs[j - 2]; }
      }
    }
  }

  // The call keeps the heap, accounts for every byte, and hands out an aligned block.
  lemma AlignedHeap(bs: seq<Block>, k: nat, alignment: nat, size: nat, base: nat, limit: nat)
    requires Heap(bs, base, limit) && k < |bs| && alignment > 0 && alignment % ALIGNMENT == 0 && size % ALIGNMENT == 0
    requires Holds(bs[k], alignment, size) && Sound(bs[k], Gap(bs[k].addr, alignment))
    ensures var gap := Gap(bs[k].addr, alignment);
            var (s, i) := Lead(bs, k, gap);
            var r := AlignedTake(bs, k, gap, size);
            && Heap(r, base, limit)
            && i < |s| && i < |r| && 0 <= Discarded(s[i], size) <= HEADER + ALIGNMENT
            && Total(r) + Discarded(s[i], size) == Total(bs) && Wasted(bs, k, gap, size) == Discarded(s[i], size)
            && r[i] == Block(bs[k].addr + gap, size, false) && Rem(r[i].Payload(), alignment) == 0
  {
    hide Total, Ordered, Coalesced, Split, Gap, Rem;
    var gap := Gap(bs[k].addr, alignment);
    assert Inside(bs[k], base, limit) by { InsideAt(bs, k, base, limit); }
    GapAligned(bs[k].addr, alignment);
    var (s, i) := Lead(bs, k, gap);
    if gap >= HEADER {
      SplitOrdered(bs, k, gap - HEADER, base, limit);
      SplitTotal(bs, k, gap - HEADER);
    }
    TakeExactOrdered(s, i, size, base, limit);
    AlignedCoalesced(bs, k, gap, size);
  }

  lemma InsideAt(bs: seq<Block>, k: nat, base: nat, limit: nat)
    requires Ordered(bs, base, limit) && k < |bs|
    ensures Inside(bs[k], base, limit)
  {
  }

  // Where block j is after block k was split at size.
  function After(bs: seq<Block>, k: nat, size: nat, j: nat): (i: nat)
    requires k < |bs| && j < |bs| && j != k
    ensures i < |Split(bs, k, size)| && i != k && Split(bs, k, size)[i] == bs[j]
    ensures Splits(bs[k], size) ==> i != k + 1
  {
    if j < k || !Splits(bs[k], size) then j else j + 1
  }

  function AfterExact(bs: seq<Block>, k: nat, size: nat, j: nat): (i: nat)
    requires k < |bs| && j < |bs| && j != k
    ensures i < |TakeExact(bs, k, size)| && i != k && TakeExact(bs, k, size)[i] == bs[j]
  {
    if bs[k].size > size + HEADER + ALIGNMENT then After(bs, k, size, j) else j
  }

  lemma AlignedKeeps(bs: seq<Block>, k: nat, gap: nat, size: nat)
    requires k < |bs| && Sound(bs[k], gap)
    ensures KeepsLive(bs, AlignedTake(bs, k, gap, size), k)
  {
    hide Live, Split, TakeExact;
    var (s, i) := Lead(bs, k, gap);
    var r := AlignedTake(bs, k, gap, size);
    forall j | 0 <= j < |bs| && j != k && !bs[j].free ensures Live(r, bs[j].Payload(), bs[j].size) {
      var j1 := if gap >= HEADER then After(bs, k, gap - HEADER, j) else j;
      LiveAt(r, AfterExact(s, i, size, j1), bs[j].Payload(), bs[j].size);
    }
  }

  // The returned pointer is the payload of a list block exactly when the gap is not a partial header:
  // otherwise val_free would look for a header that nobody wrote.
  lemma PointerListedIff(bs: seq<Block>, k: nat, alignment: nat, size: nat, base: nat, limit: nat)
    requires Ordered(bs, base, limit) && k < |bs| && alignment > 0 && Holds(bs[k], alignment, size)
    requires var gap := Gap(bs[k].addr, alignment); gap >= HEADER ==> Splits(bs[k], gap - HEADER)
    ensures var gap := Gap(bs[k].addr, alignment);
            (exists j :: 0 <= j < |AlignedTake(bs, k, gap, size)|
                         && AlignedTake(bs, k, gap, size)[j].Payload() == bs[k].addr + gap + HEADER)
            <==> (gap == 0 || gap >= HEADER)
  {
    hide Gap, Split, Total;
    var gap := Gap(bs[k].addr, alignment);
    var r, p := AlignedTake(bs, k, gap, size), bs[k].addr + gap + HEADER;
    if gap == 0 || gap >= HEADER {
      var i := Lead(bs, k, gap).1;
      assert r[i].Payload() == p;
    } else {
      assert r[k].addr == bs[k].addr;
      forall j | 0 <= j < |r| ensures r[j].Payload() != p {
        if j > k {
          if |r| > |bs| {
            assert j > k + 1 ==> r[j] == bs[j - 1];
          } else {
            assert r[j] == bs[j];
          }
        }
      }
    }
  }

  // The leading split can fail only for an empty request that the gap leaves no byte for.
  lemma LeadFailsIff(b: Block, gap: nat, size: nat)
    requires gap >= HEADER && b.size >= gap + size
    requires b.size % ALIGNMENT == 0 && gap % ALIGNMENT == 0 && size % ALIGNMENT == 0
    ensures !Splits(b, gap - HEADER) <==> size == 0 && b.size == gap
  {
  }

  // Line 454 then moves on to the successor, which was never examined: there is none behind a last
  // block, and otherwise it is a block in use, which lines 457-461 cut down to nothing.
  lemma LeadRunsOver(bs: seq<Block>, k: nat, gap: nat, base: nat, limit: nat)
    requires Heap(bs, base, limit) && k < |bs| && bs[k].free && gap >= HEADER && !Splits(bs[k], gap - HEADER)
    ensures Lead(bs, k, gap) == (bs, k + 1)
    ensures k + 1 < |bs| ==>
              && !bs[k + 1].free && |AlignedTake(bs, k, gap, 0)| > k + 1
              && AlignedTake(bs, k, gap, 0)[k + 1] == Block(bs[k + 1].addr, 0, false)
              && (bs[k + 1].size > 0 ==> !Live(AlignedTake(bs, k, gap, 0), bs[k + 1].Payload(), bs[k + 1].size))
  {
    hide Split, Total, Ordered, Live, Coalesced;
    if k + 1 < |bs| {
      NeighboursApart(bs, k + 1);
      var r := AlignedTake(bs, k, gap, 0);
      TakeExactOrdered(bs, k + 1, 0, base, limit);
      if bs[k + 1].size > 0 { CutNotLive(r, k + 1, bs[k + 1].size, base, limit); }
    }
  }

  lemma CutNotLive(bs: seq<Block>, k: nat, size: nat, base: nat, limit: nat)
    requires Ordered(bs, base, limit) && k < |bs| && bs[k].size < size
    ensures !Live(bs, bs[k].Payload(), size)
  {
    assert forall j | 0 <= j < k :: bs[j].End() <= bs[k].addr;
    assert forall j | k < j < |bs| :: bs[k].End() <= bs[j].addr;
  }
}
