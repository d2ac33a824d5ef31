/** Every run of val_malloc, val_calloc, val_free, val_realloc and val_aligned_alloc, seen on the list
    of blocks and on the pointers handed out.  The methods of class Heap promise these steps. */
module HeapRuns {
  import opened Arith
  import opened HeapBlocks
  import opened HeapAligned
  import opened HeapUsed

  // The list, the bytes that aligned requests have discarded, and the pointers handed out and not yet
  // given back, each with the size it was requested with.
  datatype State = State(bs: seq<Block>, lost: nat, owned: map<nat, nat>)

  // A call that succeeds: the block it works on, the rounded size n and the requested size want.
  datatype Call =
    | Allocate(k: nat, n: nat, want: nat)               // val_malloc and val_calloc
    | Free(k: nat)
    | Reallocate(k: nat, n: nat, want: nat, q: nat)
    | Align(k: nat, alignment: nat, n: nat)

  ghost predicate Step(s: State, s': State, c: Call) {
    c.k < |s.bs| &&
    match c
    case Allocate(k, n, want) =>
      && want <= n && n % ALIGNMENT == 0 && Fits(s.bs[k], n)
      && s' == State(Take(s.bs, k, n), s.lost, s.owned[s.bs[k].Payload() := want])
    case Free(k) => !s.bs[k].free && s' == State(Release(s.bs, k), s.lost, s.owned - {s.bs[k].Payload()})
    case Reallocate(k, n, want, q) =>
      && want <= n && n % ALIGNMENT == 0 && !s.bs[k].free && Reallocates(s.bs, s'.bs, k, n, q)
      && s'.lost == s.lost && s'.owned == (s.owned - {s.bs[k].Payload()})[q := want]
    case Align(k, alignment, n) =>
      && alignment > 0 && alignment % ALIGNMENT == 0 && n % ALIGNMENT == 0
      && Holds(s.bs[k], alignment, n) && Sound(s.bs[k], Gap(s.bs[k].addr, alignment))
      && s' == State(AlignedTake(s.bs, k, Gap(s.bs[k].addr, alignment), n),
                     s.lost + Wasted(s.bs, k, Gap(s.bs[k].addr, alignment), n),
                     s.owned[RoundUp(s.bs[k].addr + HEADER, alignment) := n])
  }

  function Initial(base: nat, size: nat): State
    requires HEADER <= size
  {
    State([Block(base, size - HEADER, true)], 0, map[])
  }

  ghost predicate Run(base: nat, size: nat, run: seq<State>, calls: seq<Call>) {
    && HEADER <= size && |run| == |calls| + 1 && run[0] == Initial(base, size)
    && forall i | 0 <= i < |calls| :: Step(run[i], run[i + 1], calls[i])
  }

  // Every pointer handed out is the payload of a block in use, as large as requested.
  ghost predicate OwnedLive(bs: seq<Block>, owned: map<nat, nat>) {
    forall p | p in owned :: Live(bs, p, owned[p])
  }

  // The blocks in use are exactly the owned ones.
  ghost predicate Inv(s: State, base: nat, size: nat) {
    && Heap(s.bs, base, base + size) && Total(s.bs) + s.lost == size
    && Used(s.bs) == s.owned.Keys && OwnedLive(s.bs, s.owned)
  }

  lemma StillLive(bs: seq<Block>, bs': seq<Block>, owned: map<nat, nat>, k: nat, p: nat)
    requires OwnedLive(bs, owned) && KeepsLive(bs, bs', k) && p in owned
    requires k < |bs| && (bs[k].free || p != bs[k].Payload())
    ensures Live(bs', p, owned[p])
  {
    var j :| 0 <= j < |bs| && !bs[j].free && bs[j].Payload() == p && bs[j].size >= owned[p];
    LiveSmaller(bs', p, bs[j].size, owned[p]);
  }

  // One pointer may be given up and one handed out; the others stay live.
  lemma OwnedMoves(bs: seq<Block>, bs': seq<Block>, owned: map<nat, nat>, k: nat, q: nat, want: nat)
    requires OwnedLive(bs, owned) && k < |bs| && KeepsLive(bs, bs', k) && Live(bs', q, want)
    ensures OwnedLive(bs', (owned - {bs[k].Payload()})[q := want])
    ensures bs[k].free ==> OwnedLive(bs', owned[q := want])
  {
    hide Live, KeepsLive;
    forall p | p in owned && p != q && (bs[k].free || p != bs[k].Payload()) ensures Live(bs', p, owned[p]) {
      StillLive(bs, bs', owned, k, p);
    }
  }

  lemma OwnedLeaves(bs: seq<Block>, bs': seq<Block>, owned: map<nat, nat>, k: nat)
    requires OwnedLive(bs, owned) && k < |bs| && KeepsLive(bs, bs', k)
    ensures OwnedLive(bs', owned - {bs[k].Payload()})
  {
    hide Live, KeepsLive;
    forall p | p in owned && p != bs[k].Payload() ensures Live(bs', p, owned[p]) {
      StillLive(bs, bs', owned, k, p);
    }
  }

  lemma ReallocateKeeps(bs: seq<Block>, bs': seq<Block>, k: nat, n: nat, q: nat, base: nat, limit: nat)
    requires Heap(bs, base, limit) && k < |bs| && !bs[k].free && n % ALIGNMENT == 0 && Reallocates(bs, bs', k, n, q)
    ensures Heap(bs', base, limit) && Total(bs') == Total(bs) && KeepsLive(bs, bs', k) && Live(bs', q, n)
  {
    hide Shrink, Grow, Release, Take, Total, CanGrow, NoSuccessor, Live, KeepsLive, Ordered, Coalesce;
    if ByShrink(bs, bs', k, n, q) {
      ShrinkHeap(bs, k, n, base, limit);
    } else if ByGrow(bs, bs', k, n, q) {
      GrowHeap(bs, k, n, base, limit);
      GrownAt(bs, k, n);
      LiveAt(bs', Coalesce(bs, k).1, q, n);
    } else {
      var t: nat :| ByCopy(bs, bs', k, t, n, q);
      TakeHeap(bs, t, n, base, limit);
      CopyLive(bs, Take(bs, t, n), t, n, k, TakenAt(bs, t, n, k));
      ReleaseHeap(Take(bs, t, n), TakenAt(bs, t, n, k), base, limit);
    }
  }

  lemma GrownAt(bs: seq<Block>, k: nat, n: nat)
    requires k < |bs|
    ensures Coalesce(bs, k).1 < |Grow(bs, k, n)|
  {
  }

  lemma AllocateStep(s: State, s': State, c: Call, base: nat, size: nat)
    requires Inv(s, base, size) && Step(s, s', c) && c.Allocate?
    ensures Inv(s', base, size) && s.bs[c.k].Payload() !in s.owned
  {
    hide Heap, Take, Total, Live, KeepsLive, Used, OwnedLive;
    TakeHeap(s.bs, c.k, c.n, base, base + size);
    TakeKeeps(s.bs, c.k, c.n);
    UsedTake(s.bs, c.k, c.n);
    LiveAt(s'.bs, c.k, s.bs[c.k].Payload(), c.want);
    OwnedMoves(s.bs, s'.bs, s.owned, c.k, s.bs[c.k].Payload(), c.want);
    FreeUnused(s.bs, c.k, s.bs[c.k].Payload(), base, base + size);
  }

  // An address inside a free block is nobody's payload.
  lemma FreeUnused(bs: seq<Block>, k: nat, p: nat, base: nat, limit: nat)
    requires Heap(bs, base, limit) && k < |bs| && bs[k].free && bs[k].Payload() <= p <= bs[k].End()
    ensures p !in Used(bs)
  {
    assert forall j | 0 <= j < k :: bs[j].End() <= bs[k].addr;
    assert forall j | k < j < |bs| :: bs[k].End() <= bs[j].addr;
  }

  lemma FreeStep(s: State, s': State, c: Call, base: nat, size: nat)
    requires Inv(s, base, size) && Step(s, s', c) && c.Free?
    ensures Inv(s', base, size)
  {
    hide Release, Total, KeepsLive, Used, OwnedLive, Ordered;
    ReleaseHeap(s.bs, c.k, base, base + size);
    ReleaseKeeps(s.bs, c.k);
    UsedRelease(s.bs, c.k, base, base + size);
    OwnedLeaves(s.bs, s'.bs, s.owned, c.k);
  }

  lemma ReallocateStep(s: State, s': State, c: Call, base: nat, size: nat)
    requires Inv(s, base, size) && Step(s, s', c) && c.Reallocate?
    ensures Inv(s', base, size) && (c.q == s.bs[c.k].Payload() || c.q !in s.owned)
  {
    hide Heap, Total, Live, KeepsLive, Used, OwnedLive, Reallocates;
    ReallocateKeeps(s.bs, s'.bs, c.k, c.n, c.q, base, base + size);
    UsedRealloc(s.bs, s'.bs, c.k, c.n, c.q, base, base + size);
    LiveSmaller(s'.bs, c.q, c.n, c.want);
    OwnedMoves(s.bs, s'.bs, s.owned, c.k, c.q, c.want);
    ReallocatedFresh(s.bs, s'.bs, c.k, c.n, c.q, base, base + size);
  }

  lemma ReallocatedFresh(bs: seq<Block>, bs': seq<Block>, k: nat, n: nat, q: nat, base: nat, limit: nat)
    requires Heap(bs, base, limit) && k < |bs| && Reallocates(bs, bs', k, n, q)
    ensures q == bs[k].Payload() || q !in Used(bs)
  {
    hide Used, Ordered, Split, Take, Release, Coalesce, CanGrow, NoSuccessor, CoalescedBut, Splits, Shrink, Grow;
    if ByGrow(bs, bs', k, n, q) {
      AllButNone(bs, k);
      CoalesceGrows(bs, k, n);
      if Coalesce(bs, k).1 < k { FreeUnused(bs, k - 1, q, base, limit); }
    } else if t: nat :| ByCopy(bs, bs', k, t, n, q) {
      FreeUnused(bs, t, q, base, limit);
    }
  }

  lemma AlignStep(s: State, s': State, c: Call, base: nat, size: nat)
    requires Inv(s, base, size) && Step(s, s', c) && c.Align?
    ensures Inv(s', base, size) && s.lost <= s'.lost <= s.lost + HEADER + ALIGNMENT
    ensures RoundUp(s.bs[c.k].addr + HEADER, c.alignment) !in s.owned
    ensures Rem(RoundUp(s.bs[c.k].addr + HEADER, c.alignment), c.alignment) == 0
  {
    hide Heap, AlignedTake, Total, RoundUp, Rem, Live, KeepsLive, Used, OwnedLive;
    var gap := Gap(s.bs[c.k].addr, c.alignment);
    AlignedHeap(s.bs, c.k, c.alignment, c.n, base, base + size);
    AlignedKeeps(s.bs, c.k, gap, c.n);
    UsedAligned(s.bs, c.k, gap, c.n);
    var p := RoundUp(s.bs[c.k].addr + HEADER, c.alignment);
    assert p == s.bs[c.k].addr + gap + HEADER;
    LiveAt(s'.bs, Lead(s.bs, c.k, gap).1, p, c.n);
    OwnedMoves(s.bs, s'.bs, s.owned, c.k, p, c.n);
    FreeUnused(s.bs, c.k, p, base, base + size);
  }

  // Every successful call keeps the heap, its bytes and the liveness of everything handed out; only
  // aligned calls lose bytes.
  lemma InvStep(s: State, s': State, c: Call, base: nat, size: nat)
    requires Inv(s, base, size) && Step(s, s', c)
    ensures Inv(s', base, size)
    ensures s.lost <= s'.lost <= s.lost + HEADER + ALIGNMENT && (!c.Align? ==> s'.lost == s.lost)
  {
    hide Inv, Take, Release, AlignedTake, Reallocates, Gap, RoundUp, Sound, Holds;
    match c
    case Allocate(_, _, _) => AllocateStep(s, s', c, base, size);
    case Free(_) => FreeStep(s, s', c, base, size);
    case Reallocate(_, _, _, _) => ReallocateStep(s, s', c, base, size);
    case Align(_, _, _) => AlignStep(s, s', c, base, size);
  }

  lemma InvInitial(base: nat, size: nat)
    requires base % ALIGNMENT == 0 && size % ALIGNMENT == 0 && HEADER <= size
    ensures Inv(Initial(base, size), base, size)
  {
    var b := Block(base, size - HEADER, true);
    assert Inside(b, base, base + size);
    TotalSmall(b, b);
  }

  lemma {:induction false} InvRun(base: nat, size: nat, run: seq<State>, calls: seq<Call>, i: nat)
    requires base % ALIGNMENT == 0 && size % ALIGNMENT == 0 && Run(base, size, run, calls) && i < |run|
    ensures Inv(run[i], base, size)
  {
    hide Inv, Step;
    if i == 0 {
      InvInitial(base, size);
    } else {
      InvRun(base, size, run, calls, i - 1);
      InvStep(run[i - 1], run[i], calls[i - 1], base, size);
    }
  }

  // The bytes of two pointers do not meet.
  predicate Apart(p: nat, n: nat, q: nat, m: nat) {
    p + n <= q || q + m <= p
  }

  lemma OwnedApart(bs: seq<Block>, owned: map<nat, nat>, p: nat, q: nat, base: nat, limit: nat)
    requires Ordered(bs, base, limit) && OwnedLive(bs, owned) && p in owned && q in owned && p != q
    ensures Apart(p, owned[p], q, owned[q])
  {
    var j :| 0 <= j < |bs| && !bs[j].free && bs[j].Payload() == p && bs[j].size >= owned[p];
    var k :| 0 <= k < |bs| && !bs[k].free && bs[k].Payload() == q && bs[k].size >= owned[q];
    if j < k { assert bs[j].End() <= bs[k].addr; } else { assert bs[k].End() <= bs[j].addr; }
  }

  lemma OwnedInside(bs: seq<Block>, owned: map<nat, nat>, p: nat, base: nat, limit: nat)
    requires Ordered(bs, base, limit) && OwnedLive(bs, owned) && p in owned
    ensures base <= p && p + owned[p] <= limit && p % ALIGNMENT == 0
  {
    var j :| 0 <= j < |bs| && !bs[j].free && bs[j].Payload() == p && bs[j].size >= owned[p];
    InsideAt(bs, j, base, limit);
  }

  // In every state of every run: every pointer handed out and not given back is the payload of a block
  // in use with at least its requested size, aligned and inside the heap; no two of them share a byte;
  // every byte is in some block or was discarded; no two neighbours are free; and once everything has
  // been given back, one free block holds all the rest.
  lemma EveryRun(base: nat, size: nat, run: seq<State>, calls: seq<Call>, i: nat)
    requires base % ALIGNMENT == 0 && size % ALIGNMENT == 0 && Run(base, size, run, calls) && i < |run|
    ensures forall p | p in run[i].owned ::
              && Live(run[i].bs, p, run[i].owned[p])
              && base <= p && p + run[i].owned[p] <= base + size && p % ALIGNMENT == 0
    ensures forall p, q | p in run[i].owned && q in run[i].owned && p != q :: Apart(p, run[i].owned[p], q, run[i].owned[q])
    ensures Total(run[i].bs) + run[i].lost == size && Ordered(run[i].bs, base, base + size) && Coalesced(run[i].bs)
    ensures run[i].owned == map[] ==>
              HEADER + run[i].lost <= size && run[i].bs == [Block(base, size - HEADER - run[i].lost, true)]
  {
    hide Step, Total, Coalesced, Ordered, OwnedLive, Live;
    InvRun(base, size, run, calls, i);
    var s := run[i];
    forall p | p in s.owned
      ensures Live(s.bs, p, s.owned[p]) && base <= p && p + s.owned[p] <= base + size && p % ALIGNMENT == 0
    {
      OwnedInside(s.bs, s.owned, p, base, base + size);
      OwnedIsLive(s.bs, s.owned, p);
    }
    forall p, q | p in s.owned && q in s.owned && p != q ensures Apart(p, s.owned[p], q, s.owned[q]) {
      OwnedApart(s.bs, s.owned, p, q, base, base + size);
    }
    if s.owned == map[] { NothingOwned(s, base, size); }
  }

  lemma OwnedIsLive(bs: seq<Block>, owned: map<nat, nat>, p: nat)
    requires OwnedLive(bs, owned) && p in owned
    ensures Live(bs, p, owned[p])
  {
  }

  lemma NothingOwned(s: State, base: nat, size: nat)
    requires Inv(s, base, size) && s.owned == map[]
    ensures HEADER + s.lost <= size && s.bs == [Block(base, size - HEADER - s.lost, true)]
  {
    hide Ordered, Total;
    forall k | 0 <= k < |s.bs| ensures s.bs[k].free {
      if !s.bs[k].free { UsedIn(s.bs, k); }
    }
    AllFree(s.bs, base, base + size);
  }

  ghost function Discards(calls: seq<Call>): nat {
    if calls == [] then 0 else Discards(calls[..|calls| - 1]) + if calls[|calls| - 1].Align? then 1 else 0
  }

  // What is lost over a run is bounded by its aligned calls.
  lemma {:induction false} LossBound(base: nat, size: nat, run: seq<State>, calls: seq<Call>, i: nat)
    requires base % ALIGNMENT == 0 && size % ALIGNMENT == 0 && Run(base, size, run, calls) && i < |run|
    ensures run[i].lost <= (HEADER + ALIGNMENT) * Discards(calls[..i])
  {
    if i > 0 {
      hide Step, Inv;
      assert calls[..i][i - 1] == calls[i - 1];
      LossBound(base, size, run, calls, i - 1);
      InvRun(base, size, run, calls, i - 1);
      InvStep(run[i - 1], run[i], calls[i - 1], base, size);
      assert calls[..i][..i - 1] == calls[..i - 1];
    }
  }
}
