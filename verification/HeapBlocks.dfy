/** The block list of val/src/val_malloc.c as a value: what splitting and merging do to it, apart
    from how it is laid out in memory. */
module HeapBlocks {

  const HEADER := 32     // BLOCK_SIZE
  const ALIGNMENT := 8

  datatype Block = Block(addr: nat, size: nat, free: bool) {
    function Payload(): nat { addr + HEADER }
    function End(): nat { addr + HEADER + size }
  }

  ghost predicate Inside(b: Block, base: nat, limit: nat) {
    base <= b.addr && b.End() <= limit && b.addr % ALIGNMENT == 0 && b.size % ALIGNMENT == 0
  }

  // Address-ordered, aligned, non-overlapping blocks inside [base, limit).
  ghost predicate Ordered(bs: seq<Block>, base: nat, limit: nat) {
    && (forall k | 0 <= k < |bs| :: Inside(bs[k], base, limit))
    && (forall j, k | 0 <= j < k < |bs| :: bs[j].End() <= bs[k].addr)
  }

  // No two neighbours are both free.
  ghost predicate Coalesced(bs: seq<Block>) {
    forall k | 0 < k < |bs| :: !(bs[k - 1].free && bs[k].free)
  }

  ghost predicate Heap(bs: seq<Block>, base: nat, limit: nat) {
    |bs| > 0 && bs[0].addr == base && Ordered(bs, base, limit) && Coalesced(bs)
  }

  // Header and payload bytes of all blocks.
  function Total(bs: seq<Block>): (r: nat) {
    if bs == [] then 0 else Total(bs[..|bs| - 1]) + HEADER + bs[|bs| - 1].size
  }

  lemma {:induction false} TotalConcat(a: seq<Block>, b: seq<Block>)
    ensures Total(a + b) == Total(a) + Total(b)
  {
    if b == [] {
      assert a + b == a;
    } else {
      assert (a + b)[..|a + b| - 1] == a + b[..|b| - 1];
      TotalConcat(a, b[..|b| - 1]);
    }
  }

  // ---------------------------------------------------------------- splitting

  predicate Splits(b: Block, size: nat) {
    b.size >= size + HEADER + ALIGNMENT
  }

  function Rest(b: Block, size: nat): Block
    requires Splits(b, size)
  {
    Block(b.addr + HEADER + size, b.size - size - HEADER, true)
  }

  // val_split on block k.
  function Split(bs: seq<Block>, k: nat, size: nat): (r: seq<Block>)
    requires k < |bs|
    ensures |r| == |bs| + if Splits(bs[k], size) then 1 else 0
    ensures !Splits(bs[k], size) ==> r == bs
    ensures forall j | 0 <= j < k :: r[j] == bs[j]
    ensures Splits(bs[k], size) ==> r[k] == bs[k].(size := size) && r[k + 1] == Rest(bs[k], size)
    ensures Splits(bs[k], size) ==> forall j | k + 2 <= j < |r| :: r[j] == bs[j - 1]
  {
    if Splits(bs[k], size) then bs[..k] + [bs[k].(size := size), Rest(bs[k], size)] + bs[k + 1..] else bs
  }

  lemma SplitOrdered(bs: seq<Block>, k: nat, size: nat, base: nat, limit: nat)
    requires k < |bs| && Ordered(bs, base, limit) && size % ALIGNMENT == 0
    ensures Ordered(Split(bs, k, size), base, limit)
  {
    if Splits(bs[k], size) {
      var r := Split(bs, k, size);
      assert Inside(bs[k], base, limit);
      RestAligned(bs[k], size);
      forall j | 0 <= j < |r| ensures Inside(r[j], base, limit) {
        if j > k + 1 { assert r[j] == bs[j - 1]; }
      }
      forall j, l | 0 <= j < l < |r| ensures r[j].End() <= r[l].addr {
        assert bs[if j <= k then j else j - 1].addr <= r[j].addr && r[j].End() <= bs[if j <= k then j else j - 1].End();
        assert bs[if l <= k then l else l - 1].addr <= r[l].addr;
      }
    }
  }

  lemma RestAligned(b: Block, size: nat)
    requires Splits(b, size) && b.addr % ALIGNMENT == 0 && b.size % ALIGNMENT == 0 && size % ALIGNMENT == 0
    ensures Rest(b, size).addr % ALIGNMENT == 0 && Rest(b, size).size % ALIGNMENT == 0
  {
  }

  lemma {:induction false} SplitTotal(bs: seq<Block>, k: nat, size: nat)
    requires k < |bs|
    ensures Total(Split(bs, k, size)) == Total(bs)
  {
    if Splits(bs[k], size) {
      var two := [bs[k].(size := size), Rest(bs[k], size)];
      assert bs == bs[..k] + [bs[k]] + bs[k + 1..];
      TotalConcat(bs[..k] + [bs[k]], bs[k + 1..]);
      TotalConcat(bs[..k], [bs[k]]);
      TotalConcat(bs[..k] + two, bs[k + 1..]);
      TotalConcat(bs[..k], two);
      TotalSmall(two[0], two[1]);
      TotalSmall(bs[k], bs[k]);
    }
  }

  // ---------------------------------------------------------------- merging

  // Block k absorbs block k + 1.
  function Merge(bs: seq<Block>, k: nat): (r: seq<Block>)
    requires k + 1 < |bs|
    ensures |r| == |bs| - 1
    ensures forall j | 0 <= j < k :: r[j] == bs[j]
    ensures r[k] == bs[k].(size := bs[k].size + HEADER + bs[k + 1].size)
    ensures forall j | k < j < |r| :: r[j] == bs[j + 1]
  {
    bs[..k] + [bs[k].(size := bs[k].size + HEADER + bs[k + 1].size)] + bs[k + 2..]
  }

  lemma MergeInside(bs: seq<Block>, k: nat, base: nat, limit: nat)
    requires k + 1 < |bs| && Ordered(bs, base, limit)
    ensures Inside(Merge(bs, k)[k], base, limit) && Merge(bs, k)[k].End() <= bs[k + 1].End()
  {
    assert Inside(bs[k], base, limit) && Inside(bs[k + 1], base, limit);
  }

  lemma MergeOrdered(bs: seq<Block>, k: nat, base: nat, limit: nat)
    requires k + 1 < |bs| && Ordered(bs, base, limit)
    ensures Ordered(Merge(bs, k), base, limit)
  {
    hide Merge, Inside;
    var r := Merge(bs, k);
    MergeInside(bs, k, base, limit);
    forall j | 0 <= j < |r| ensures Inside(r[j], base, limit) {
      if j > k { assert r[j] == bs[j + 1]; }
    }
    forall j, l | 0 <= j < l < |r| ensures r[j].End() <= r[l].addr {
      assert r[l].addr == bs[if l <= k then l else l + 1].addr;
      assert r[j].End() <= bs[if j < k then j else j + 1].End();
    }
  }

  lemma TotalSmall(a: Block, b: Block)
    ensures Total([a]) == HEADER + a.size && Total([a, b]) == HEADER + a.size + HEADER + b.size
  {
    assert [a][..0] == [] && [a, b][..1] == [a];
  }

  lemma {:induction false} MergeTotal(bs: seq<Block>, k: nat)
    requires k + 1 < |bs|
    ensures Total(Merge(bs, k)) == Total(bs)
  {
    var two, one := [bs[k], bs[k + 1]], [bs[k].(size := bs[k].size + HEADER + bs[k + 1].size)];
    assert bs == bs[..k] + two + bs[k + 2..];
    TotalConcat(bs[..k] + two, bs[k + 2..]);
    TotalConcat(bs[..k], two);
    TotalConcat(bs[..k] + one, bs[k + 2..]);
    TotalConcat(bs[..k], one);
    TotalSmall(bs[k], bs[k + 1]);
    TotalSmall(one[0], one[0]);
  }

  // val_coalesce on block k: forward while the next is free, then backward while the previous is.
  function Forward(bs: seq<Block>, k: nat): (r: seq<Block>)
    requires k < |bs|
    ensures k < |r|
    decreases |bs|
  {
    if k + 1 < |bs| && bs[k + 1].free then Forward(Merge(bs, k), k) else bs
  }

  function Backward(bs: seq<Block>, k: nat): (r: (seq<Block>, nat))
    requires k < |bs|
    ensures r.1 < |r.0| && r.1 <= k
    decreases k
  {
    if k > 0 && bs[k - 1].free then Backward(Merge(bs, k - 1), k - 1) else (bs, k)
  }

  function Coalesce(bs: seq<Block>, k: nat): (r: (seq<Block>, nat))
    requires k < |bs|
    ensures r.1 < |r.0| && r.1 <= k
  {
    Backward(Forward(bs, k), k)
  }

  // Neighbours are coalesced, except perhaps where block k meets its own.
  ghost predicate CoalescedBut(bs: seq<Block>, k: nat) {
    forall j | 0 < j < |bs| && j != k && j != k + 1 :: !(bs[j - 1].free && bs[j].free)
  }

  // Each merge loop runs at most once.
  lemma ForwardOnce(bs: seq<Block>, k: nat)
    requires k < |bs| && CoalescedBut(bs, k)
    ensures Forward(bs, k) == if k + 1 < |bs| && bs[k + 1].free then Merge(bs, k) else bs
    ensures k + 1 < |Forward(bs, k)| ==> !Forward(bs, k)[k + 1].free
    ensures CoalescedBut(Forward(bs, k), k)
  {
    if k + 1 < |bs| && bs[k + 1].free {
      var m := Merge(bs, k);
      assert k + 1 < |m| ==> m[k + 1] == bs[k + 2];
      assert Forward(m, k) == m;
      forall j | 0 < j < |m| && j != k && j != k + 1 ensures !(m[j - 1].free && m[j].free) {
        if j > k + 1 { assert m[j - 1] == bs[j] && m[j] == bs[j + 1]; }
      }
    }
  }

  lemma BackwardOnce(bs: seq<Block>, k: nat)
    requires k < |bs| && CoalescedBut(bs, k) && (k + 1 < |bs| ==> !bs[k + 1].free)
    ensures Backward(bs, k) == if k > 0 && bs[k - 1].free then (Merge(bs, k - 1), k - 1) else (bs, k)
    ensures Coalesced(Backward(bs, k).0)
  {
    if k > 0 && bs[k - 1].free {
      var m := Merge(bs, k - 1);
      assert Backward(m, k - 1) == (m, k - 1);
      forall j | 0 < j < |m| ensures !(m[j - 1].free && m[j].free) {
        if j >= k { assert m[j] == bs[j + 1]; }
        if j > k { assert m[j - 1] == bs[j]; }
      }
    }
  }

  // Coalescing block k keeps the heap's order and bytes and leaves no two free neighbours.
  lemma CoalesceHeap(bs: seq<Block>, k: nat, base: nat, limit: nat)
    requires k < |bs| && Ordered(bs, base, limit) && CoalescedBut(bs, k) && bs[0].addr == base
    ensures Heap(Coalesce(bs, k).0, base, limit) && Total(Coalesce(bs, k).0) == Total(bs)
  {
    hide Total, Ordered, Coalesced, CoalescedBut, Forward, Backward;
    ForwardOnce(bs, k);
    var f := Forward(bs, k);
    if k + 1 < |bs| && bs[k + 1].free {
      MergeOrdered(bs, k, base, limit);
      MergeTotal(bs, k);
    }
    BackwardOnce(f, k);
    if k > 0 && f[k - 1].free {
      MergeOrdered(f, k - 1, base, limit);
      MergeTotal(f, k - 1);
    }
  }

  // ---------------------------------------------------------------- operations on the list

  predicate Fits(b: Block, size: nat) {
    b.free && b.size >= size
  }

  // val_malloc takes block k.
  function Take(bs: seq<Block>, k: nat, size: nat): (r: seq<Block>)
    requires k < |bs|
    ensures k < |bs| <= |r| && r[k].addr == bs[k].addr && !r[k].free
    ensures bs[k].size >= size ==> r[k].size >= size
  {
    var s := Split(bs, k, size);
    s[k := s[k].(free := false)]
  }

  lemma TakeHeap(bs: seq<Block>, k: nat, size: nat, base: nat, limit: nat)
    requires Heap(bs, base, limit) && k < |bs| && Fits(bs[k], size) && size % ALIGNMENT == 0
    ensures Heap(Take(bs, k, size), base, limit) && Total(Take(bs, k, size)) == Total(bs)
    ensures Take(bs, k, size)[k].addr == bs[k].addr && Take(bs, k, size)[k].size >= size
  {
    hide Total, Ordered;
    SplitOrdered(bs, k, size, base, limit);
    SplitTotal(bs, k, size);
    SetFree(Split(bs, k, size), k, false, base, limit);
    SplitNeighbours(bs, k, size);
  }

  // After a split only the new block may meet a free successor.
  lemma SplitNeighbours(bs: seq<Block>, k: nat, size: nat)
    requires k < |bs| && Coalesced(bs)
    ensures CoalescedBut(Split(bs, k, size), k + 1) || !Splits(bs[k], size)
    ensures bs[k].free ==> CoalescedBut(Split(bs, k, size), k)
  {
    if Splits(bs[k], size) {
      var s := Split(bs, k, size);
      forall j | 0 < j < |s| && j != k + 1 && (j != k + 2 || bs[k].free) ensures !(s[j - 1].free && s[j].free) {
        if j >= k + 2 { assert s[j] == bs[j - 1]; }
        if j >= k + 3 { assert s[j - 1] == bs[j - 2]; }
      }
    }
  }

  lemma SetFree(bs: seq<Block>, k: nat, free: bool, base: nat, limit: nat)
    requires k < |bs| && Ordered(bs, base, limit)
    ensures Ordered(bs[k := bs[k].(free := free)], base, limit)
    ensures Total(bs[k := bs[k].(free := free)]) == Total(bs)
  {
    hide Total;
    var r := bs[k := bs[k].(free := free)];
    forall j | 0 <= j < |r| ensures Inside(r[j], base, limit) { assert Inside(bs[j], base, limit); }
    SetTotal(bs, k, r[k]);
  }

  lemma SetTotal(bs: seq<Block>, k: nat, b: Block)
    requires k < |bs|
    ensures Total(bs[k := b]) + bs[k].size == Total(bs) + b.size
  {
    hide Total;
    assert bs == bs[..k] + [bs[k]] + bs[k + 1..] && bs[k := b] == bs[..k] + [b] + bs[k + 1..];
    TotalConcat(bs[..k] + [bs[k]], bs[k + 1..]);
    TotalConcat(bs[..k], [bs[k]]);
    TotalConcat(bs[..k] + [b], bs[k + 1..]);
    TotalConcat(bs[..k], [b]);
    TotalSmall(bs[k], b);
    TotalSmall(b, b);
  }

  // val_free gives block k back.
  function Release(bs: seq<Block>, k: nat): (r: seq<Block>)
    requires k < |bs|
  {
    Coalesce(bs[k := bs[k].(free := true)], k).0
  }

  lemma ReleaseHeap(bs: seq<Block>, k: nat, base: nat, limit: nat)
    requires Heap(bs, base, limit) && k < |bs|
    ensures Heap(Release(bs, k), base, limit) && Total(Release(bs, k)) == Total(bs)
  {
    SetFree(bs, k, true, base, limit);
    CoalesceHeap(bs[k := bs[k].(free := true)], k, base, limit);
  }

  lemma NeighboursApart(bs: seq<Block>, k: nat)
    requires Coalesced(bs) && 0 < k < |bs|
    ensures !(bs[k - 1].free && bs[k].free)
  {
  }

  // Once every block is free there is one block, holding every byte not lost.
  lemma AllFree(bs: seq<Block>, base: nat, limit: nat)
    requires Heap(bs, base, limit) && forall k | 0 <= k < |bs| :: bs[k].free
    ensures |bs| == 1 && bs[0].size + HEADER == Total(bs)
  {
    if |bs| > 1 { NeighboursApart(bs, 1); }
    assert bs[..0] == [];
  }

  // ---------------------------------------------------------------- what stays live

  // p is the payload of a block in use that holds at least `size` bytes.
  ghost predicate Live(bs: seq<Block>, p: nat, size: nat) {
    exists k :: 0 <= k < |bs| && !bs[k].free && bs[k].Payload() == p && bs[k].size >= size
  }

  // Every block in use, other than block k, is still in use where it was, and no smaller.
  ghost predicate KeepsLive(bs: seq<Block>, bs': seq<Block>, k: int) {
    forall j | 0 <= j < |bs| && j != k && !bs[j].free :: Live(bs', bs[j].Payload(), bs[j].size)
  }

  lemma LiveAt(bs: seq<Block>, k: nat, p: nat, size: nat)
    requires k < |bs| && !bs[k].free && bs[k].Payload() == p && bs[k].size >= size
    ensures Live(bs, p, size)
  {
  }

  lemma TakeKeeps(bs: seq<Block>, k: nat, size: nat)
    requires k < |bs|
    ensures KeepsLive(bs, Take(bs, k, size), k)
  {
    var t := Take(bs, k, size);
    forall j | 0 <= j < |bs| && j != k && !bs[j].free ensures Live(t, bs[j].Payload(), bs[j].size) {
      var i := if j < k || !Splits(bs[k], size) then j else j + 1;
      assert t[i] == bs[j];
    }
  }

  // Where block i of bs, other than k and its merged neighbours, is after coalescing block k.
  lemma CoalesceElsewhere(bs: seq<Block>, k: nat, i: nat) returns (i': nat)
    requires k < |bs| && CoalescedBut(bs, k) && i < |bs| && i != k && !bs[i].free
    ensures var (c, j) := Coalesce(bs, k); i' < |c| && i' != j && c[i'] == bs[i]
  {
    hide Forward, Backward, CoalescedBut;
    ForwardOnce(bs, k);
    var f := Forward(bs, k);
    BackwardOnce(f, k);
    i' := if i > k && k + 1 < |bs| && bs[k + 1].free then i - 1 else i;
    assert f[i'] == bs[i];
    if k > 0 && f[k - 1].free && i > k { i' := i' - 1; }
  }

  // The coalesced block starts no later, and is large enough whenever the test of line 375 passed.
  lemma CoalesceGrows(bs: seq<Block>, k: nat, size: nat)
    requires k < |bs| && CoalescedBut(bs, k)
    ensures var (c, j) := Coalesce(bs, k);
            && (j == k || (k > 0 && j == k - 1 && bs[k - 1].free)) && c[j].addr == bs[j].addr
            && c[j].free == (bs[k].free || j < k) && (j + 1 < |c| ==> !c[j + 1].free)
            && c[j].size >= bs[k].size && (CanGrow(bs, k, size) ==> c[j].size >= size)
  {
    hide Forward, Backward, CoalescedBut;
    ForwardOnce(bs, k);
    BackwardOnce(Forward(bs, k), k);
  }

  // Coalescing block k keeps every other block in use.
  lemma CoalesceKeeps(bs: seq<Block>, k: nat)
    requires k < |bs| && CoalescedBut(bs, k)
    ensures KeepsLive(bs, Coalesce(bs, k).0, k)
    ensures Coalesce(bs, k).1 == k ==> KeepsLive(bs, Coalesce(bs, k).0, -1)
  {
    hide Coalesce, CoalescedBut, Live;
    var (c, j) := Coalesce(bs, k);
    CoalesceGrows(bs, k, 0);
    if j == k && !bs[k].free { LiveAt(c, k, bs[k].Payload(), bs[k].size); }
    forall i | 0 <= i < |bs| && i != k && !bs[i].free ensures Live(c, bs[i].Payload(), bs[i].size) {
      var i' := CoalesceElsewhere(bs, k, i);
      LiveAt(c, i', bs[i].Payload(), bs[i].size);
    }
  }

  lemma ReleaseKeeps(bs: seq<Block>, k: nat)
    requires k < |bs| && Coalesced(bs)
    ensures KeepsLive(bs, Release(bs, k), k)
  {
    var f := bs[k := bs[k].(free := true)];
    CoalesceKeeps(f, k);
    forall j | 0 <= j < |bs| && j != k && !bs[j].free ensures Live(Release(bs, k), bs[j].Payload(), bs[j].size) {
      assert f[j] == bs[j];
    }
  }

  // Payloads of different blocks never share a byte.
  lemma PayloadsDisjoint(bs: seq<Block>, base: nat, limit: nat, j: nat, k: nat, x: nat)
    requires Ordered(bs, base, limit) && j < |bs| && k < |bs| && j != k
    requires bs[j].Payload() <= x < bs[j].End()
    ensures !(bs[k].addr <= x < bs[k].End())
  {
    if j < k { assert bs[j].End() <= bs[k].addr; } else { assert bs[k].End() <= bs[j].addr; }
  }

  // ---------------------------------------------------------------- reallocation

  // Lines 369-373: give back the tail of block k, then coalesce its successor.
  function Shrink(bs: seq<Block>, k: nat, size: nat): (r: seq<Block>)
    requires k < |bs| && k + 1 < |Split(bs, k, size)|
  {
    Coalesce(Split(bs, k, size), k + 1).0
  }

  // Line 371 dereferences the successor's address: it is NULL exactly for a last block whose tail
  // is too small to split off.
  predicate NoSuccessor(bs: seq<Block>, k: nat, size: nat)
    requires k < |bs|
  {
    k + 1 == |bs| && !Splits(bs[k], size)
  }

  lemma ShrinkBut(bs: seq<Block>, k: nat, size: nat)
    requires k < |bs| && Coalesced(bs) && !bs[k].free && !NoSuccessor(bs, k, size)
    ensures k + 1 < |Split(bs, k, size)| && CoalescedBut(Split(bs, k, size), k + 1)
    ensures Coalesce(Split(bs, k, size), k + 1).1 == k + 1
  {
    var s := Split(bs, k, size);
    SplitNeighbours(bs, k, size);
    ForwardOnce(s, k + 1);
    assert Forward(s, k + 1)[k] == s[k] && !s[k].free;
  }

  lemma ShrinkHeap(bs: seq<Block>, k: nat, size: nat, base: nat, limit: nat)
    requires Heap(bs, base, limit) && k < |bs| && !bs[k].free && size <= bs[k].size && size % ALIGNMENT == 0
    requires !NoSuccessor(bs, k, size)
    ensures k + 1 < |Split(bs, k, size)|
    ensures Heap(Shrink(bs, k, size), base, limit) && Total(Shrink(bs, k, size)) == Total(bs)
    ensures KeepsLive(bs, Shrink(bs, k, size), k) && Live(Shrink(bs, k, size), bs[k].Payload(), size)
  {
    hide Total, Ordered, Coalesced, CoalescedBut, Coalesce, Live;
    var s := Split(bs, k, size);
    ShrinkBut(bs, k, size);
    SplitOrdered(bs, k, size, base, limit);
    SplitTotal(bs, k, size);
    CoalesceHeap(s, k + 1, base, limit);
    CoalesceKeeps(s, k + 1);
    forall j | 0 <= j < |bs| && j != k && !bs[j].free ensures Live(Shrink(bs, k, size), bs[j].Payload(), bs[j].size) {
      assert s[if j < k || !Splits(bs[k], size) then j else j + 1] == bs[j];
    }
    assert Live(Shrink(bs, k, size), s[k].Payload(), s[k].size);
    LiveSmaller(Shrink(bs, k, size), s[k].Payload(), s[k].size, size);
  }

  lemma LiveSmaller(bs: seq<Block>, p: nat, size: nat, size': nat)
    requires Live(bs, p, size) && size' <= size
    ensures Live(bs, p, size')
  {
  }

  // Lines 375-378.
  predicate CanGrow(bs: seq<Block>, k: nat, size: nat)
    requires k < |bs|
  {
    || (k + 1 < |bs| && bs[k + 1].free && bs[k].size + HEADER + bs[k + 1].size >= size)
    || (k > 0 && bs[k - 1].free && bs[k].size + HEADER + bs[k - 1].size >= size)
  }

  // Lines 380-387: coalesce block k with its free neighbours and take what is needed.
  function Grow(bs: seq<Block>, k: nat, size: nat): (r: seq<Block>)
    requires k < |bs|
  {
    var (c, j) := Coalesce(bs, k);
    Take(c, j, size)
  }

  lemma GrowHeap(bs: seq<Block>, k: nat, size: nat, base: nat, limit: nat)
    requires Heap(bs, base, limit) && k < |bs| && !bs[k].free && CanGrow(bs, k, size) && size % ALIGNMENT == 0
    ensures Heap(Grow(bs, k, size), base, limit) && Total(Grow(bs, k, size)) == Total(bs)
    ensures KeepsLive(bs, Grow(bs, k, size), k)
    ensures Grow(bs, k, size)[Coalesce(bs, k).1].size >= size && !Grow(bs, k, size)[Coalesce(bs, k).1].free
    ensures Grow(bs, k, size)[Coalesce(bs, k).1].addr == bs[Coalesce(bs, k).1].addr
  {
    hide Total, Ordered, CoalescedBut, Coalesce, Live, Take, Coalesced;
    var (c, j) := Coalesce(bs, k);
    AllButNone(bs, k);
    CoalesceGrows(bs, k, size);
    CoalesceHeap(bs, k, base, limit);
    TakeAny(c, j, size, base, limit);
    TakeKeeps(c, j, size);
    forall i | 0 <= i < |bs| && i != k && !bs[i].free ensures Live(Grow(bs, k, size), bs[i].Payload(), bs[i].size) {
      var i' := CoalesceElsewhere(bs, k, i);
    }
  }

  lemma AllButNone(bs: seq<Block>, k: nat)
    requires Coalesced(bs)
    ensures CoalescedBut(bs, k)
  {
  }

  // Like TakeHeap, for a block that may already be in use but has no free successor.
  lemma TakeAny(bs: seq<Block>, k: nat, size: nat, base: nat, limit: nat)
    requires Heap(bs, base, limit) && k < |bs| && bs[k].size >= size && size % ALIGNMENT == 0
    requires k + 1 < |bs| ==> !bs[k + 1].free
    ensures Heap(Take(bs, k, size), base, limit) && Total(Take(bs, k, size)) == Total(bs)
    ensures Take(bs, k, size)[k].addr == bs[k].addr && Take(bs, k, size)[k].size >= size && !Take(bs, k, size)[k].free
  {
    hide Total, Ordered;
    SplitOrdered(bs, k, size, base, limit);
    SplitTotal(bs, k, size);
    SetFree(Split(bs, k, size), k, false, base, limit);
    SplitNeighbours(bs, k, size);
  }

  // ---------------------------------------------------------------- what val_realloc does to the list

  // Where block k is after block t was taken.
  ghost function TakenAt(bs: seq<Block>, t: nat, n: nat, k: nat): (k1: nat)
    requires t < |bs| && k < |bs| && k != t
    ensures k1 < |Take(bs, t, n)| && k1 != t && Take(bs, t, n)[k1] == bs[k]
  {
    if k < t || !Splits(bs[t], n) then k else k + 1
  }

  lemma CopyLive(bs: seq<Block>, bs1: seq<Block>, t: nat, n: nat, k: nat, k1: nat)
    requires t < |bs| && k < |bs| && k != t && bs[t].size >= n && bs1 == Take(bs, t, n) && k1 == TakenAt(bs, t, n, k)
    requires Coalesced(bs1) && bs[t].free
    ensures Live(Release(bs1, k1), bs[t].Payload(), n) && KeepsLive(bs, Release(bs1, k1), k)
  {
    hide Live, Release, Take;
    ReleaseKeeps(bs1, k1);
    LiveSmaller(Release(bs1, k1), bs1[t].Payload(), bs1[t].size, n);
    forall j | 0 <= j < |bs| && j != k && !bs[j].free ensures Live(Release(bs1, k1), bs[j].Payload(), bs[j].size) {
      var j1 := TakenAt(bs, t, n, j);
      TakenApart(bs, t, n, j, k);
    }
  }

  lemma TakenApart(bs: seq<Block>, t: nat, n: nat, j: nat, k: nat)
    requires t < |bs| && j < |bs| && k < |bs| && j != t && k != t && j != k
    ensures TakenAt(bs, t, n, j) != TakenAt(bs, t, n, k)
  {
  }

  // In place (lines 369-373), into free neighbours (lines 380-388), or to another block (lines 391-398);
  // q is the pointer returned.
  ghost predicate ByShrink(bs: seq<Block>, bs': seq<Block>, k: nat, n: nat, q: nat)
    requires k < |bs|
  {
    && n <= bs[k].size && !NoSuccessor(bs, k, n) && k + 1 < |Split(bs, k, n)| && bs' == Shrink(bs, k, n)
    && q == bs[k].Payload()
  }

  ghost predicate ByGrow(bs: seq<Block>, bs': seq<Block>, k: nat, n: nat, q: nat)
    requires k < |bs|
  {
    bs[k].size < n && CanGrow(bs, k, n) && bs' == Grow(bs, k, n) && q == bs[Coalesce(bs, k).1].Payload()
  }

  ghost predicate ByCopy(bs: seq<Block>, bs': seq<Block>, k: nat, t: nat, n: nat, q: nat) {
    && k < |bs| && t < |bs| && k != t && bs[k].size < n && !CanGrow(bs, k, n)
    && Fits(bs[t], n) && (forall j | 0 <= j < t :: !Fits(bs[j], n))
    && bs' == Release(Take(bs, t, n), TakenAt(bs, t, n, k)) && q == bs[t].Payload()
  }

  ghost predicate Reallocates(bs: seq<Block>, bs': seq<Block>, k: nat, n: nat, q: nat)
    requires k < |bs|
  {
    ByShrink(bs, bs', k, n, q) || ByGrow(bs, bs', k, n, q) || exists t: nat :: ByCopy(bs, bs', k, t, n, q)
  }
}
