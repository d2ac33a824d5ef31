/** Which payloads a block list has in use, and how each operation changes that set. */
module HeapUsed {
  import opened HeapBlocks
  import opened HeapAligned

  // The payloads of the blocks in use.
  ghost function Used(bs: seq<Block>): set<nat> {
    set k | 0 <= k < |bs| && !bs[k].free :: bs[k].Payload()
  }

  lemma UsedSplit(bs: seq<Block>, k: nat, n: nat)
    requires k < |bs|
    ensures Used(Split(bs, k, n)) == Used(bs)
  {
    hide Split;
    var s := Split(bs, k, n);
    if Splits(bs[k], n) {
      forall p | p in Used(bs) ensures p in Used(s) {
        var j :| 0 <= j < |bs| && !bs[j].free && bs[j].Payload() == p;
        var i := if j <= k then j else j + 1;
        assert s[i].addr == bs[j].addr && s[i].free == bs[j].free;
      }
      forall p | p in Used(s) ensures p in Used(bs) {
        var i :| 0 <= i < |s| && !s[i].free && s[i].Payload() == p;
        var j := if i <= k then i else i - 1;
        assert s[i].addr == bs[j].addr && s[i].free == bs[j].free;
      }
    }
  }

  // Marking block k, whatever its size becomes.
  lemma UsedMark(bs: seq<Block>, k: nat, b: Block)
    requires k < |bs| && b.addr == bs[k].addr && !b.free
    ensures Used(bs[k := b]) == Used(bs) + {b.Payload()}
  {
    var r := bs[k := b];
    assert r[k] == b;
    forall p | p in Used(bs) ensures p in Used(r) {
      var j :| 0 <= j < |bs| && !bs[j].free && bs[j].Payload() == p;
      assert !r[j].free && r[j].Payload() == p;
    }
    forall p | p in Used(r) ensures p in Used(bs) + {b.Payload()} {
      var j :| 0 <= j < |r| && !r[j].free && r[j].Payload() == p;
      if j != k { assert r[j] == bs[j]; }
    }
  }

  lemma UsedTake(bs: seq<Block>, k: nat, n: nat)
    requires k < |bs|
    ensures Used(Take(bs, k, n)) == Used(bs) + {bs[k].Payload()}
  {
    hide Used, Split;
    var s := Split(bs, k, n);
    UsedSplit(bs, k, n);
    UsedMark(s, k, s[k].(free := false));
  }

  // Different blocks have different payloads.
  lemma PayloadsDiffer(bs: seq<Block>, base: nat, limit: nat, j: nat, k: nat)
    requires Ordered(bs, base, limit) && j < |bs| && k < |bs| && j != k
    ensures bs[j].Payload() != bs[k].Payload()
  {
    if j < k { assert bs[j].End() <= bs[k].addr; } else { assert bs[k].End() <= bs[j].addr; }
  }

  lemma UsedUnmark(bs: seq<Block>, k: nat, base: nat, limit: nat)
    requires k < |bs| && Ordered(bs, base, limit)
    ensures Used(bs[k := bs[k].(free := true)]) == Used(bs) - {bs[k].Payload()}
  {
    hide Ordered;
    var r := bs[k := bs[k].(free := true)];
    forall p | p in Used(bs) - {bs[k].Payload()} ensures p in Used(r) {
      var j :| 0 <= j < |bs| && !bs[j].free && bs[j].Payload() == p;
      assert j != k && r[j] == bs[j];
    }
    forall p | p in Used(r) ensures p in Used(bs) - {bs[k].Payload()} {
      var j :| 0 <= j < |r| && !r[j].free && r[j].Payload() == p;
      assert j != k && r[j] == bs[j];
      PayloadsDiffer(bs, base, limit, j, k);
    }
  }

  // Absorbing block k + 1 drops it, and a free block's absorbing changes nothing else.
  lemma UsedMerge(bs: seq<Block>, k: nat, base: nat, limit: nat)
    requires k + 1 < |bs| && Ordered(bs, base, limit)
    ensures Used(Merge(bs, k)) == Used(bs) - {bs[k + 1].Payload()}
    ensures bs[k + 1].free ==> Used(Merge(bs, k)) == Used(bs)
  {
    hide Merge, Ordered;
    var m, gone := Merge(bs, k), bs[k + 1].Payload();
    forall p | p in Used(bs) - {gone} ensures p in Used(m) {
      var j :| 0 <= j < |bs| && !bs[j].free && bs[j].Payload() == p;
      var i := if j <= k then j else j - 1;
      assert m[i].addr == bs[j].addr && m[i].free == bs[j].free;
    }
    forall p | p in Used(m) ensures p in Used(bs) - {gone} {
      var i :| 0 <= i < |m| && !m[i].free && m[i].Payload() == p;
      var j := if i <= k then i else i + 1;
      assert m[i].addr == bs[j].addr && m[i].free == bs[j].free;
      PayloadsDiffer(bs, base, limit, j, k + 1);
    }
    if bs[k + 1].free && gone in Used(bs) {
      var j :| 0 <= j < |bs| && !bs[j].free && bs[j].Payload() == gone;
      PayloadsDiffer(bs, base, limit, j, k + 1);
    }
  }

  lemma UsedCoalesce(bs: seq<Block>, k: nat, base: nat, limit: nat)
    requires k < |bs| && Ordered(bs, base, limit) && CoalescedBut(bs, k)
    ensures var (c, j) := Coalesce(bs, k);
            Used(c) == if j < k then Used(bs) - {bs[k].Payload()} else Used(bs)
  {
    hide Used, Ordered, CoalescedBut, Forward, Backward, Merge;
    ForwardOnce(bs, k);
    var f := Forward(bs, k);
    if k + 1 < |bs| && bs[k + 1].free {
      UsedMerge(bs, k, base, limit);
      MergeOrdered(bs, k, base, limit);
    }
    BackwardOnce(f, k);
    if k > 0 && f[k - 1].free { UsedMerge(f, k - 1, base, limit); }
  }

  lemma UsedRelease(bs: seq<Block>, k: nat, base: nat, limit: nat)
    requires Heap(bs, base, limit) && k < |bs|
    ensures Used(Release(bs, k)) == Used(bs) - {bs[k].Payload()}
  {
    hide Used, Ordered, Coalesce, Total;
    SetFree(bs, k, true, base, limit);
    UsedUnmark(bs, k, base, limit);
    UsedCoalesce(bs[k := bs[k].(free := true)], k, base, limit);
  }

  // val_realloc gives up one pointer and hands out one.
  lemma UsedRealloc(bs: seq<Block>, bs': seq<Block>, k: nat, n: nat, q: nat, base: nat, limit: nat)
    requires Heap(bs, base, limit) && k < |bs| && !bs[k].free && n % ALIGNMENT == 0 && Reallocates(bs, bs', k, n, q)
    ensures Used(bs') == Used(bs) - {bs[k].Payload()} + {q}
  {
    hide Used, Ordered, Coalesced, Split, Take, Release, Coalesce, CanGrow, NoSuccessor, CoalescedBut, Splits;
    UsedIn(bs, k);
    if ByShrink(bs, bs', k, n, q) {
      UsedSplit(bs, k, n);
      SplitOrdered(bs, k, n, base, limit);
      ShrinkBut(bs, k, n);
      UsedCoalesce(Split(bs, k, n), k + 1, base, limit);
    } else if ByGrow(bs, bs', k, n, q) {
      AllButNone(bs, k);
      var (c, j) := Coalesce(bs, k);
      CoalesceGrows(bs, k, n);
      UsedCoalesce(bs, k, base, limit);
      UsedTake(c, j, n);
    } else {
      var t: nat :| ByCopy(bs, bs', k, t, n, q);
      TakeHeap(bs, t, n, base, limit);
      UsedTake(bs, t, n);
      UsedRelease(Take(bs, t, n), TakenAt(bs, t, n, k), base, limit);
      PayloadsDiffer(bs, base, limit, t, k);
    }
  }

  lemma UsedIn(bs: seq<Block>, k: nat)
    requires k < |bs| && !bs[k].free
    ensures bs[k].Payload() in Used(bs)
  {
  }

  lemma UsedAligned(bs: seq<Block>, k: nat, gap: nat, size: nat)
    requires k < |bs| && Sound(bs[k], gap)
    ensures Used(AlignedTake(bs, k, gap, size)) == Used(bs) + {bs[k].addr + gap + HEADER}
  {
    hide Used, Split;
    var (s, i) := Lead(bs, k, gap);
    if gap >= HEADER { UsedSplit(bs, k, gap - HEADER); }
    var t := if s[i].size > size + HEADER + ALIGNMENT then Split(s, i, size) else s;
    UsedSplit(s, i, size);
    UsedMark(t, i, t[i].(size := size, free := false));
  }
}
