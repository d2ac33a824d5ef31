/** The block list laid out in memory.

    Memory is one sequence of cells indexed by address; headers and payloads share it, so a stray
    header write would corrupt a payload.  A multi-byte header field is kept in its first cell. */
module HeapMemory {
  import opened HeapBlocks

  const VALID := 0xABCD
  const INVALID := 0xFEFE

  type Mem = seq<int>

  // struct Block: magic, free, size, next and prev, with 0 for NULL.
  datatype Header = Header(magic: int, free: int, size: int, next: int, prev: int)

  function HeaderAt(m: Mem, a: nat): (h: Header)
    requires a + HEADER <= |m|
  {
    Header(m[a], m[a + 2], m[a + 8], m[a + 16], m[a + 24])
  }

  function PutHeader(m: Mem, a: nat, h: Header): (r: Mem)
    requires a + HEADER <= |m|
    ensures |r| == |m| && HeaderAt(r, a) == h
  {
    m[a := h.magic][a + 2 := h.free][a + 8 := h.size][a + 16 := h.next][a + 24 := h.prev]
  }

  lemma OtherHeader(m: Mem, a: nat, h: Header, b: nat)
    requires a + HEADER <= |m| && b + HEADER <= |m| && (a + HEADER <= b || b + HEADER <= a)
    ensures HeaderAt(PutHeader(m, a, h), b) == HeaderAt(m, b)
  {
  }

  lemma PutPut(m: Mem, a: nat, h: Header, h': Header)
    requires a + HEADER <= |m|
    ensures PutHeader(PutHeader(m, a, h), a, h') == PutHeader(m, a, h')
  {
  }

  lemma PutBack(m: Mem, a: nat)
    requires a + HEADER <= |m|
    ensures PutHeader(m, a, HeaderAt(m, a)) == m
  {
  }

  function NextOf(bs: seq<Block>, k: nat): int
    requires k < |bs|
  {
    if k + 1 < |bs| then bs[k + 1].addr else 0
  }

  function PrevOf(bs: seq<Block>, k: nat): int
    requires k < |bs|
  {
    if k > 0 then bs[k - 1].addr else 0
  }

  function HeaderOf(bs: seq<Block>, k: nat): Header
    requires k < |bs|
  {
    Header(VALID, if bs[k].free then 1 else 0, bs[k].size, NextOf(bs, k), PrevOf(bs, k))
  }

  // Memory holds exactly the doubly linked list bs.
  ghost predicate Linked(m: Mem, bs: seq<Block>) {
    forall k | 0 <= k < |bs| :: bs[k].addr + HEADER <= |m| && HeaderAt(m, bs[k].addr) == HeaderOf(bs, k)
  }

  // The heap's list, in memory: never at address 0, which is NULL.
  ghost predicate Laid(m: Mem, bs: seq<Block>, base: nat, limit: nat) {
    0 < base && limit <= |m| && Ordered(bs, base, limit) && Linked(m, bs)
  }

  ghost predicate PayloadSame(m: Mem, m': Mem, b: Block)
    requires |m'| == |m|
  {
    forall i | b.Payload() <= i < b.End() && i < |m| :: m'[i] == m[i]
  }

  // ---------------------------------------------------------------- val_split

  function SetPrev(m: Mem, a: int, prev: int): (r: Mem)
    requires a == 0 || 0 < a <= |m| - HEADER
    ensures |r| == |m|
  {
    if a == 0 then m else PutHeader(m, a, HeaderAt(m, a).(prev := prev))
  }

  function SplitMem(m: Mem, a: nat, size: nat): (r: Mem)
    requires a + HEADER <= |m|
    requires HeaderAt(m, a).size >= size + HEADER + ALIGNMENT ==>
               a + HEADER + size + HEADER <= |m|
               && (HeaderAt(m, a).next == 0 || 0 < HeaderAt(m, a).next <= |m| - HEADER)
    ensures |r| == |m|
  {
    var h := HeaderAt(m, a);
    if h.size >= size + HEADER + ALIGNMENT then
      var n := a + HEADER + size;
      var m1 := PutHeader(m, n, Header(VALID, 1, h.size - size - HEADER, h.next, a));
      var m2 := SetPrev(m1, h.next, n);
      PutHeader(m2, a, HeaderAt(m2, a).(next := n, size := size))
    else m
  }

  lemma Bounds(bs: seq<Block>, base: nat, limit: nat, k: nat)
    requires Ordered(bs, base, limit) && k < |bs|
    ensures base <= bs[k].addr && bs[k].addr + HEADER + bs[k].size <= limit
  {
    assert Inside(bs[k], base, limit);
  }

  // Headers of ordered blocks do not overlap.
  lemma HeadersApart(bs: seq<Block>, base: nat, limit: nat, j: nat, k: nat)
    requires Ordered(bs, base, limit) && j < k < |bs|
    ensures bs[j].addr + HEADER + bs[j].size <= bs[k].addr
  {
  }

  lemma SplitLaid(m: Mem, bs: seq<Block>, k: nat, size: nat, base: nat, limit: nat)
    requires Laid(m, bs, base, limit) && k < |bs| && size % ALIGNMENT == 0
    ensures HeaderAt(m, bs[k].addr).size == bs[k].size
    ensures Splits(bs[k], size) ==>
              bs[k].addr + HEADER + size + HEADER <= |m|
              && (HeaderAt(m, bs[k].addr).next == 0 || 0 < HeaderAt(m, bs[k].addr).next <= |m| - HEADER)
    ensures Laid(SplitMem(m, bs[k].addr, size), Split(bs, k, size), base, limit)
  {
    hide HeaderAt, PutHeader;
    var a := bs[k].addr;
    assert HeaderAt(m, a) == HeaderOf(bs, k) && Inside(bs[k], base, limit);
    if k + 1 < |bs| { assert Inside(bs[k + 1], base, limit); }
    SplitOrdered(bs, k, size, base, limit);
    if Splits(bs[k], size) {
      hide Ordered, Inside, SplitMem;
      var r, m' := Split(bs, k, size), SplitMem(m, a, size);
      forall j | 0 <= j < |r| ensures HeaderAt(m', r[j].addr) == HeaderOf(r, j) {
        SplitHeader(m, bs, k, size, base, limit, j);
      }
    }
  }

  predicate Apart(a: int, b: int) {
    a + HEADER <= b || b + HEADER <= a
  }

  lemma PrevOther(m: Mem, a: int, prev: int, b: nat)
    requires a == 0 || 0 < a <= |m| - HEADER
    requires b + HEADER <= |m| && (a == 0 || Apart(a, b))
    ensures HeaderAt(SetPrev(m, a, prev), b) == HeaderAt(m, b)
  {
    if a != 0 { OtherHeader(m, a, HeaderAt(m, a).(prev := prev), b); }
  }

  // The headers of the split list, from the three headers that val_split writes.
  lemma SplitHeader(m: Mem, bs: seq<Block>, k: nat, size: nat, base: nat, limit: nat, j: nat)
    requires Laid(m, bs, base, limit) && k < |bs| && Splits(bs[k], size)
    requires Ordered(Split(bs, k, size), base, limit) && j < |Split(bs, k, size)|
    requires HeaderAt(m, bs[k].addr) == HeaderOf(bs, k) && (k + 1 < |bs| ==> Inside(bs[k + 1], base, limit))
    ensures Split(bs, k, size)[j].addr + HEADER <= |m|
    ensures HeaderAt(SplitMem(m, bs[k].addr, size), Split(bs, k, size)[j].addr) == HeaderOf(Split(bs, k, size), j)
  {
    hide PutHeader, HeaderAt, Ordered, Inside;
    var r, a, n, nx := Split(bs, k, size), bs[k].addr, bs[k].addr + HEADER + size, NextOf(bs, k);
    var b := r[j].addr;
    Bounds(r, base, limit, j);
    Bounds(r, base, limit, k);
    Bounds(r, base, limit, k + 1);
    if nx != 0 { Bounds(r, base, limit, k + 2); }
    var h := Header(VALID, 1, bs[k].size - size - HEADER, nx, a);
    var m1 := PutHeader(m, n, h);
    var m2 := SetPrev(m1, nx, n);
    var h2 := HeaderAt(m2, a).(next := n, size := size);
    assert HeaderOf(bs, k).size == bs[k].size && SplitMem(m, a, size) == PutHeader(m2, a, h2);
    var i := if j <= k then j else j - 1;
    assert HeaderAt(m, bs[i].addr) == HeaderOf(bs, i);
    SplitApart(r, base, limit, k, j);
    if j != k + 1 { OtherHeader(m, n, h, b); }
    if j != k + 2 { PrevOther(m1, nx, n, b); }
    if j != k { OtherHeader(m2, a, h2, b); }
  }

  // Block j keeps clear of its three neighbours k, k + 1 and k + 2.
  lemma SplitApart(bs: seq<Block>, base: nat, limit: nat, k: nat, j: nat)
    requires Ordered(bs, base, limit) && k < |bs| && j < |bs|
    ensures forall i | k <= i <= k + 2 && i < |bs| && i != j :: Apart(bs[i].addr, bs[j].addr)
  {
    forall i | k <= i <= k + 2 && i < |bs| && i != j ensures Apart(bs[i].addr, bs[j].addr) {
      if j < i { HeadersApart(bs, base, limit, j, i); } else { HeadersApart(bs, base, limit, i, j); }
    }
  }

  // The header at a lies outside the payload of b.
  predicate Clear(a: int, b: Block) {
    a + HEADER <= b.Payload() || b.End() <= a
  }

  lemma PutPayload(m: Mem, a: nat, h: Header, b: Block)
    requires a + HEADER <= |m| && Clear(a, b)
    ensures PayloadSame(m, PutHeader(m, a, h), b)
  {
  }

  lemma PrevPayload(m: Mem, a: int, prev: int, b: Block)
    requires (a == 0 || 0 < a <= |m| - HEADER) && (a == 0 || Clear(a, b))
    ensures PayloadSame(m, SetPrev(m, a, prev), b)
  {
    if a != 0 { PutPayload(m, a, HeaderAt(m, a).(prev := prev), b); }
  }

  lemma ClearOf(bs: seq<Block>, base: nat, limit: nat, i: nat, j: nat)
    requires Ordered(bs, base, limit) && i < |bs| && j < |bs|
    ensures Clear(bs[i].addr, bs[j])
  {
    if j < i { HeadersApart(bs, base, limit, j, i); }
    if i < j { HeadersApart(bs, base, limit, i, j); }
  }

  // Splitting writes no payload byte that the list still holds.
  lemma SplitPayloads(m: Mem, bs: seq<Block>, k: nat, size: nat, base: nat, limit: nat, j: nat)
    requires Laid(m, bs, base, limit) && k < |bs| && size % ALIGNMENT == 0 && j < |Split(bs, k, size)|
    ensures SplitMem.requires(m, bs[k].addr, size)
    ensures PayloadSame(m, SplitMem(m, bs[k].addr, size), Split(bs, k, size)[j])
  {
    hide PutHeader, HeaderAt, Ordered, Inside, PayloadSame;
    SplitLaid(m, bs, k, size, base, limit);
    var r, b, a := Split(bs, k, size), Split(bs, k, size)[j], bs[k].addr;
    var h := HeaderAt(m, a);
    assert h == HeaderOf(bs, k);
    if Splits(bs[k], size) {
      var n := a + HEADER + size;
      var m1 := PutHeader(m, n, Header(VALID, 1, h.size - size - HEADER, h.next, a));
      var m2 := SetPrev(m1, h.next, n);
      ClearOf(r, base, limit, k + 1, j);
      PutPayload(m, n, Header(VALID, 1, h.size - size - HEADER, h.next, a), b);
      if h.next != 0 { ClearOf(r, base, limit, k + 2, j); }
      PrevPayload(m1, h.next, n, b);
      ClearOf(r, base, limit, k, j);
      PutPayload(m2, a, HeaderAt(m2, a).(next := n, size := size), b);
      SameTrans(m, m1, m2, b);
      SameTrans(m, m2, SplitMem(m, a, size), b);
    } else {
      SameRefl(m, b);
    }
  }

  lemma SameRefl(m: Mem, b: Block)
    ensures PayloadSame(m, m, b)
  {
  }

  lemma SameTrans(m: Mem, m1: Mem, m2: Mem, b: Block)
    requires |m| == |m1| == |m2| && PayloadSame(m, m1, b) && PayloadSame(m1, m2, b)
    ensures PayloadSame(m, m2, b)
  {
  }

  // ---------------------------------------------------------------- one merge of val_coalesce

  // Block a absorbs its successor t, whose header stays behind marked invalid.
  function MergeMem(m: Mem, a: nat): (r: Mem)
    requires a + HEADER <= |m| && 0 < HeaderAt(m, a).next <= |m| - HEADER
    requires var t := HeaderAt(m, HeaderAt(m, a).next); t.next == 0 || 0 < t.next <= |m| - HEADER
    ensures |r| == |m|
  {
    var h, t := HeaderAt(m, a), HeaderAt(m, HeaderAt(m, a).next);
    var m1 := PutHeader(m, a, h.(size := h.size + HEADER + t.size, next := t.next));
    var m2 := PutHeader(m1, h.next, HeaderAt(m1, h.next).(magic := INVALID));
    SetPrev(m2, t.next, a)
  }

  lemma MergeReady(m: Mem, bs: seq<Block>, k: nat, base: nat, limit: nat)
    requires Laid(m, bs, base, limit) && k + 1 < |bs|
    ensures MergeMem.requires(m, bs[k].addr)
    ensures HeaderAt(m, bs[k].addr) == HeaderOf(bs, k) && HeaderAt(m, bs[k + 1].addr) == HeaderOf(bs, k + 1)
  {
    assert Inside(bs[k], base, limit) && Inside(bs[k + 1], base, limit);
    if k + 2 < |bs| { assert Inside(bs[k + 2], base, limit); }
  }

  lemma MergeHeader(m: Mem, bs: seq<Block>, k: nat, base: nat, limit: nat, j: nat)
    requires Laid(m, bs, base, limit) && k + 1 < |bs| && MergeMem.requires(m, bs[k].addr)
    requires HeaderAt(m, bs[k].addr) == HeaderOf(bs, k) && HeaderAt(m, bs[k + 1].addr) == HeaderOf(bs, k + 1)
    requires j < |Merge(bs, k)|
    ensures Merge(bs, k)[j].addr + HEADER <= |m|
    ensures HeaderAt(MergeMem(m, bs[k].addr), Merge(bs, k)[j].addr) == HeaderOf(Merge(bs, k), j)
  {
    hide PutHeader, HeaderAt, Ordered, Inside;
    var r, a, t, nx := Merge(bs, k), bs[k].addr, bs[k + 1].addr, NextOf(bs, k + 1);
    var i := if j <= k then j else j + 1;
    var b := bs[i].addr;
    assert r[j].addr == b && HeaderAt(m, b) == HeaderOf(bs, i);
    Bounds(bs, base, limit, i);
    SplitApart(bs, base, limit, k, i);
    var h := HeaderAt(m, a).(size := bs[k].size + HEADER + bs[k + 1].size, next := nx);
    var m1 := PutHeader(m, a, h);
    var ht := HeaderAt(m1, t).(magic := INVALID);
    var m2 := PutHeader(m1, t, ht);
    assert MergeMem(m, a) == SetPrev(m2, nx, a);
    if j != k { OtherHeader(m, a, h, b); }
    OtherHeader(m1, t, ht, b);
    if i != k + 2 { PrevOther(m2, nx, a, b); }
  }

  lemma MergeLaid(m: Mem, bs: seq<Block>, k: nat, base: nat, limit: nat)
    requires Laid(m, bs, base, limit) && k + 1 < |bs|
    ensures MergeMem.requires(m, bs[k].addr)
    ensures Laid(MergeMem(m, bs[k].addr), Merge(bs, k), base, limit)
    ensures HeaderAt(MergeMem(m, bs[k].addr), bs[k + 1].addr).magic == INVALID
  {
    MergeReady(m, bs, k, base, limit);
    MergeOrdered(bs, k, base, limit);
    forall j | 0 <= j < |Merge(bs, k)|
      ensures Merge(bs, k)[j].addr + HEADER <= |m|
      ensures HeaderAt(MergeMem(m, bs[k].addr), Merge(bs, k)[j].addr) == HeaderOf(Merge(bs, k), j)
    {
      MergeHeader(m, bs, k, base, limit, j);
    }
    StaleHeader(m, bs, k, base, limit);
  }

  // The absorbed block's header is left behind, marked invalid.
  lemma StaleHeader(m: Mem, bs: seq<Block>, k: nat, base: nat, limit: nat)
    requires Laid(m, bs, base, limit) && k + 1 < |bs| && MergeMem.requires(m, bs[k].addr)
    requires HeaderAt(m, bs[k].addr) == HeaderOf(bs, k) && HeaderAt(m, bs[k + 1].addr) == HeaderOf(bs, k + 1)
    ensures HeaderAt(MergeMem(m, bs[k].addr), bs[k + 1].addr).magic == INVALID
  {
    hide PutHeader, HeaderAt;
    var h := HeaderAt(m, bs[k].addr).(size := bs[k].size + HEADER + bs[k + 1].size, next := NextOf(bs, k + 1));
    var m1 := PutHeader(m, bs[k].addr, h);
    var m2 := PutHeader(m1, bs[k + 1].addr, HeaderAt(m1, bs[k + 1].addr).(magic := INVALID));
    if k + 2 < |bs| { HeadersApart(bs, base, limit, k + 1, k + 2); }
    PrevOther(m2, NextOf(bs, k + 1), bs[k].addr, bs[k + 1].addr);
  }

  // Merging writes headers only.
  lemma MergePayloads(m: Mem, bs: seq<Block>, k: nat, base: nat, limit: nat, j: nat)
    requires Laid(m, bs, base, limit) && k + 1 < |bs| && j < |bs|
    ensures MergeMem.requires(m, bs[k].addr)
    ensures PayloadSame(m, MergeMem(m, bs[k].addr), bs[j])
  {
    hide PutHeader, HeaderAt, Ordered, Inside, PayloadSame;
    MergeReady(m, bs, k, base, limit);
    var b, a, t, nx := bs[j], bs[k].addr, bs[k + 1].addr, NextOf(bs, k + 1);
    var h := HeaderAt(m, a).(size := bs[k].size + HEADER + bs[k + 1].size, next := nx);
    var m1 := PutHeader(m, a, h);
    var ht := HeaderAt(m1, t).(magic := INVALID);
    var m2 := PutHeader(m1, t, ht);
    ClearOf(bs, base, limit, k, j);
    PutPayload(m, a, h, b);
    ClearOf(bs, base, limit, k + 1, j);
    PutPayload(m1, t, ht, b);
    if nx != 0 { ClearOf(bs, base, limit, k + 2, j); }
    PrevPayload(m2, nx, a, b);
    SameTrans(m, m1, m2, b);
    SameTrans(m, m2, MergeMem(m, a), b);
  }

  // ---------------------------------------------------------------- rewriting one block's header

  lemma RewriteLaid(m: Mem, bs: seq<Block>, k: nat, b: Block, base: nat, limit: nat)
    requires Laid(m, bs, base, limit) && k < |bs| && b.addr == bs[k].addr && Ordered(bs[k := b], base, limit)
    ensures b.addr + HEADER <= |m|
    ensures Laid(PutHeader(m, b.addr, HeaderOf(bs[k := b], k)), bs[k := b], base, limit)
  {
    hide PutHeader, HeaderAt, Ordered;
    var r, h := bs[k := b], HeaderOf(bs[k := b], k);
    Bounds(bs, base, limit, k);
    var m' := PutHeader(m, b.addr, h);
    forall j | 0 <= j < |r| ensures r[j].addr + HEADER <= |m| && HeaderAt(m', r[j].addr) == HeaderOf(r, j) {
      Bounds(bs, base, limit, j);
      if j != k {
        SplitApart(bs, base, limit, k, j);
        OtherHeader(m, b.addr, h, bs[j].addr);
        assert HeaderAt(m, bs[j].addr) == HeaderOf(bs, j);
      }
    }
  }

  // A header write leaves every payload of the list alone.
  lemma HeaderPayloads(m: Mem, bs: seq<Block>, k: nat, h: Header, base: nat, limit: nat)
    requires Ordered(bs, base, limit) && k < |bs| && bs[k].addr + HEADER <= |m|
    ensures forall j | 0 <= j < |bs| :: PayloadSame(m, PutHeader(m, bs[k].addr, h), bs[j])
  {
    hide PutHeader, PayloadSame, Ordered;
    forall j | 0 <= j < |bs| ensures PayloadSame(m, PutHeader(m, bs[k].addr, h), bs[j]) {
      ClearOf(bs, base, limit, k, j);
      PutPayload(m, bs[k].addr, h, bs[j]);
    }
  }

  // Writes inside one block's payload disturb neither the list nor any other payload.
  lemma PayloadWrite(m: Mem, m': Mem, bs: seq<Block>, k: nat, base: nat, limit: nat)
    requires Laid(m, bs, base, limit) && |m'| == |m| && k < |bs|
    requires forall i | 0 <= i < |m| && !(bs[k].Payload() <= i < bs[k].End()) :: m'[i] == m[i]
    ensures Laid(m', bs, base, limit)
    ensures forall j | 0 <= j < |bs| && j != k :: PayloadSame(m, m', bs[j])
  {
    hide Ordered;
    forall j | 0 <= j < |bs| ensures HeaderAt(m', bs[j].addr) == HeaderOf(bs, j) {
      Bounds(bs, base, limit, j);
      ClearOf(bs, base, limit, j, k);
      assert HeaderAt(m, bs[j].addr) == HeaderOf(bs, j);
    }
    forall j | 0 <= j < |bs| && j != k ensures PayloadSame(m, m', bs[j]) {
      if j < k { HeadersApart(bs, base, limit, j, k); } else { HeadersApart(bs, base, limit, k, j); }
    }
  }
}
