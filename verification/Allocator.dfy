/** val/src/val_malloc.c: the first-fit allocator over the list in memory. */
module Allocator {
  import opened Arith
  import opened HeapAligned
  import opened HeapBlocks
  import opened HeapLists
  import opened HeapMemory
  import HeapRuns
  import opened MemCopy

  const HEAP_SIZE := 512 * 1024
  const WORD := 0x1_0000_0000_0000_0000

  // ALIGN, in size_t arithmetic.
  function AlignUp(size: nat): (r: nat)
    ensures r % ALIGNMENT == 0
    ensures size + ALIGNMENT <= WORD ==> size <= r < size + ALIGNMENT
  {
    ((size + (ALIGNMENT - 1)) % WORD) / ALIGNMENT * ALIGNMENT
  }

  class Heap {
    const base: nat
    const mem: array<int>
    var freeList: nat
    var initialized: bool
    ghost var blocks: seq<Block>
    ghost var lost: nat
    ghost var owned: map<nat, nat>   // pointers handed out, with the sizes requested

    ghost const limit: nat := base + HEAP_SIZE

    ghost predicate Room()
    {
      0 < base && base % 32 == 0 && mem.Length == limit
    }

    // The list is in memory, ordered and non-overlapping.
    ghost predicate Listed()
      reads this, mem
    {
      Room() && |blocks| > 0 && blocks[0].addr == base && Laid(mem[..], blocks, base, limit)
    }

    ghost predicate Valid()
      reads this, mem
    {
      && Room()
      && (if initialized then
            freeList == base && Listed() && Coalesced(blocks) && Total(blocks) + lost == HEAP_SIZE
          else blocks == [] && lost == 0 && owned == map[])
    }

    // The list a request finds: before the first one, a single free block.
    ghost function Start(): seq<Block>
      reads this
    {
      if initialized then blocks else [Block(base, HEAP_SIZE - HEADER, true)]
    }

    // The state whose steps the calls are.
    ghost function Now(): HeapRuns.State
      reads this
    {
      HeapRuns.State(Start(), lost, owned)
    }

    // The buffer of pal_get_heap_buffer(), before its first use.
    constructor (base: nat)
      requires 0 < base && base % 32 == 0
      ensures Valid() && !initialized && this.base == base && Now() == HeapRuns.Initial(base, HEAP_SIZE)
    {
      this.base := base;
      mem := new int[base + HEAP_SIZE];
      freeList, initialized, blocks, lost, owned := 0, false, [], 0, map[];
    }

    // val_init_heap
    method Init()
      requires Room()
      modifies this, mem
      ensures initialized && Valid() && blocks == [Block(base, HEAP_SIZE - HEADER, true)] && lost == 0
      ensures owned == old(owned)
    {
      freeList := base;
      mem[base], mem[base + 2], mem[base + 8] := VALID, 1, HEAP_SIZE - HEADER;
      mem[base + 16], mem[base + 24] := 0, 0;
      initialized := true;
      blocks, lost := [Block(base, HEAP_SIZE - HEADER, true)], 0;
      assert blocks[..0] == [];
    }

    // Field accesses of a header at address a.
    function Next(a: nat): (r: int)
      requires a + HEADER <= mem.Length
      reads mem
      ensures r == HeaderAt(mem[..], a).next
    {
      mem[a + 16]
    }

    function Prev(a: nat): (r: int)
      requires a + HEADER <= mem.Length
      reads mem
      ensures r == HeaderAt(mem[..], a).prev
    {
      mem[a + 24]
    }

    function Size(a: nat): (r: int)
      requires a + HEADER <= mem.Length
      reads mem
      ensures r == HeaderAt(mem[..], a).size
    {
      mem[a + 8]
    }

    function Free(a: nat): (r: int)
      requires a + HEADER <= mem.Length
      reads mem
      ensures r == HeaderAt(mem[..], a).free
    {
      mem[a + 2]
    }

    function Magic(a: nat): (r: int)
      requires a + HEADER <= mem.Length
      reads mem
      ensures r == HeaderAt(mem[..], a).magic
    {
      mem[a]
    }

    method SetSize(a: nat, v: int)
      requires a + HEADER <= mem.Length
      modifies mem
      ensures mem[..] == PutHeader(old(mem[..]), a, HeaderAt(old(mem[..]), a).(size := v))
    {
      mem[a + 8] := v;
    }

    method SetNext(a: nat, v: int)
      requires a + HEADER <= mem.Length
      modifies mem
      ensures mem[..] == PutHeader(old(mem[..]), a, HeaderAt(old(mem[..]), a).(next := v))
    {
      mem[a + 16] := v;
    }

    method SetPrevField(a: nat, v: int)
      requires a + HEADER <= mem.Length
      modifies mem
      ensures mem[..] == PutHeader(old(mem[..]), a, HeaderAt(old(mem[..]), a).(prev := v))
    {
      mem[a + 24] := v;
    }

    method SetMagic(a: nat, v: int)
      requires a + HEADER <= mem.Length
      modifies mem
      ensures mem[..] == PutHeader(old(mem[..]), a, HeaderAt(old(mem[..]), a).(magic := v))
    {
      mem[a] := v;
    }

    method SetFreeField(a: nat, v: int)
      requires a + HEADER <= mem.Length
      modifies mem
      ensures mem[..] == PutHeader(old(mem[..]), a, HeaderAt(old(mem[..]), a).(free := v))
    {
      mem[a + 2] := v;
    }

    // The body of both loops of val_coalesce: block a absorbs its successor t.
    method Absorb(a: nat, t: nat, ghost k: nat)
      requires Listed() && k + 1 < |blocks| && blocks[k].addr == a && blocks[k + 1].addr == t
      modifies mem, this`blocks
      ensures Listed() && blocks == Merge(old(blocks), k)
      ensures forall j | 0 <= j < |old(blocks)| :: PayloadSame(old(mem[..]), mem[..], old(blocks)[j])
      ensures HeaderAt(mem[..], t).magic == INVALID
    {
      hide PutHeader, HeaderAt, PayloadSame, Ordered, Linked;
      ghost var m, bs := mem[..], blocks;
      MergeReady(m, bs, k, base, limit);
      MergeLaid(m, bs, k, base, limit);
      AllMergePayloads(m, bs, k, base, limit);
      Bounds(bs, base, limit, k + 1);
      HeadersApart(bs, base, limit, k, k + 1);
      ghost var h, ht := HeaderAt(m, a), HeaderAt(m, t);
      ghost var h1 := h.(size := h.size + HEADER + ht.size);
      OtherHeader(m, a, h1, t);
      PutPut(m, a, h1, h1.(next := ht.next));
      OtherHeader(m, a, h1.(next := ht.next), t);
      OtherHeader(PutHeader(m, a, h1.(next := ht.next)), t, ht.(magic := INVALID), a);
      SetSize(a, Size(a) + HEADER + Size(t));
      SetNext(a, Next(t));
      SetMagic(t, INVALID);
      var next := Next(a);
      if next != 0 { SetPrevField(next, a); }
      blocks := Merge(blocks, k);
      assert mem[..] == MergeMem(m, a);
    }

    // The forward loop of val_coalesce (lines 132-141).
    method MergeForward(a: nat, ghost k: nat)
      requires Listed() && k < |blocks| && blocks[k].addr == a && CoalescedBut(blocks, k)
      modifies mem, this`blocks
      ensures Listed() && blocks == Forward(old(blocks), k)
      ensures forall i | 0 <= i < |old(blocks)| :: PayloadSame(old(mem[..]), mem[..], old(blocks)[i])
    {
      hide PutHeader, HeaderAt, PayloadSame, Laid, Forward, CoalescedBut;
      ghost var m0, bs0 := mem[..], blocks;
      ForwardOnce(bs0, k);
      SameAll(m0, bs0);
      Neighbours(m0, bs0, base, limit, k);
      while Next(a) != 0 && Free(Next(a)) != 0
        invariant Listed() && k < |blocks| && a == blocks[k].addr && Near(mem[..], blocks, k)
        invariant (blocks == bs0 && mem[..] == m0)
                  || (blocks == Forward(bs0, k) && (k + 1 < |blocks| ==> !blocks[k + 1].free))
        invariant forall i | 0 <= i < |bs0| :: PayloadSame(m0, mem[..], bs0[i])
        decreases |blocks|
      {
        Absorb(a, Next(a), k);
        Neighbours(mem[..], blocks, base, limit, k);
      }
    }

    // The backward loop of val_coalesce (lines 144-155).
    method MergeBackward(at: nat, ghost k: nat) returns (a: nat, ghost j: nat)
      requires Listed() && k < |blocks| && blocks[k].addr == at && CoalescedBut(blocks, k)
      requires k + 1 < |blocks| ==> !blocks[k + 1].free
      modifies mem, this`blocks
      ensures Listed() && (blocks, j) == Backward(old(blocks), k)
      ensures a == blocks[j].addr && (j == k || j == k - 1)
      ensures forall i | 0 <= i < |old(blocks)| :: PayloadSame(old(mem[..]), mem[..], old(blocks)[i])
      ensures j < k ==> HeaderAt(mem[..], at).magic == INVALID
    {
      hide PutHeader, HeaderAt, PayloadSame, Laid, Backward, CoalescedBut;
      ghost var m0, bs0 := mem[..], blocks;
      a, j := at, k;
      BackwardOnce(bs0, k);
      BackwardStops(bs0, k);
      SameAll(m0, bs0);
      Neighbours(m0, bs0, base, limit, k);
      while Prev(a) != 0 && Free(Prev(a)) != 0
        invariant Listed() && j < |blocks| && a == blocks[j].addr && Near(mem[..], blocks, j)
        invariant (blocks == bs0 && mem[..] == m0 && j == k)
                  || (k > 0 && j == k - 1 && (blocks, j) == Backward(bs0, k) && (j > 0 ==> !blocks[j - 1].free)
                      && HeaderAt(mem[..], at).magic == INVALID)
        invariant forall i | 0 <= i < |bs0| :: PayloadSame(m0, mem[..], bs0[i])
        decreases j
      {
        var p := Prev(a);
        Absorb(p, a, j - 1);
        a, j := p, j - 1;
        Neighbours(mem[..], blocks, base, limit, j);
      }
    }

    // val_coalesce
    method CoalesceAt(at: nat, ghost k: nat) returns (a: nat, ghost j: nat)
      requires Listed() && k < |blocks| && blocks[k].addr == at && CoalescedBut(blocks, k)
      modifies mem, this`blocks
      ensures j == k || j == k - 1
      ensures Listed() && (blocks, j) == Coalesce(old(blocks), k)
      ensures a == blocks[j].addr == old(blocks)[j].addr
      ensures blocks[j].free == (j < k || old(blocks)[k].free)
      ensures forall i | 0 <= i < |old(blocks)| && (i == k || !old(blocks)[i].free) ::
                PayloadSame(old(mem[..]), mem[..], old(blocks)[i])
      ensures j < k ==> HeaderAt(mem[..], at).magic == INVALID
    {
      hide PutHeader, HeaderAt, PayloadSame, Laid, Forward, Backward, CoalescedBut;
      ghost var m0, bs0 := mem[..], blocks;
      ForwardOnce(bs0, k);
      MergeForward(at, k);
      ghost var m1 := mem[..];
      BackwardOnce(blocks, k);
      a, j := MergeBackward(at, k);
      ForwardPayloads(m0, m1, mem[..], bs0, k);
    }

    // Lines 210-214: a fresh header.
    method WriteHeader(n: nat, magic: int, free: int, size: int, next: int, prev: int)
      requires n + HEADER <= mem.Length
      modifies mem
      ensures mem[..] == PutHeader(old(mem[..]), n, Header(magic, free, size, next, prev))
    {
      mem[n] := magic;
      mem[n + 2] := free;
      mem[n + 8] := size;
      mem[n + 16] := next;
      mem[n + 24] := prev;
    }

    // val_split
    method SplitBlock(a: nat, size: nat, ghost k: nat)
      requires Listed() && k < |blocks| && blocks[k].addr == a && size % ALIGNMENT == 0
      modifies mem, this`blocks
      ensures Listed() && blocks == Split(old(blocks), k, size)
      ensures forall j | 0 <= j < |blocks| :: PayloadSame(old(mem[..]), mem[..], blocks[j])
    {
      hide PutHeader, HeaderAt, PayloadSame, Ordered, Linked;
      ghost var m, bs := mem[..], blocks;
      Neighbours(m, bs, base, limit, k);
      SplitLaid(m, bs, k, size, base, limit);
      AllSplitPayloads(m, bs, k, size, base, limit);
      ghost var h := HeaderAt(m, a);
      if Size(a) >= size + HEADER + ALIGNMENT {
        var n := a + HEADER + size;
        WriteHeader(n, VALID, 1, Size(a) - size - HEADER, Next(a), a);
        ghost var m1 := mem[..];
        if Next(n) != 0 { SetPrevField(Next(n), n); }
        ghost var m2 := mem[..];
        SetNext(a, n);
        SetSize(a, size);
        PutPut(m2, a, HeaderAt(m2, a).(next := n), HeaderAt(m2, a).(next := n, size := size));
      }
      blocks := Split(blocks, k, size);
      assert mem[..] == SplitMem(m, a, size);
    }

    // Change the free flag of block k.
    method MarkFree(a: nat, free: bool, ghost k: nat)
      requires Listed() && k < |blocks| && blocks[k].addr == a
      modifies mem, this`blocks
      ensures Listed() && blocks == old(blocks)[k := old(blocks)[k].(free := free)]
      ensures forall j | 0 <= j < |blocks| :: PayloadSame(old(mem[..]), mem[..], old(blocks)[j])
    {
      hide PutHeader, HeaderAt, PayloadSame, Ordered, Linked;
      ghost var b := blocks[k].(free := free);
      Neighbours(mem[..], blocks, base, limit, k);
      SetFree(blocks, k, free, base, limit);
      RewriteLaid(mem[..], blocks, k, b, base, limit);
      HeaderPayloads(mem[..], blocks, k, HeaderOf(blocks[k := b], k), base, limit);
      SetFreeField(a, if free then 1 else 0);
      blocks := blocks[k := b];
    }

    // Block k is split and taken (lines 251 and 253, 386 and 387).
    method TakeBlock(a: nat, size: nat, ghost k: nat)
      requires Listed() && k < |blocks| && blocks[k].addr == a && size % ALIGNMENT == 0
      modifies mem, this`blocks
      ensures Listed() && blocks == Take(old(blocks), k, size)
      ensures forall j | 0 <= j < |blocks| :: PayloadSame(old(mem[..]), mem[..], blocks[j])
      ensures forall j | 0 <= j < |old(blocks)| && j != k :: PayloadSame(old(mem[..]), mem[..], old(blocks)[j])
    {
      hide PutHeader, HeaderAt, PayloadSame, Laid;
      ghost var m, bs := mem[..], blocks;
      SplitBlock(a, size, k);
      ghost var m1, bs1 := mem[..], blocks;
      MarkFree(a, false, k);
      ComposeSame(m, m1, mem[..], bs1);
      TakenPayloads(m, mem[..], bs, k, size);
    }

    // val_malloc, once the size is aligned and the heap initialised (lines 249-257).
    method FirstFit(size: nat) returns (p: nat, ghost k: nat)
      requires Valid() && initialized && size % ALIGNMENT == 0
      modifies mem, this`blocks
      ensures Valid()
      ensures p == 0 ==> blocks == old(blocks) && mem[..] == old(mem[..])
      ensures p == 0 <==> forall j | 0 <= j < |old(blocks)| :: !Fits(old(blocks)[j], size)
      ensures p != 0 ==>
                && k < |old(blocks)| && Fits(old(blocks)[k], size)
                && (forall j | 0 <= j < k :: !Fits(old(blocks)[j], size))
                && blocks == Take(old(blocks), k, size) && p == old(blocks)[k].Payload()
                && forall j | 0 <= j < |old(blocks)| && !old(blocks)[j].free ::
                     PayloadSame(old(mem[..]), mem[..], old(blocks)[j])
    {
      hide PutHeader, HeaderAt, PayloadSame, Laid, Total, Coalesced, Split, Take;
      var a := freeList;
      ghost var m, bs := mem[..], blocks;
      k := 0;
      while a != 0
        invariant mem[..] == m && blocks == bs && Valid()
        invariant k <= |bs| && a == (if k < |bs| then bs[k].addr else 0) && (k < |bs| ==> a != 0)
        invariant forall j | 0 <= j < k :: !Fits(bs[j], size)
        decreases |bs| - k
      {
        Neighbours(m, bs, base, limit, k);
        if Free(a) != 0 && Size(a) >= size {
          LaidHeap(m, bs, base, limit);
          TakeHeap(bs, k, size, base, limit);
          TakeBlock(a, size, k);
          Neighbours(mem[..], blocks, base, limit, k);
          PutBack(mem[..], a);
          SetMagic(a, VALID);
          return a + HEADER, k;
        }
        a, k := Next(a), k + 1;
      }
      p := 0;
    }

    // val_malloc
    method Malloc(size: nat) returns (p: nat, ghost k: nat)
      requires Valid() && size < WORD
      modifies this, mem
      ensures Valid() && lost == old(lost)
      ensures size == 0 ==> p == 0 && blocks == old(blocks) && mem[..] == old(mem[..]) && initialized == old(initialized)
      ensures size > 0 ==> initialized && Allocated(old(Start()), blocks, AlignUp(size), p, k)
      ensures 0 < size <= WORD - 8 ==> MallocResult(old(Start()), blocks, (size + 7) / 8 * 8, p, k)
      ensures old(initialized) && p == 0 ==> mem[..] == old(mem[..])
      ensures p == 0 ==> owned == old(owned)
      ensures p != 0 ==> HeapRuns.Step(old(Now()), Now(), HeapRuns.Allocate(k, AlignUp(size), Least(size, AlignUp(size))))
      ensures forall j | 0 <= j < |old(blocks)| && !old(blocks)[j].free :: PayloadSame(old(mem[..]), mem[..], old(blocks)[j])
    {
      hide PutHeader, HeaderAt, PayloadSame, Laid, Total, Coalesced, Split, Take, AlignUp, MallocResult;
      SameAll(mem[..], blocks);
      k := 0;
      if size == 0 { return 0, 0; }
      if !initialized { Init(); }
      p, k := FirstFit(AlignUp(size));
      AllocatedIs(old(Start()), blocks, size, p, k);
      if p != 0 { owned := owned[p := Least(size, AlignUp(size))]; }
    }

    // val_free
    method FreePointer(p: nat, ghost k: nat) returns (ok: bool)
      requires Valid() && (p != 0 ==> HEADER <= p <= mem.Length && (Freeable(p) ==> Owns(p, k)))
      modifies mem, this`blocks, this`owned
      ensures Valid()
      ensures ok == (p != 0 && old(Freeable(p)))
      ensures ok == (p != 0 && old(mem[p - 32]) == 0xABCD && old(mem[p - 30]) == 0)
      ensures ok ==> FreeResult(old(blocks), blocks, k)
      ensures !ok ==> blocks == old(blocks) && mem[..] == old(mem[..]) && owned == old(owned)
      ensures ok ==> HeapRuns.Step(old(Now()), Now(), HeapRuns.Call.Free(k))
      ensures ok ==> blocks == Release(old(blocks), k) && !Freeable(p)
      ensures forall j | 0 <= j < |old(blocks)| && !old(blocks)[j].free :: PayloadSame(old(mem[..]), mem[..], old(blocks)[j])
    {
      hide PutHeader, HeaderAt, PayloadSame, Laid, Total, Coalesced, Coalesce, Linked, FreeResult;
      ghost var m, bs := mem[..], blocks;
      SameAll(m, bs);
      if p == 0 { return false; }
      var a := p - HEADER;
      if Magic(a) != VALID { return false; }
      if Free(a) != 0 { return false; }
      LaidHeap(m, bs, base, limit);
      Neighbours(m, bs, base, limit, k);
      ReleaseHeap(bs, k, base, limit);
      ReleaseIs(bs, k);
      MarkFree(a, true, k);
      ghost var m1, bs1 := mem[..], blocks;
      FreedBut(bs, k);
      ghost var j;
      a, j := CoalesceAt(a, k);
      FreedPayloads(m, m1, mem[..], bs, k);
      Neighbours(mem[..], blocks, base, limit, j);
      owned := owned - {p};
      ok := true;
    }

    // The two checks of val_free on the header before p.
    predicate Freeable(p: nat)
      requires HEADER <= p <= mem.Length
      reads mem
    {
      Magic(p - HEADER) == VALID && Free(p - HEADER) == 0
    }

    // p is the payload of list block k.
    ghost predicate Owns(p: nat, k: nat)
      reads this
    {
      initialized && k < |blocks| && blocks[k].Payload() == p
    }

    // val_calloc
    method Calloc(nmemb: nat, size: nat) returns (p: nat, ghost k: nat)
      requires Valid() && nmemb < WORD && size < WORD && (nmemb * size) % WORD + ALIGNMENT <= WORD
      modifies this, mem
      ensures Valid() && lost == old(lost)
      ensures nmemb == 0 || size == 0 || (nmemb * size) % WORD == 0 ==>
                p == 0 && blocks == old(blocks) && mem[..] == old(mem[..])
      ensures (nmemb * size) % WORD > 0 ==>
                initialized && MallocResult(old(Start()), blocks, ((nmemb * size) % WORD + 7) / 8 * 8, p, k)
      ensures p == 0 ==> owned == old(owned)
      ensures p != 0 ==>
                var n := (nmemb * size) % WORD; HeapRuns.Step(old(Now()), Now(), HeapRuns.Allocate(k, AlignUp(n), Least(n, AlignUp(n))))
      ensures p != 0 ==> p + (nmemb * size) % WORD <= mem.Length
                         && forall i | p <= i < p + (nmemb * size) % WORD :: mem[i] == 0
      ensures forall j | 0 <= j < |old(blocks)| && !old(blocks)[j].free :: PayloadSame(old(mem[..]), mem[..], old(blocks)[j])
    {
      hide PutHeader, HeaderAt, PayloadSame, Laid, Total, Coalesced, Split, AlignUp;
      SameAll(mem[..], blocks);
      p, k := 0, 0;
      if size == 0 || nmemb == 0 { return; }
      var total := (nmemb * size) % WORD;
      p, k := ZeroedMalloc(total);
    }

    // The part of val_calloc after the multiplication (lines 320-325).
    method ZeroedMalloc(total: nat) returns (p: nat, ghost k: nat)
      requires Valid() && total + ALIGNMENT <= WORD
      modifies this, mem
      ensures Valid() && lost == old(lost)
      ensures total == 0 ==> p == 0 && blocks == old(blocks) && mem[..] == old(mem[..])
      ensures total > 0 ==> initialized && Allocated(old(Start()), blocks, AlignUp(total), p, k)
      ensures total > 0 ==> MallocResult(old(Start()), blocks, (total + 7) / 8 * 8, p, k)
      ensures p == 0 ==> owned == old(owned)
      ensures p != 0 ==> HeapRuns.Step(old(Now()), Now(), HeapRuns.Allocate(k, AlignUp(total), Least(total, AlignUp(total))))
      ensures p != 0 ==> p + total <= mem.Length && forall i | p <= i < p + total :: mem[i] == 0
      ensures forall j | 0 <= j < |old(blocks)| && !old(blocks)[j].free :: PayloadSame(old(mem[..]), mem[..], old(blocks)[j])
    {
      hide PutHeader, HeaderAt, PayloadSame, Laid, Total, Coalesced, AlignUp;
      ghost var m, bs := mem[..], blocks;
      p, k := Malloc(total);
      if p != 0 {
        ghost var m1, bs1 := mem[..], blocks;
        Neighbours(m1, bs1, base, limit, k);
        LaidEnd(m1, bs1, base, limit, k);
        Memset(mem, p, 0, total);
        PayloadWrite(m1, mem[..], bs1, k, base, limit);
        LiveElsewhere(m, m1, mem[..], bs, bs1, k, AlignUp(total));
      }
    }

    // val_realloc to no more than the block holds (lines 369-373).
    method ReallocShrink(p: nat, n: nat, ghost k: nat)
      requires Valid() && Owns(p, k) && !blocks[k].free && n <= blocks[k].size && n % ALIGNMENT == 0
      requires !NoSuccessor(blocks, k, n)
      modifies mem, this`blocks
      ensures Valid() && k + 1 < |Split(old(blocks), k, n)| && blocks == Shrink(old(blocks), k, n)
      ensures PayloadSame(old(mem[..]), mem[..], old(blocks)[k].(size := n))
      ensures forall j | 0 <= j < |old(blocks)| && j != k && !old(blocks)[j].free ::
                PayloadSame(old(mem[..]), mem[..], old(blocks)[j])
    {
      hide PutHeader, HeaderAt, PayloadSame, Laid, Total, Coalesced, Coalesce, CoalescedBut, KeepsLive, Live, Split,
        NoSuccessor;
      ghost var m, bs := mem[..], blocks;
      LaidHeap(m, bs, base, limit);
      ShrinkHeap(bs, k, n, base, limit);
      ShrinkBut(bs, k, n);
      SplitBlock(p - HEADER, n, k);
      ghost var m1, bs1 := mem[..], blocks;
      CoalesceNext(p - HEADER, k);
      ShrunkPayloads(m, m1, mem[..], bs, k, n);
    }

    // Line 371: val_coalesce on the successor of block k, through its next field.
    method CoalesceNext(a: nat, ghost k: nat)
      requires Listed() && k + 1 < |blocks| && blocks[k].addr == a && !blocks[k].free && CoalescedBut(blocks, k + 1)
      requires Coalesce(blocks, k + 1).1 == k + 1
      modifies mem, this`blocks
      ensures Listed() && blocks == Coalesce(old(blocks), k + 1).0
      ensures forall j | 0 <= j < |old(blocks)| && !old(blocks)[j].free :: PayloadSame(old(mem[..]), mem[..], old(blocks)[j])
    {
      hide PutHeader, HeaderAt, PayloadSame, Laid, Coalesce, CoalescedBut;
      ghost var m1, bs1 := mem[..], blocks;
      Neighbours(m1, bs1, base, limit, k);
      var next := Next(a);
      ghost var j;
      next, j := CoalesceAt(next, k + 1);
      CoalesceElsewhereAt(bs1, k);
      Neighbours(mem[..], blocks, base, limit, k);
      PutBack(mem[..], a);
      SetNext(a, next);
    }

    // val_realloc into free neighbours (lines 380-388).
    method ReallocGrow(p: nat, n: nat, ghost k: nat) returns (q: nat, ghost j: nat)
      requires Valid() && Owns(p, k) && !blocks[k].free && blocks[k].size < n && n % ALIGNMENT == 0
      requires CanGrow(blocks, k, n)
      modifies mem, this`blocks
      ensures Valid() && j == Coalesce(old(blocks), k).1 && blocks == Grow(old(blocks), k, n)
      ensures j < |blocks| && q == blocks[j].Payload() && q + old(blocks)[k].size <= mem.Length
      ensures Copied(old(mem[..]), mem[..], q, p, old(blocks)[k].size)
      ensures forall i | 0 <= i < |old(blocks)| && i != k && !old(blocks)[i].free ::
                PayloadSame(old(mem[..]), mem[..], old(blocks)[i])
    {
      hide PutHeader, HeaderAt, PayloadSame, Laid, Total, Coalesced, Coalesce, CoalescedBut, KeepsLive, Live, Take, Copied,
        Moved, Split, Ordered;
      ghost var m, bs := mem[..], blocks;
      LaidHeap(m, bs, base, limit);
      GrowHeap(bs, k, n, base, limit);
      AllButNone(bs, k);
      CoalesceGrows(bs, k, n);
      var a := p - HEADER;
      Neighbours(m, bs, base, limit, k);
      LaidEnd(m, bs, base, limit, k);
      var original := Size(a);
      a, j := CoalesceAt(a, k);
      q := a + HEADER;
      ghost var m1, c := mem[..], blocks;
      LaidEnd(m1, c, base, limit, j);
      if q != p { Memmove(mem, q, p, original); }
      ghost var m2 := mem[..];
      assert m2 == Moved(m1, q, p, original) by { if q == p { NotMoved(m1, q, original); } }
      PayloadWrite(m1, m2, c, j, base, limit);
      TakeBlock(a, n, j);
      GrownPayloads(m, m1, m2, mem[..], bs, k, n, q, p);
    }

    // Lines 396-397: copy block k into block t, then free block k.
    method MoveOut(q: nat, p: nat, ghost t: nat, ghost k: nat)
      requires Valid() && Owns(q, t) && Owns(p, k) && t != k && !blocks[k].free && blocks[k].size <= blocks[t].size
      modifies mem, this`blocks, this`owned
      ensures Valid() && blocks == Release(old(blocks), k)
      ensures old(blocks)[t].End() <= mem.Length && old(blocks)[k].End() <= mem.Length
      ensures var m := Moved(old(mem[..]), q, p, old(blocks)[k].size);
              && (forall j | 0 <= j < |old(blocks)| && j != t :: PayloadSame(old(mem[..]), m, old(blocks)[j]))
              && (forall j | 0 <= j < |old(blocks)| && !old(blocks)[j].free :: PayloadSame(m, mem[..], old(blocks)[j]))
    {
      hide PutHeader, HeaderAt, PayloadSame, Laid, Total, Coalesced, Release;
      ghost var m1, bs1 := mem[..], blocks;
      Neighbours(m1, bs1, base, limit, k);
      LaidEnd(m1, bs1, base, limit, k);
      LaidEnd(m1, bs1, base, limit, t);
      BlocksApart(m1, bs1, base, limit, k, t);
      Memcpy(mem, q, p, Size(p - HEADER));
      ghost var m2 := mem[..];
      PayloadWrite(m1, m2, bs1, t, base, limit);
      Neighbours(m2, bs1, base, limit, k);
      assert Listed();
      var freed := FreePointer(p, k);
    }

    // val_realloc by a new block and a copy (lines 391-398).
    method ReallocCopy(p: nat, n: nat, ghost k: nat) returns (q: nat)
      requires Valid() && Owns(p, k) && !blocks[k].free && blocks[k].size < n && n % ALIGNMENT == 0 && n + ALIGNMENT <= WORD
      requires !CanGrow(blocks, k, n)
      modifies this, mem
      ensures Valid() && initialized && lost == old(lost)
      ensures q == 0 <==> forall j | 0 <= j < |old(blocks)| :: !Fits(old(blocks)[j], n)
      ensures q == 0 ==> blocks == old(blocks) && mem[..] == old(mem[..]) && owned == old(owned)
      ensures q != 0 ==> exists t: nat :: ByCopy(old(blocks), blocks, k, t, n, q)
      ensures q != 0 ==> Live(blocks, q, n) && KeepsLive(old(blocks), blocks, k) && q + old(blocks)[k].size <= mem.Length
                         && Copied(old(mem[..]), mem[..], q, p, old(blocks)[k].size)
      ensures forall i | 0 <= i < |old(blocks)| && i != k && !old(blocks)[i].free ::
                PayloadSame(old(mem[..]), mem[..], old(blocks)[i])
    {
      hide PutHeader, HeaderAt, PayloadSame, Laid, Total, Coalesced, KeepsLive, Live, Take, Release, AlignUp, Moved, Copied;
      ghost var m, bs := mem[..], blocks;
      AlignedAlready(n);
      SameAll(m, bs);
      ghost var t;
      q, t := Malloc(n);
      if q == 0 { return; }
      ghost var m1, bs1 := mem[..], blocks;
      ghost var k1 := TakenAt(bs, t, n, k);
      MoveOut(q, p, t, k1);
      CopyLive(bs, bs1, t, n, k, k1);
      assert ByCopy(bs, blocks, k, t, n, q);
      CopyPayloads(m, m1, mem[..], bs, bs1, t, n, k, k1, q, p);
    }

    // Lines 375-378.
    method HasRoom(a: nat, n: nat, ghost k: nat) returns (r: bool)
      requires Listed() && k < |blocks| && blocks[k].addr == a
      ensures r == CanGrow(blocks, k, n)
    {
      hide PutHeader, HeaderAt, Laid;
      Neighbours(mem[..], blocks, base, limit, k);
      var next, prev := Next(a), Prev(a);
      r := || (next != 0 && Free(next) != 0 && Size(a) + HEADER + Size(next) >= n)
           || (prev != 0 && Free(prev) != 0 && Size(a) + HEADER + Size(prev) >= n);
    }

    // val_realloc of a live block, from line 366 on.
    method Resize(p: nat, n: nat, ghost want: nat, ghost k: nat) returns (q: nat)
      requires Valid() && Owns(p, k) && !blocks[k].free && want <= n && n % ALIGNMENT == 0 && n + ALIGNMENT <= WORD
      requires n <= blocks[k].size ==> !NoSuccessor(blocks, k, n)
      modifies this, mem
      ensures Valid() && initialized && lost == old(lost)
      ensures Resized(old(mem[..]), old(blocks), mem[..], blocks, k, n, p, q)
      ensures q == 0 ==> owned == old(owned)
      ensures q != 0 ==> HeapRuns.Step(old(Now()), Now(), HeapRuns.Reallocate(k, n, want, q))
    {
      hide PutHeader, HeaderAt, PayloadSame, Laid, Total, Coalesced, KeepsLive, Live, Take, Release, Grow, Shrink,
        Coalesce, Split, CanGrow, NoSuccessor, Fits, Copied, Reallocates;
      ghost var o := owned;
      q := ResizeBlock(p, n, k);
      if q != 0 { owned := (o - {p})[q := want]; }
    }

    method ResizeBlock(p: nat, n: nat, ghost k: nat) returns (q: nat)
      requires Valid() && Owns(p, k) && !blocks[k].free && n % ALIGNMENT == 0 && n + ALIGNMENT <= WORD
      requires n <= blocks[k].size ==> !NoSuccessor(blocks, k, n)
      modifies this, mem
      ensures Valid() && initialized && lost == old(lost) && (q == 0 ==> owned == old(owned))
      ensures Resized(old(mem[..]), old(blocks), mem[..], blocks, k, n, p, q)
    {
      hide PutHeader, HeaderAt, PayloadSame, Laid, Total, Coalesced, KeepsLive, Live, Take, Release, Grow, Shrink,
        Coalesce, Split, CanGrow, NoSuccessor, Fits, Copied, ByCopy;
      ghost var m, bs := mem[..], blocks;
      LaidHeap(m, bs, base, limit);
      LaidEnd(m, bs, base, limit, k);
      Neighbours(m, bs, base, limit, k);
      var a := p - HEADER;
      if Size(a) >= n {
        ShrinkHeap(bs, k, n, base, limit);
        ReallocShrink(p, n, k);
        q := p;
        assert ByShrink(bs, blocks, k, n, q);
        ShrinkCopied(m, mem[..], bs[k], n);
        return;
      }
      var grow := HasRoom(a, n, k);
      if grow {
        ghost var j;
        GrowHeap(bs, k, n, base, limit);
        q, j := ReallocGrow(p, n, k);
        assert ByGrow(bs, blocks, k, n, q);
        LiveAt(blocks, j, q, n);
      } else {
        q := ReallocCopy(p, n, k);
      }
    }

    // val_realloc
    method Realloc(p: nat, size: nat, ghost k: nat) returns (q: nat)
      requires Valid() && size < WORD
      requires p != 0 ==> HEADER <= p <= mem.Length && (Freeable(p) ==> Owns(p, k))
      requires p != 0 && size > 0 && Magic(p - HEADER) == VALID ==>
                 Freeable(p) && (AlignUp(size) <= blocks[k].size ==> !NoSuccessor(blocks, k, AlignUp(size)))
      modifies this, mem
      ensures Valid() && lost == old(lost)
      ensures p == 0 && size == 0 ==> q == 0 && blocks == old(blocks) && owned == old(owned)
      ensures p == 0 && 0 < size <= WORD - 8 ==> MallocSome(old(Start()), blocks, (size + 7) / 8 * 8, q)
      ensures p == 0 && q != 0 ==>
                exists t: nat :: HeapRuns.Step(old(Now()), Now(), HeapRuns.Allocate(t, AlignUp(size), Least(size, AlignUp(size))))
      ensures p != 0 && size == 0 ==> q == 0
      ensures p != 0 && size == 0 && old(Freeable(p)) ==> HeapRuns.Step(old(Now()), Now(), HeapRuns.Call.Free(k))
      ensures p != 0 && (if size == 0 then !old(Freeable(p)) else old(Magic(p - HEADER)) != VALID) ==>
                q == 0 && blocks == old(blocks) && mem[..] == old(mem[..]) && owned == old(owned)
      ensures p != 0 && size > 0 && old(Magic(p - HEADER)) == VALID ==>
                Resized(old(mem[..]), old(blocks), mem[..], blocks, k, AlignUp(size), p, q)
      ensures p != 0 && 0 < size <= WORD - 8 && old(mem[p - 32]) == 0xABCD ==>
                k < |old(blocks)| && p == old(blocks)[k].addr + 32
                && ReallocResult(old(blocks), blocks, k, (size + 7) / 8 * 8, q)
      ensures p != 0 && q != 0 ==>
                HeapRuns.Step(old(Now()), Now(), HeapRuns.Reallocate(k, AlignUp(size), Least(size, AlignUp(size)), q))
    {
      hide PutHeader, HeaderAt, PayloadSame, Laid, Total, Coalesced, Take, Release, AlignUp, Resized, NoSuccessor, Linked,
        Allocated, HeapRuns.Step, MallocResult, ReallocResult, FreeResult, HeapBlocks.Heap,
        MallocSome;
      q := 0;
      if p == 0 {
        ghost var t;
        q, t := Malloc(size);
        if 0 < size <= WORD - 8 { SomeMalloc(old(Start()), blocks, (size + 7) / 8 * 8, q, t); }
        return;
      }
      if size == 0 {
        var freed := FreePointer(p, k);
        return;
      }
      if Magic(p - HEADER) != VALID { return; }
      Neighbours(mem[..], blocks, base, limit, k);
      AlignUpBelow(size);
      LaidHeap(mem[..], blocks, base, limit);
      q := Resize(p, AlignUp(size), Least(size, AlignUp(size)), k);
      ResizedIs(old(mem[..]), old(blocks), mem[..], blocks, k, size, p, q, base, limit);
    }

    // Lines 457-461: block k ends up holding exactly size bytes.
    method TakeExactly(a: nat, size: nat, ghost k: nat)
      requires Listed() && k < |blocks| && blocks[k].addr == a && size <= blocks[k].size && size % ALIGNMENT == 0
      modifies mem, this`blocks
      ensures Listed() && blocks == TakeExact(old(blocks), k, size)
      ensures forall j | 0 <= j < |old(blocks)| && j != k :: PayloadSame(old(mem[..]), mem[..], old(blocks)[j])
    {
      hide PutHeader, HeaderAt, PayloadSame, Ordered, Linked, Split;
      ghost var m, bs := mem[..], blocks;
      SameAll(m, bs);
      Neighbours(m, bs, base, limit, k);
      if Size(a) > size + HEADER + ALIGNMENT { SplitBlock(a, size, k); }
      ghost var m1, s := mem[..], blocks;
      ghost var b := s[k].(size := size, free := false);
      Neighbours(m1, s, base, limit, k);
      ResizeOrdered(s, k, size, base, limit);
      RewriteLaid(m1, s, k, b, base, limit);
      HeaderPayloads(m1, s, k, HeaderOf(s[k := b], k), base, limit);
      SetSize(a, size);
      SetFreeField(a, 0);
      PutPut(m1, a, HeaderAt(m1, a).(size := size), HeaderAt(m1, a).(size := size, free := 0));
      blocks := blocks[k := b];
      ExactPayloads(m, m1, mem[..], bs, s, k, size);
    }

    // Lines 450-461 on block k, which holds the aligned request.
    method TakeAligned(raw: nat, alignment: nat, size: nat, ghost k: nat)
      requires Valid() && initialized && k < |blocks| && blocks[k].addr == raw
      requires alignment > 0 && alignment % ALIGNMENT == 0 && size % ALIGNMENT == 0
      requires Holds(blocks[k], alignment, size) && Sound(blocks[k], Gap(raw, alignment))
      modifies mem, this`blocks, this`lost
      ensures Valid() && blocks == AlignedTake(old(blocks), k, Gap(raw, alignment), size)
      ensures lost == old(lost) + Wasted(old(blocks), k, Gap(raw, alignment), size) <= old(lost) + HEADER + ALIGNMENT
      ensures forall j | 0 <= j < |old(blocks)| && j != k :: PayloadSame(old(mem[..]), mem[..], old(blocks)[j])
    {
      hide PutHeader, HeaderAt, PayloadSame, Laid, Total, Coalesced, Split, Gap, Rem, TakeExact;
      var gap := Gap(raw, alignment);
      ghost var m, bs := mem[..], blocks;
      ghost var i := k;
      LaidHeap(m, bs, base, limit);
      AlignedHeap(bs, k, alignment, size, base, limit);
      GapAligned(raw, alignment) by { Neighbours(m, bs, base, limit, k); AddressAligned(m, bs, base, limit, k); }
      var block := raw;
      SameAll(m, bs);
      if gap >= HEADER {
        SplitBlock(block, gap - HEADER, k);
        Neighbours(mem[..], blocks, base, limit, k);
        block, i := Next(block), k + 1;
      }
      ghost var m1, s := mem[..], blocks;
      TakeExactly(block, size, i);
      lost := lost + Discarded(s[i], size);
      LeadPayloads(m, m1, mem[..], bs, k, gap);
    }

    // val_aligned_alloc from line 434 on, for an accepted request.
    method FirstAligned(alignment: nat, size: nat) returns (p: nat, ghost k: nat)
      requires Valid() && initialized && alignment > 0 && alignment % ALIGNMENT == 0 && size % ALIGNMENT == 0
      requires limit + alignment <= WORD && size < WORD && TestsRight(blocks, alignment, size) && FirstSound(blocks, alignment, size)
      modifies mem, this`blocks, this`lost
      ensures Valid() && AlignedAnswer(old(blocks), blocks, alignment, size, p, k)
      ensures p == 0 ==> mem[..] == old(mem[..]) && lost == old(lost) && blocks == old(blocks)
      ensures p != 0 ==>
                && lost == old(lost) + Wasted(old(blocks), k, Gap(old(blocks)[k].addr, alignment), size)
                && lost <= old(lost) + HEADER + ALIGNMENT
      ensures forall j | 0 <= j < |old(blocks)| && !old(blocks)[j].free :: PayloadSame(old(mem[..]), mem[..], old(blocks)[j])
    {
      hide PutHeader, HeaderAt, PayloadSame, Laid, Total, Coalesced, Split, Gap, Rem, AlignedTake, RoundUp, Sound;
      var block := freeList;
      ghost var m, bs := mem[..], blocks;
      SameAll(m, bs);
      k := 0;
      while block != 0
        invariant mem[..] == m && blocks == bs && Valid() && lost == old(lost)
        invariant k <= |bs| && block == (if k < |bs| then bs[k].addr else 0) && (k < |bs| ==> block != 0)
        invariant forall j | 0 <= j < k :: !Holds(bs[j], alignment, size)
        decreases |bs| - k
      {
        Neighbours(m, bs, base, limit, k);
        if Free(block) != 0 {
          var aligned := RoundUp(block + HEADER, alignment);
          var totalNeeded := (aligned + size - block) % WORD;
          LaidEnd(m, bs, base, limit, k);
          NeedsIff(bs[k], alignment, size);
          if Size(block) + HEADER >= totalNeeded {
            TakeAligned(block, alignment, size, k);
            return aligned, k;
          }
        }
        block, k := Next(block), k + 1;
      }
      p := 0;
    }

    // val_aligned_alloc
    method AlignedAlloc(alignment: nat, size: nat) returns (p: nat, ghost k: nat)
      requires Valid() && limit + alignment <= WORD && size < WORD
      requires Accepted(alignment, size) ==> TestsRight(Start(), alignment, size) && FirstSound(Start(), alignment, size)
      modifies this, mem
      ensures Valid()
      ensures alignment < 8 || !IsPower(alignment) || Rem(size, alignment) != 0 ==>
                p == 0 && blocks == old(blocks) && lost == old(lost) && mem[..] == old(mem[..])
      ensures Accepted(alignment, size) ==> AlignedAnswer(old(Start()), blocks, alignment, size, p, k)
      ensures alignment >= 8 && IsPower(alignment) && Rem(size, alignment) == 0 ==>
                AlignedResult(old(Start()), blocks, alignment, size, p, k)
      ensures p != 0 ==> Rem(p, alignment) == 0 && Live(blocks, p, size)
      ensures KeepsLive(old(blocks), blocks, -1)
      ensures old(lost) <= lost <= old(lost) + HEADER + ALIGNMENT && (p == 0 ==> owned == old(owned))
      ensures p != 0 ==> HeapRuns.Step(old(Now()), Now(), HeapRuns.Align(k, alignment, size))
      ensures forall j | 0 <= j < |old(blocks)| && !old(blocks)[j].free :: PayloadSame(old(mem[..]), mem[..], old(blocks)[j])
    {
      hide PutHeader, HeaderAt, PayloadSame, Laid, Total, Coalesced, Split, Gap, Rem, AlignedTake, RoundUp, AlignUp, Live,
        FirstSound, TestsRight, PowerOfTwo, IsPower, AlignedAnswer, Wasted, HeapRuns.Step,
        AlignedResult;
      p, k := 0, 0;
      SameAll(mem[..], blocks);
      KeepsSelf(blocks);
      PowerOfTwoIff(alignment);
      if alignment < 8 || !PowerOfTwo(alignment) { return; }
      if Rem(size, alignment) != 0 { return; }
      AcceptedAligned(alignment, size);
      AlignedAlready(size);
      var n := AlignUp(size);
      if !initialized { Init(); }
      ghost var bs := blocks;
      LaidHeap(mem[..], bs, base, limit);
      p, k := FirstAligned(alignment, n);
      AnswerIs(bs, blocks, alignment, size, p, k);
      if p != 0 {
        owned := owned[p := size];
        AnswerStep(old(Now()), Now(), alignment, size, p, k);
        AnswerLive(bs, blocks, alignment, size, p, k, base, limit);
      }
    }

    // Freeing twice in a row: the second call fails and changes nothing.
    method FreeTwice(p: nat, ghost k: nat) returns (first: bool, second: bool)
      requires Valid() && (p != 0 ==> HEADER <= p <= mem.Length && (Freeable(p) ==> Owns(p, k)))
      modifies mem, this`blocks, this`owned
      ensures Valid() && !second
      ensures first ==> k < |old(blocks)| && blocks == Release(old(blocks), k)
      ensures !first ==> blocks == old(blocks) && mem[..] == old(mem[..])
    {
      first := FreePointer(p, k);
      second := FreePointer(p, k);
    }
  }

  // The outcome of a request for n aligned bytes: NULL exactly when no free block fits, else the
  // first block that does.
  ghost predicate Allocated(before: seq<Block>, after: seq<Block>, n: nat, p: nat, k: nat) {
    && (p == 0 <==> forall j | 0 <= j < |before| :: !Fits(before[j], n))
    && (p == 0 ==> after == before)
    && (p != 0 ==> k < |before| && Fits(before[k], n) && (forall j | 0 <= j < k :: !Fits(before[j], n))
                   && after == Take(before, k, n) && p == before[k].Payload())
  }

  lemma AlignUpIs(size: nat)
    requires size <= WORD - 8
    ensures AlignUp(size) == (size + 7) / 8 * 8
  {
  }

  lemma AllocatedIs(bs: seq<Block>, bs': seq<Block>, size: nat, p: nat, k: nat)
    requires Allocated(bs, bs', AlignUp(size), p, k)
    ensures size <= WORD - 8 ==> MallocResult(bs, bs', (size + 7) / 8 * 8, p, k)
  {
    hide Take, AlignUp, Carved;
    var n := AlignUp(size);
    if size <= WORD - 8 { AlignUpIs(size); }
    if p != 0 {
      TakeIs(bs, k, n);
      assert !NoneOf(bs, n);
    } else {
      assert forall j | 0 <= j < |bs| && bs[j].free :: !Fits(bs[j], n);
    }
  }

  lemma ResizedIs(m: Mem, bs: seq<Block>, m': Mem, bs': seq<Block>, k: nat, size: nat, p: nat, q: nat, base: nat, limit: nat)
    requires HeapBlocks.Heap(bs, base, limit) && k < |bs| && !bs[k].free
    requires Resized(m, bs, m', bs', k, AlignUp(size), p, q)
    ensures size <= WORD - 8 ==> ReallocResult(bs, bs', k, (size + 7) / 8 * 8, q)
  {
    hide HeapBlocks.Heap, Reallocates, Live, KeepsLive, PayloadSame, Copied, AlignUp, ShrinkResult, FreeResult, Carved;
    var n := AlignUp(size);
    if size <= WORD - 8 { AlignUpIs(size); }
    if q != 0 {
      ReallocatesIs(bs, bs', k, n, q, base, limit);
    } else {
      assert forall j | 0 <= j < |bs| && bs[j].free :: !Fits(bs[j], n);
    }
  }

  lemma AnswerIs(bs: seq<Block>, bs': seq<Block>, alignment: nat, n: nat, p: nat, k: nat)
    requires alignment > 0 && AlignedAnswer(bs, bs', alignment, n, p, k)
    ensures AlignedResult(bs, bs', alignment, n, p, k)
  {
    hide RoomIn, Holds, Gap, RoundUp, AlignedTake, AlignedIn, Sound, Rem, AlignedParts;
    forall j | 0 <= j < |bs| ensures RoomIn(bs[j], alignment, n) <==> Holds(bs[j], alignment, n) {
      RoomIff(bs[j], alignment, n);
    }
    if p != 0 { AnswerParts(bs, k, alignment, n, p); }
  }

  lemma AnswerParts(bs: seq<Block>, k: nat, alignment: nat, n: nat, p: nat)
    requires alignment > 0 && k < |bs| && Holds(bs[k], alignment, n) && Sound(bs[k], Gap(bs[k].addr, alignment))
    requires p == RoundUp(bs[k].addr + HEADER, alignment)
    ensures AlignedIn(bs[k], alignment, p) && p + n <= bs[k].addr + 32 + bs[k].size
    ensures p == bs[k].addr + 32 || bs[k].addr + 64 <= p
    ensures AlignedTake(bs, k, Gap(bs[k].addr, alignment), n) == bs[..k] + AlignedParts(bs[k], n, p) + bs[k + 1..]
  {
    hide Rem, RoundUp, AlignedTake, AlignedIn, AlignedParts;
    AlignedInIff(bs[k], alignment, p);
    AlignedTakeIs(bs, k, Gap(bs[k].addr, alignment), n);
  }

  lemma FreedBut(bs: seq<Block>, k: nat)
    requires k < |bs| && Coalesced(bs)
    ensures CoalescedBut(bs[k := bs[k].(free := true)], k)
  {
  }

  lemma FreedPayloads(m: Mem, m1: Mem, m2: Mem, bs: seq<Block>, k: nat)
    requires |m| == |m1| == |m2| && k < |bs|
    requires forall j | 0 <= j < |bs| :: PayloadSame(m, m1, bs[j])
    requires var f := bs[k := bs[k].(free := true)];
             forall j | 0 <= j < |f| && (j == k || !f[j].free) :: PayloadSame(m1, m2, f[j])
    ensures forall j | 0 <= j < |bs| && !bs[j].free :: PayloadSame(m, m2, bs[j])
  {
    var f := bs[k := bs[k].(free := true)];
    forall j | 0 <= j < |bs| && !bs[j].free ensures PayloadSame(m, m2, bs[j]) {
      assert PayloadSame(m1, m2, f[j]);
    }
  }

  // What a pointer into the list can read about its own and its neighbours' headers.
  ghost predicate Near(m: Mem, bs: seq<Block>, k: nat)
    requires k < |bs|
  {
    && ReadsAs(m, bs, k)
    && (k > 0 ==> ReadsAs(m, bs, k - 1))
    && (k + 1 < |bs| ==> ReadsAs(m, bs, k + 1))
  }

  ghost predicate ReadsAs(m: Mem, bs: seq<Block>, k: nat)
    requires k < |bs|
  {
    0 < bs[k].addr <= |m| - HEADER && HeaderAt(m, bs[k].addr) == HeaderOf(bs, k)
  }

  lemma Neighbours(m: Mem, bs: seq<Block>, base: nat, limit: nat, k: nat)
    requires Laid(m, bs, base, limit) && k < |bs|
    ensures Near(m, bs, k)
  {
    hide HeaderAt, HeaderOf, Ordered;
    Bounds(bs, base, limit, k);
    if k > 0 { Bounds(bs, base, limit, k - 1); }
    if k + 1 < |bs| { Bounds(bs, base, limit, k + 1); }
  }

  lemma BackwardStops(bs: seq<Block>, k: nat)
    requires k < |bs| && CoalescedBut(bs, k)
    ensures k > 0 && bs[k - 1].free ==> k == 1 || !Merge(bs, k - 1)[k - 2].free
  {
  }

  // Blocks that were in use keep their bytes through a forward merge and whatever keeps its result's.
  lemma ForwardPayloads(m0: Mem, m1: Mem, m2: Mem, bs: seq<Block>, k: nat)
    requires |m0| == |m1| == |m2| && k < |bs| && CoalescedBut(bs, k)
    requires forall i | 0 <= i < |bs| :: PayloadSame(m0, m1, bs[i])
    requires forall i | 0 <= i < |Forward(bs, k)| :: PayloadSame(m1, m2, Forward(bs, k)[i])
    ensures forall i | 0 <= i < |bs| && (i == k || !bs[i].free) :: PayloadSame(m0, m2, bs[i])
  {
    hide CoalescedBut;
    ForwardOnce(bs, k);
    var f := Forward(bs, k);
    forall i | 0 <= i < |bs| && (i == k || !bs[i].free) ensures PayloadSame(m0, m2, bs[i]) {
      if f == bs {
        assert PayloadSame(m1, m2, f[i]);
      } else if i <= k {
        assert PayloadSame(m1, m2, f[i]);
      } else {
        assert f[i - 1] == bs[i] && PayloadSame(m1, m2, f[i - 1]);
      }
    }
  }

  lemma AllMergePayloads(m: Mem, bs: seq<Block>, k: nat, base: nat, limit: nat)
    requires Laid(m, bs, base, limit) && k + 1 < |bs|
    ensures MergeMem.requires(m, bs[k].addr)
    ensures forall j | 0 <= j < |bs| :: PayloadSame(m, MergeMem(m, bs[k].addr), bs[j])
  {
    hide PayloadSame, MergeMem, Ordered, Linked;
    MergeReady(m, bs, k, base, limit);
    forall j | 0 <= j < |bs| ensures PayloadSame(m, MergeMem(m, bs[k].addr), bs[j]) {
      MergePayloads(m, bs, k, base, limit, j);
    }
  }

  lemma SameAll(m: Mem, bs: seq<Block>)
    ensures forall i | 0 <= i < |bs| :: PayloadSame(m, m, bs[i])
  {
  }

  lemma AllSplitPayloads(m: Mem, bs: seq<Block>, k: nat, size: nat, base: nat, limit: nat)
    requires Laid(m, bs, base, limit) && k < |bs| && size % ALIGNMENT == 0
    ensures SplitMem.requires(m, bs[k].addr, size)
    ensures forall j | 0 <= j < |Split(bs, k, size)| :: PayloadSame(m, SplitMem(m, bs[k].addr, size), Split(bs, k, size)[j])
  {
    hide PayloadSame, SplitMem, Ordered, Linked, HeaderAt;
    Bounds(bs, base, limit, k);
    SplitLaid(m, bs, k, size, base, limit);
    forall j | 0 <= j < |Split(bs, k, size)|
      ensures PayloadSame(m, SplitMem(m, bs[k].addr, size), Split(bs, k, size)[j])
    {
      SplitPayloads(m, bs, k, size, base, limit, j);
    }
  }

  lemma ComposeSame(m: Mem, m1: Mem, m2: Mem, bs: seq<Block>)
    requires |m| == |m1| == |m2|
    requires forall j | 0 <= j < |bs| :: PayloadSame(m, m1, bs[j])
    requires forall j | 0 <= j < |bs| :: PayloadSame(m1, m2, bs[j])
    ensures forall j | 0 <= j < |bs| :: PayloadSame(m, m2, bs[j])
  {
    hide PayloadSame;
    forall j | 0 <= j < |bs| ensures PayloadSame(m, m2, bs[j]) { SameTrans(m, m1, m2, bs[j]); }
  }

  // Taking block k leaves the other blocks' payloads, found again in the new list.
  lemma TakenPayloads(m: Mem, m': Mem, bs: seq<Block>, k: nat, size: nat)
    requires |m'| == |m| && k < |bs| && forall j | 0 <= j < |Split(bs, k, size)| :: PayloadSame(m, m', Split(bs, k, size)[j])
    ensures forall j | 0 <= j < |Take(bs, k, size)| :: PayloadSame(m, m', Take(bs, k, size)[j])
    ensures forall j | 0 <= j < |bs| && j != k :: PayloadSame(m, m', bs[j])
  {
    hide PayloadSame;
    var s, t := Split(bs, k, size), Take(bs, k, size);
    forall j | 0 <= j < |t| ensures PayloadSame(m, m', t[j]) {
      FlagSame(m, m', s[j], t[j]);
    }
    forall j | 0 <= j < |bs| && j != k ensures PayloadSame(m, m', bs[j]) {
      if j < k || !Splits(bs[k], size) { assert s[j] == bs[j]; } else { assert s[j + 1] == bs[j]; }
    }
  }

  lemma FlagSame(m: Mem, m': Mem, b: Block, c: Block)
    requires |m'| == |m| && b.addr == c.addr && b.size == c.size && PayloadSame(m, m', b)
    ensures PayloadSame(m, m', c)
  {
  }

  lemma LaidHeap(m: Mem, bs: seq<Block>, base: nat, limit: nat)
    requires Laid(m, bs, base, limit) && |bs| > 0 && bs[0].addr == base && Coalesced(bs)
    ensures HeapBlocks.Heap(bs, base, limit)
  {
  }

  lemma LaidEnd(m: Mem, bs: seq<Block>, base: nat, limit: nat, k: nat)
    requires Laid(m, bs, base, limit) && k < |bs|
    ensures bs[k].End() <= limit <= |m|
  {
    Bounds(bs, base, limit, k);
  }

  // Payloads in use before a request survive whatever is written to the block it returned.
  lemma LiveElsewhere(m: Mem, m1: Mem, m2: Mem, bs: seq<Block>, bs1: seq<Block>, k: nat, n: nat)
    requires |m| == |m1| == |m2| && (bs == [] || (k < |bs| && bs[k].free && bs1 == Take(bs, k, n)))
    requires forall j | 0 <= j < |bs| && !bs[j].free :: PayloadSame(m, m1, bs[j])
    requires forall j | 0 <= j < |bs1| && j != k :: PayloadSame(m1, m2, bs1[j])
    ensures forall j | 0 <= j < |bs| && !bs[j].free :: PayloadSame(m, m2, bs[j])
  {
    hide PayloadSame, Take, Split, Splits;
    forall j | 0 <= j < |bs| && !bs[j].free ensures PayloadSame(m, m2, bs[j]) {
      var i := TakenAt(bs, k, n, j);
      assert PayloadSame(m1, m2, bs1[i]);
      SameTrans(m, m1, m2, bs[j]);
    }
  }

  // A request is served in full unless the rounding of ALIGN wraps around.
  lemma RequestServed(size: nat)
    requires size < WORD
    ensures AlignUp(size) >= size <==> size + ALIGNMENT <= WORD
  {
  }

  // For val_calloc: unless the product, rounded up, does not fit in size_t.
  lemma CallocServed(nmemb: nat, size: nat)
    ensures AlignUp((nmemb * size) % WORD) >= nmemb * size <==> nmemb * size + ALIGNMENT <= WORD
  {
    WrappedServed(nmemb * size);
  }

  lemma WrappedServed(product: nat)
    ensures AlignUp(product % WORD) >= product <==> product + ALIGNMENT <= WORD
  {
    if product < WORD { RequestServed(product); }
  }

  lemma CoalesceElsewhereAt(bs: seq<Block>, k: nat)
    requires k + 1 < |bs| && CoalescedBut(bs, k + 1) && !bs[k].free && Coalesce(bs, k + 1).1 == k + 1
    ensures var c := Coalesce(bs, k + 1).0; k + 1 < |c| && c[k] == bs[k] && c[k + 1].addr == bs[k + 1].addr
  {
    hide Forward, Backward, CoalescedBut;
    ForwardOnce(bs, k + 1);
    BackwardOnce(Forward(bs, k + 1), k + 1);
  }

  lemma ShrunkPayloads(m: Mem, m1: Mem, m2: Mem, bs: seq<Block>, k: nat, n: nat)
    requires |m| == |m1| == |m2| && k < |bs| && !bs[k].free && n <= bs[k].size
    requires forall j | 0 <= j < |Split(bs, k, n)| :: PayloadSame(m, m1, Split(bs, k, n)[j])
    requires forall j | 0 <= j < |Split(bs, k, n)| && !Split(bs, k, n)[j].free :: PayloadSame(m1, m2, Split(bs, k, n)[j])
    ensures PayloadSame(m, m2, bs[k].(size := n))
    ensures forall j | 0 <= j < |bs| && j != k && !bs[j].free :: PayloadSame(m, m2, bs[j])
  {
    var s := Split(bs, k, n);
    assert PayloadSame(m, m1, s[k]) && PayloadSame(m1, m2, s[k]);
    forall j | 0 <= j < |bs| && j != k && !bs[j].free ensures PayloadSame(m, m2, bs[j]) {
      var i := if j < k || !Splits(bs[k], n) then j else j + 1;
      assert s[i] == bs[j] && PayloadSame(m, m1, s[i]) && PayloadSame(m1, m2, s[i]);
    }
  }

  // The n cells at dst hold what the n cells at src held.
  ghost predicate Copied(m: Mem, m': Mem, dst: nat, src: nat, n: nat)
    requires dst + n <= |m'| && src + n <= |m|
  {
    forall i | dst <= i < dst + n :: m'[i] == m[i - dst + src]
  }

  lemma NotMoved(m: Mem, p: nat, n: nat)
    requires p + n <= |m|
    ensures Moved(m, p, p, n) == m
  {
  }

  lemma GrownPayloads(m: Mem, m1: Mem, m2: Mem, m3: Mem, bs: seq<Block>, k: nat, n: nat, q: nat, p: nat)
    requires |m| == |m1| == |m2| == |m3| && k < |bs| && !bs[k].free && CoalescedBut(bs, k) && bs[k].size <= n
    requires p == bs[k].Payload() && bs[k].End() <= |m| && q + bs[k].size <= |m| && m2 == Moved(m1, q, p, bs[k].size)
    requires forall i | 0 <= i < |bs| && (i == k || !bs[i].free) :: PayloadSame(m, m1, bs[i])
    requires var (c, j) := Coalesce(bs, k);
             && q == c[j].Payload()
             && (forall i | 0 <= i < |c| && i != j :: PayloadSame(m1, m2, c[i]))
             && (forall i | 0 <= i < |c| && i != j :: PayloadSame(m2, m3, c[i]))
             && j < |Take(c, j, n)| && Take(c, j, n)[j].Payload() == q && Take(c, j, n)[j].size >= n
             && PayloadSame(m2, m3, Take(c, j, n)[j])
    ensures Copied(m, m3, q, p, bs[k].size)
    ensures forall i | 0 <= i < |bs| && i != k && !bs[i].free :: PayloadSame(m, m3, bs[i])
  {
    hide Coalesce, CoalescedBut, Take;
    var (c, j) := Coalesce(bs, k);
    assert PayloadSame(m, m1, bs[k]);
    forall i | 0 <= i < |bs| && i != k && !bs[i].free ensures PayloadSame(m, m3, bs[i]) {
      var i' := CoalesceElsewhere(bs, k, i);
      SameTrans(m, m1, m2, bs[i]);
      SameTrans(m, m2, m3, bs[i]);
    }
  }

  lemma AlignedAlready(n: nat)
    requires n % ALIGNMENT == 0 && n + ALIGNMENT <= WORD
    ensures AlignUp(n) == n
  {
  }

  lemma BlocksApart(m: Mem, bs: seq<Block>, base: nat, limit: nat, j: nat, k: nat)
    requires Laid(m, bs, base, limit) && j < |bs| && k < |bs| && j != k
    ensures bs[j].End() <= bs[k].addr || bs[k].End() <= bs[j].addr
  {
    if j < k { HeadersApart(bs, base, limit, j, k); } else { HeadersApart(bs, base, limit, k, j); }
  }

  lemma CopyPayloads(m: Mem, m1: Mem, m3: Mem, bs: seq<Block>, bs1: seq<Block>, t: nat, n: nat, k: nat, k1: nat,
                     q: nat, p: nat)
    requires |m| == |m1| == |m3| && t < |bs| && k < |bs| && k != t && bs[t].free && !bs[k].free
    requires bs1 == Take(bs, t, n) && k1 == TakenAt(bs, t, n, k) && bs1[t].size >= n > bs[k].size
    requires p == bs[k].Payload() && q == bs1[t].Payload() && bs1[t].End() <= |m| && bs[k].End() <= |m|
    requires forall j | 0 <= j < |bs| && !bs[j].free :: PayloadSame(m, m1, bs[j])
    requires var m2 := Moved(m1, q, p, bs[k].size);
             && (forall j | 0 <= j < |bs1| && j != t :: PayloadSame(m1, m2, bs1[j]))
             && (forall j | 0 <= j < |bs1| && !bs1[j].free :: PayloadSame(m2, m3, bs1[j]))
    ensures Copied(m, m3, q, p, bs[k].size)
    ensures forall j | 0 <= j < |bs| && j != k && !bs[j].free :: PayloadSame(m, m3, bs[j])
  {
    hide Take;
    var m2 := Moved(m1, q, p, bs[k].size);
    assert PayloadSame(m, m1, bs[k]) && PayloadSame(m2, m3, bs1[t]);
    forall j | 0 <= j < |bs| && j != k && !bs[j].free ensures PayloadSame(m, m3, bs[j]) {
      var j1 := TakenAt(bs, t, n, j);
      assert PayloadSame(m1, m2, bs1[j1]) && PayloadSame(m2, m3, bs1[j1]);
      SameTrans(m, m1, m2, bs[j]);
      SameTrans(m, m2, m3, bs[j]);
    }
  }

  // The outcome of resizing live block k to n aligned bytes.
  ghost predicate Resized(m: Mem, bs: seq<Block>, m': Mem, bs': seq<Block>, k: nat, n: nat, p: nat, q: nat) {
    && k < |bs| && |m'| == |m| && p == bs[k].Payload() && bs[k].End() <= |m|
    && (q == 0 <==> bs[k].size < n && !CanGrow(bs, k, n) && forall j | 0 <= j < |bs| :: !Fits(bs[j], n))
    && (q == 0 ==> bs' == bs && m' == m)
    && (q != 0 ==> Reallocates(bs, bs', k, n, q))
    && (q != 0 ==>
          && Live(bs', q, n) && KeepsLive(bs, bs', k)
          && q + Least(bs[k].size, n) <= |m| && Copied(m, m', q, p, Least(bs[k].size, n)))
    && (forall i | 0 <= i < |bs| && i != k && !bs[i].free :: PayloadSame(m, m', bs[i]))
  }

  function Least(a: nat, b: nat): nat {
    if a < b then a else b
  }

  // Line 371 hands val_coalesce a NULL block exactly when NoSuccessor holds ...
  lemma NullSuccessorIff(bs: seq<Block>, k: nat, n: nat, base: nat, limit: nat)
    requires Ordered(bs, base, limit) && 0 < base && k < |bs| && n % ALIGNMENT == 0
    ensures NextOf(Split(bs, k, n), k) == 0 <==> NoSuccessor(bs, k, n)
  {
    SplitOrdered(bs, k, n, base, limit);
    if k + 1 < |Split(bs, k, n)| { InsideAt(Split(bs, k, n), k + 1, base, limit); }
  }

  // ... as after val_malloc(HEAP_SIZE - 32), resized to the size it already has.
  lemma WholeHeapResized(base: nat)
    ensures var bs := Take([Block(base, HEAP_SIZE - HEADER, true)], 0, HEAP_SIZE - HEADER);
            NoSuccessor(bs, 0, AlignUp(HEAP_SIZE - HEADER)) && AlignUp(HEAP_SIZE - HEADER) <= bs[0].size
  {
  }

  // On a fresh heap two calls of val_malloc(64) and then val_realloc of the first block to the 64 bytes it
  // has leave no free block at all: the second block has swallowed the rest.
  lemma SwallowedHeap(base: nat)
    ensures var bs := Take(Take([Block(base, HEAP_SIZE - HEADER, true)], 0, 64), 1, 64);
            && bs == [Block(base, 64, false), Block(base + 96, 64, false), Block(base + 192, 524064, true)]
            && Swallows(bs, 0, 64) && forall bs' :: ShrinkResult(bs, bs', 0, 64) ==> NoneOf(bs', 0)
  {
    var a := Take([Block(base, HEAP_SIZE - HEADER, true)], 0, 64);
    assert a == [Block(base, 64, false), Block(base + 96, 524160, true)];
    var bs := Take(a, 1, 64);
    assert bs == [a[0], Block(base + 96, 64, false), Block(base + 192, 524064, true)];
  }

  lemma ShrinkCopied(m: Mem, m': Mem, b: Block, n: nat)
    requires |m| == |m'| && b.End() <= |m| && n <= b.size && PayloadSame(m, m', b.(size := n))
    ensures Copied(m, m', b.Payload(), b.Payload(), n)
  {
  }

  lemma AlignUpBelow(size: nat)
    ensures AlignUp(size) + ALIGNMENT <= WORD
  {
  }

  lemma AddressAligned(m: Mem, bs: seq<Block>, base: nat, limit: nat, k: nat)
    requires Laid(m, bs, base, limit) && k < |bs|
    ensures bs[k].addr % ALIGNMENT == 0
  {
    InsideAt(bs, k, base, limit);
  }

  lemma ExactPayloads(m: Mem, m1: Mem, m2: Mem, bs: seq<Block>, s: seq<Block>, k: nat, size: nat)
    requires |m| == |m1| == |m2| && k < |bs|
    requires s == if bs[k].size > size + HEADER + ALIGNMENT then Split(bs, k, size) else bs
    requires forall j | 0 <= j < |s| :: PayloadSame(m, m1, s[j])
    requires forall j | 0 <= j < |s| :: PayloadSame(m1, m2, s[j])
    ensures forall j | 0 <= j < |bs| && j != k :: PayloadSame(m, m2, bs[j])
  {
    hide PayloadSame, Split;
    forall j | 0 <= j < |bs| && j != k ensures PayloadSame(m, m2, bs[j]) {
      var i := AfterExact(bs, k, size, j);
      SameTrans(m, m1, m2, s[i]);
    }
  }

  lemma LeadPayloads(m: Mem, m1: Mem, m2: Mem, bs: seq<Block>, k: nat, gap: nat)
    requires |m| == |m1| == |m2| && k < |bs| && Sound(bs[k], gap)
    requires var (s, i) := Lead(bs, k, gap);
             && (forall j | 0 <= j < |s| :: PayloadSame(m, m1, s[j]))
             && (forall j | 0 <= j < |s| && j != i :: PayloadSame(m1, m2, s[j]))
    ensures forall j | 0 <= j < |bs| && j != k :: PayloadSame(m, m2, bs[j])
  {
    hide PayloadSame, Split;
    var (s, i) := Lead(bs, k, gap);
    forall j | 0 <= j < |bs| && j != k ensures PayloadSame(m, m2, bs[j]) {
      var j1 := if gap >= HEADER then After(bs, k, gap - HEADER, j) else j;
      SameTrans(m, m1, m2, s[j1]);
    }
  }

  // The checks of lines 426-431.
  predicate Accepted(alignment: nat, size: nat) {
    alignment >= 8 && PowerOfTwo(alignment) && Rem(size, alignment) == 0
  }

  lemma AcceptedAligned(alignment: nat, size: nat)
    requires Accepted(alignment, size) && size < WORD
    ensures alignment % ALIGNMENT == 0 && size % ALIGNMENT == 0 && size + ALIGNMENT <= WORD
  {
    hide Rem;
    PowerAligned(alignment);
    QuotRemIs(alignment, ALIGNMENT);
    MultipleOfMultiple(size, alignment, ALIGNMENT);
    QuotRemIs(size, ALIGNMENT);
  }

  // The block the search stops at has no gap, or a gap that becomes a block.
  ghost predicate FirstSound(bs: seq<Block>, alignment: nat, size: nat)
    requires alignment > 0
  {
    forall k | 0 <= k < |bs| && Holds(bs[k], alignment, size) && (forall j | 0 <= j < k :: !Holds(bs[j], alignment, size)) ::
      Sound(bs[k], Gap(bs[k].addr, alignment))
  }

  // The outcome of an aligned request: NULL exactly when no free block holds it, else the first that does.
  ghost predicate AlignedAnswer(before: seq<Block>, after: seq<Block>, alignment: nat, size: nat, p: nat, k: nat)
    requires alignment > 0
  {
    && (p == 0 <==> forall j | 0 <= j < |before| :: !Holds(before[j], alignment, size))
    && (p == 0 ==> after == before)
    && (p != 0 ==> k < |before| && Holds(before[k], alignment, size)
                   && (forall j | 0 <= j < k :: !Holds(before[j], alignment, size))
                   && Sound(before[k], Gap(before[k].addr, alignment))
                   && after == AlignedTake(before, k, Gap(before[k].addr, alignment), size)
                   && p == RoundUp(before[k].addr + HEADER, alignment))
  }

  // The size test of line 447, in size_t arithmetic.
  predicate Passes(b: Block, alignment: nat, size: nat)
    requires alignment > 0
  {
    b.size + HEADER >= (RoundUp(b.addr + HEADER, alignment) + size - b.addr) % WORD
  }

  // What the request needs from b does not wrap around, or wraps to more than b has.
  predicate TestRight(b: Block, alignment: nat, size: nat)
    requires alignment > 0
  {
    var need := Gap(b.addr, alignment) + HEADER + size;
    need < WORD || b.size + HEADER < need - WORD
  }

  ghost predicate TestsRight(bs: seq<Block>, alignment: nat, size: nat)
    requires alignment > 0
  {
    forall k | 0 <= k < |bs| && bs[k].free :: TestRight(bs[k], alignment, size)
  }

  // The test tells whether the block holds the request exactly under that condition.
  lemma NeedsIff(b: Block, alignment: nat, size: nat)
    requires alignment > 0 && alignment + HEADER <= WORD && size < WORD && b.free && b.size + HEADER < WORD
    ensures (Passes(b, alignment, size) <==> Holds(b, alignment, size)) <==> TestRight(b, alignment, size)
  {
    hide Rem;
  }

  // It fails for a request of 2^64 - 32 bytes: every free block passes the test.
  lemma NeedsWraps(b: Block)
    requires b.free && b.addr % 8 == 0
    ensures Passes(b, 8, WORD - HEADER)
    ensures Accepted(8, WORD - HEADER)
  {
    QuotRemIs(b.addr + HEADER, 8);
    QuotRemIs(WORD - HEADER, 8);
    assert PowerOfTwo(2) && PowerOfTwo(4);
  }

  // A reachable case with a partial gap: on a fresh heap, val_malloc(8) and then
  // val_aligned_alloc(16, 16) answers with a pointer that belongs to no block.
  lemma AlignedAfterSmall(base: nat)
    requires base % 32 == 0
    ensures var bs := Take([Block(base, HEAP_SIZE - HEADER, true)], 0, 8);
            && |bs| == 2 && Accepted(16, 16) && !Holds(bs[0], 16, 16) && Holds(bs[1], 16, 16) && Gap(bs[1].addr, 16) == 8
            && forall j | 0 <= j < |AlignedTake(bs, 1, 8, 16)| ::
                 AlignedTake(bs, 1, 8, 16)[j].Payload() != RoundUp(bs[1].addr + HEADER, 16)
  {
    hide Rem, Gap, PowerOfTwo, Take, AlignedTake, RoundUp;
    var bs := Take([Block(base, HEAP_SIZE - HEADER, true)], 0, 8);
    AfterSmall(base);
    SixteenGap(base);
    OrderedPair(base);
    PointerListedIff(bs, 1, 16, 16, base, base + HEAP_SIZE);
  }

  lemma AfterSmall(base: nat)
    ensures Take([Block(base, HEAP_SIZE - HEADER, true)], 0, 8)
         == [Block(base, 8, false), Block(base + 40, HEAP_SIZE - HEADER - 40, true)]
  {
  }

  lemma SixteenGap(base: nat)
    requires base % 32 == 0
    ensures RoundUp(base + 72, 16) == base + 80 && Gap(base + 40, 16) == 8 && Accepted(16, 16)
  {
    hide Rem, PowerOfTwo;
    QuotRemIs(base + 72, 16);
    QuotRemIs(16, 16);
    assert PowerOfTwo(16) by { SixteenPower(); }
  }

  lemma SixteenPower()
    ensures PowerOfTwo(16)
  {
    assert PowerOfTwo(2) && PowerOfTwo(4);
  }

  lemma OrderedPair(base: nat)
    requires base % 32 == 0
    ensures Ordered(Take([Block(base, HEAP_SIZE - HEADER, true)], 0, 8), base, base + HEAP_SIZE)
  {
    hide Take;
    assert Inside(Block(base, HEAP_SIZE - HEADER, true), base, base + HEAP_SIZE);
    TakeHeap([Block(base, HEAP_SIZE - HEADER, true)], 0, 8, base, base + HEAP_SIZE);
  }

  // Both happen, on a heap aligned to 4KB.  After val_malloc(523200) the last block has 1024 bytes, all
  // of them gap for val_aligned_alloc(4096, 0), and line 457 reads through NULL.
  lemma EmptyRequestNull(base: nat)
    requires base % 4096 == 0 && base > 0
    ensures var bs := Take([Block(base, HEAP_SIZE - HEADER, true)], 0, 523200);
            && bs == [Block(base, 523200, false), Block(base + 523232, 1024, true)]
            && Accepted(4096, 0) && Holds(bs[1], 4096, 0) && Gap(bs[1].addr, 4096) == 1024
            && NextOf(Lead(bs, 1, 1024).0, 1) == 0
  {
    hide Rem, PowerOfTwo;
    QuotRemIs(base + 523264, 4096);
    PageRequest();
  }

  // After val_malloc of 3008, 1024 and 64 bytes and val_free of the second, the same request empties
  // the third while its client still holds it.
  lemma EmptyRequestCuts(base: nat)
    requires base % 4096 == 0 && base > 0
    ensures var bs := Freed(base);
            && bs[2] == Block(base + 4096, 64, false) && Holds(bs[1], 4096, 0) && !Holds(bs[0], 4096, 0)
            && Gap(bs[1].addr, 4096) == 1024
            && AlignedTake(bs, 1, 1024, 0)[2] == Block(base + 4096, 0, false)
            && !Live(AlignedTake(bs, 1, 1024, 0), base + 4096 + HEADER, 64)
  {
    hide Rem, Live, Gap, RoundUp, AlignedTake, HeapBlocks.Heap;
    PageGap(base);
    FreedHeap(base);
    LeadRunsOver(Freed(base), 1, 1024, base, base + HEAP_SIZE);
  }

  lemma PageGap(base: nat)
    requires base % 4096 == 0
    ensures Gap(base + 3040, 4096) == 1024
  {
    hide Rem;
    QuotRemIs(base + 3072, 4096);
  }

  function Freed(base: nat): (bs: seq<Block>)
    ensures |bs| == 4
  {
    [Block(base, 3008, false), Block(base + 3040, 1024, true), Block(base + 4096, 64, false),
     Block(base + 4192, HEAP_SIZE - 4224, true)]
  }

  lemma FreedHeap(base: nat)
    requires base % 4096 == 0
    ensures HeapBlocks.Heap(Freed(base), base, base + HEAP_SIZE)
  {
    hide Inside;
    InsideEight(base, 0, 3008, false);
    InsideEight(base, 3040, 1024, true);
    InsideEight(base, 4096, 64, false);
    InsideEight(base, 4192, HEAP_SIZE - 4224, true);
    var bs := Freed(base);
    forall k | 0 <= k < |bs| ensures Inside(bs[k], base, base + HEAP_SIZE) {
      assert k == 0 || k == 1 || k == 2 || k == 3;
    }
  }

  lemma InsideEight(base: nat, o: nat, size: nat, free: bool)
    requires base % 4096 == 0 && o % 8 == 0 && size % 8 == 0 && o + HEADER + size <= HEAP_SIZE
    ensures Inside(Block(base + o, size, free), base, base + HEAP_SIZE)
  {
  }

  // That list is what those calls lead to.
  lemma FreedReached(base: nat)
    ensures var a := Take([Block(base, HEAP_SIZE - HEADER, true)], 0, 3008);
            var b := Take(a, 1, 1024);
            var c := Take(b, 2, 64);
            Release(c, 1) == Freed(base)
  {
    var a := Take([Block(base, HEAP_SIZE - HEADER, true)], 0, 3008);
    assert a == [Block(base, 3008, false), Block(base + 3040, HEAP_SIZE - 3072, true)];
    var b := Take(a, 1, 1024);
    assert b == [a[0], Block(base + 3040, 1024, false), Block(base + 4096, HEAP_SIZE - 4128, true)];
    var c := Take(b, 2, 64);
    assert c == [a[0], b[1], Block(base + 4096, 64, false), Block(base + 4192, HEAP_SIZE - 4224, true)];
    var f := c[1 := c[1].(free := true)];
    assert Forward(f, 1) == f && Backward(f, 1) == (f, 1);
  }

  lemma PageRequest()
    ensures Accepted(4096, 0)
  {
    assert PowerOfTwo(2) && PowerOfTwo(8) && PowerOfTwo(64);
    assert PowerOfTwo(512);
  }

  lemma AnswerStep(s: HeapRuns.State, s': HeapRuns.State, alignment: nat, size: nat, p: nat, k: nat)
    requires alignment > 0 && alignment % ALIGNMENT == 0 && size % ALIGNMENT == 0 && p != 0
    requires AlignedAnswer(s.bs, s'.bs, alignment, size, p, k)
    requires s'.lost == s.lost + Wasted(s.bs, k, Gap(s.bs[k].addr, alignment), size) && s'.owned == s.owned[p := size]
    ensures HeapRuns.Step(s, s', HeapRuns.Align(k, alignment, size))
  {
    hide RoundUp, Gap, AlignedTake, Sound, Wasted;
  }

  lemma AnswerLive(before: seq<Block>, after: seq<Block>, alignment: nat, size: nat, p: nat, k: nat, base: nat, limit: nat)
    requires alignment > 0 && alignment % ALIGNMENT == 0 && size % ALIGNMENT == 0 && HeapBlocks.Heap(before, base, limit)
    requires AlignedAnswer(before, after, alignment, size, p, k) && p != 0
    ensures Rem(p, alignment) == 0 && Live(after, p, size) && KeepsLive(before, after, -1)
  {
    hide Rem, RoundUp, HeapBlocks.Heap, AlignedTake, Live;
    AlignedHeap(before, k, alignment, size, base, limit);
    AlignedKeeps(before, k, Gap(before[k].addr, alignment), size);
    var i := Lead(before, k, Gap(before[k].addr, alignment)).1;
    LiveAt(after, i, p, size);
  }

  lemma KeepsSelf(bs: seq<Block>)
    ensures KeepsLive(bs, bs, -1)
  {
    forall j | 0 <= j < |bs| && !bs[j].free ensures Live(bs, bs[j].Payload(), bs[j].size) {
      LiveAt(bs, j, bs[j].Payload(), bs[j].size);
    }
  }
}
