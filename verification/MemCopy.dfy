/** val_memmove of val/src/val_misc.c and the plain copy and fill loops of the platform library,
    on memory as an array of cells. */
module MemCopy {

  // The memory after n cells from src have been placed at dest.
  function Moved(m: seq<int>, dest: nat, src: nat, n: nat): (r: seq<int>)
    requires dest + n <= |m| && src + n <= |m|
    ensures |r| == |m|
    ensures forall i | dest <= i < dest + n :: r[i] == m[i - dest + src]
    ensures forall i | 0 <= i < |m| && !(dest <= i < dest + n) :: r[i] == m[i]
  {
    m[..dest] + m[src..src + n] + m[dest + n..]
  }

  method Memmove(mem: array<int>, dest: nat, src: nat, n: nat)
    requires dest + n <= mem.Length && src + n <= mem.Length
    modifies mem
    ensures mem[..] == Moved(old(mem[..]), dest, src, n)
  {
    if dest == src || n == 0 { return; }
    if dest < src {
      var i := 0;
      while i < n
        invariant i <= n
        invariant forall j | dest <= j < dest + i :: mem[j] == old(mem[j - dest + src])
        invariant forall j | 0 <= j < mem.Length && !(dest <= j < dest + i) :: mem[j] == old(mem[j])
      {
        mem[dest + i] := mem[src + i];
        i := i + 1;
      }
    } else {
      var i := n;
      while i > 0
        invariant 0 <= i <= n
        invariant forall j | dest + i <= j < dest + n :: mem[j] == old(mem[j - dest + src])
        invariant forall j | 0 <= j < mem.Length && !(dest + i <= j < dest + n) :: mem[j] == old(mem[j])
      {
        i := i - 1;
        mem[dest + i] := mem[src + i];
      }
    }
  }

  // memcpy: a forward copy, right when the ranges do not overlap.
  method Memcpy(mem: array<int>, dest: nat, src: nat, n: nat)
    requires dest + n <= mem.Length && src + n <= mem.Length && (dest + n <= src || src + n <= dest)
    modifies mem
    ensures mem[..] == Moved(old(mem[..]), dest, src, n)
  {
    var i := 0;
    while i < n
      invariant i <= n
      invariant forall j | dest <= j < dest + i :: mem[j] == old(mem[j - dest + src])
      invariant forall j | 0 <= j < mem.Length && !(dest <= j < dest + i) :: mem[j] == old(mem[j])
    {
      mem[dest + i] := mem[src + i];
      i := i + 1;
    }
  }

  method Memset(mem: array<int>, dest: nat, v: int, n: nat)
    requires dest + n <= mem.Length
    modifies mem
    ensures forall j | dest <= j < dest + n :: mem[j] == v
    ensures forall j | 0 <= j < mem.Length && !(dest <= j < dest + n) :: mem[j] == old(mem[j])
  {
    var i := 0;
    while i < n
      invariant i <= n
      invariant forall j | dest <= j < dest + i :: mem[j] == v
      invariant forall j | 0 <= j < mem.Length && !(dest <= j < dest + i) :: mem[j] == old(mem[j])
    {
      mem[dest + i] := v;
      i := i + 1;
    }
  }
}
