/** Little-endian fields of a byte buffer. */
module LittleEndian {

  type Buffer = seq<nat>

  function Limit(w: nat): (r: nat)
    ensures r > 0
  {
    if w == 0 then 1 else 0x100 * Limit(w - 1)
  }

  // The field of w bytes at offset o.
  function Le(m: Buffer, o: nat, w: nat): (r: nat)
    requires o + w <= |m|
    decreases w
  {
    if w == 0 then 0 else m[o] + 0x100 * Le(m, o + 1, w - 1)
  }

  ghost predicate Same(m: Buffer, m': Buffer, lo: nat, hi: nat) {
    |m| == |m'| && forall i | lo <= i < hi && i < |m| :: m'[i] == m[i]
  }

  lemma {:induction false} LeSame(m: Buffer, m': Buffer, o: nat, w: nat)
    requires Same(m, m', o, o + w) && o + w <= |m|
    ensures Le(m', o, w) == Le(m, o, w)
    decreases w
  {
    if w > 0 { LeSame(m, m', o + 1, w - 1); }
  }

  // A field store, as the compiler lays out one member of a packed structure.
  method Write(buf: array<nat>, o: nat, w: nat, v: nat)
    requires o + w <= buf.Length && v < Limit(w)
    modifies buf
    ensures Le(buf[..], o, w) == v
    ensures forall i | 0 <= i < buf.Length && !(o <= i < o + w) :: buf[i] == old(buf[i])
    ensures forall p: nat, n: nat | p + n <= buf.Length && (p + n <= o || o + w <= p) :: Le(buf[..], p, n) == Le(old(buf[..]), p, n)
    decreases w
  {
    ghost var m := buf[..];
    if w > 0 {
      buf[o] := v % 0x100;
      Write(buf, o + 1, w - 1, v / 0x100);
      assert Le(buf[..], o, w) == buf[o] + 0x100 * Le(buf[..], o + 1, w - 1);
    }
    forall p: nat, n: nat | p + n <= buf.Length && (p + n <= o || o + w <= p)
      ensures Le(buf[..], p, n) == Le(m, p, n)
    {
      LeSame(m, buf[..], p, n);
    }
  }

  lemma Limits()
    ensures Limit(1) == 0x100 && Limit(2) == 0x10000 && Limit(4) == 0x1_0000_0000 && Limit(8) == 0x1_0000_0000_0000_0000
  {
    assert Limit(3) == 0x1000000;
    assert Limit(6) == 0x1_0000_0000_0000;
  }
}
