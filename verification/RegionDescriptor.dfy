/** The memory transaction descriptor of val/src/val_ffa_helpers.c, byte by byte: what
    val_ffa_memory_region_init and val_ffa_memory_retrieve_request_init lay out, and what a reader
    of the FF-A tables gets back. */
module RegionDescriptor {

  import opened LittleEndian

  datatype Version = V1_0 | V1_1 | V1_2

  // ---------------------------------------------------------------- bit fields

  // The bit fields of the two attribute bytes, by shift and mask.
  datatype Field = DataAccess | InstructionAccess | MemoryType | Security | Cacheability | Shareability

  function Up(f: Field, v: bv8): bv8 {
    match f
    case DataAccess => v
    case InstructionAccess => v << 2
    case MemoryType => v << 4
    case Security => v << 6
    case Cacheability => v << 2
    case Shareability => v
  }

  function Down(f: Field, v: bv8): bv8 {
    match f
    case DataAccess => v
    case InstructionAccess => v >> 2
    case MemoryType => v >> 4
    case Security => v >> 6
    case Cacheability => v >> 2
    case Shareability => v
  }

  function Mask(f: Field): bv8 {
    Up(f, if f.Security? then 1 else 3)
  }

  // ATTR_FUNCTION_SET
  function SetField(a: bv8, f: Field, v: bv8): bv8 {
    (a & !Mask(f)) | (Up(f, v) & Mask(f))
  }

  // ATTR_FUNCTION_GET
  function GetField(a: bv8, f: Field): bv8 {
    Down(f, a & Mask(f))
  }

  lemma Masked(a: bv8, m: bv8, x: bv8, g: bv8)
    ensures ((a & !m) | (x & m)) & m == x & m
    ensures m & g == 0 ==> ((a & !m) | (x & m)) & g == a & g
  {
  }

  // A setter is read back by its getter, cut down to the field, and leaves other fields alone.
  lemma FieldRoundTrip(a: bv8, f: Field, v: bv8, g: Field)
    ensures GetField(SetField(a, f, v), f) == v & (if f.Security? then 1 else 3)
    ensures Mask(f) & Mask(g) == 0 ==> GetField(SetField(a, f, v), g) == GetField(a, g)
  {
    Masked(a, Mask(f), Up(f, v), Mask(g));
    UpDown(f, v);
  }

  lemma UpDown(f: Field, v: bv8)
    ensures Down(f, Up(f, v) & Mask(f)) == v & (if f.Security? then 1 else 3)
  {
  }

  function Permissions(i: Init): bv8 {
    SetField(SetField(0, DataAccess, i.dataAccess), InstructionAccess, i.instructionAccess)
  }

  function Attributes(i: Init): bv8 {
    SetField(SetField(SetField(0, MemoryType, i.memoryType), Cacheability, i.cacheability), Shareability, i.shareability)
  }

  // The two bytes as the FF-A tables draw them.
  function PermissionByte(i: Init): bv8 {
    ((i.instructionAccess & 3) << 2) | (i.dataAccess & 3)
  }

  function AttributeByte(i: Init): bv8 {
    ((i.memoryType & 3) << 4) | ((i.cacheability & 3) << 2) | (i.shareability & 3)
  }

  lemma FieldBits(i: Init)
    ensures Permissions(i) == PermissionByte(i)
    ensures Attributes(i) == AttributeByte(i)
  {
  }

  // The two bytes of the descriptor decode to the requested fields; NS stays 0.
  lemma AttributesDecode(i: Init)
    ensures GetField(Permissions(i), DataAccess) == i.dataAccess & 3
    ensures GetField(Permissions(i), InstructionAccess) == i.instructionAccess & 3
    ensures GetField(Attributes(i), MemoryType) == i.memoryType & 3
    ensures GetField(Attributes(i), Cacheability) == i.cacheability & 3
    ensures GetField(Attributes(i), Shareability) == i.shareability & 3
    ensures GetField(Attributes(i), Security) == 0
    ensures Permissions(i) == PermissionByte(i)
    ensures Attributes(i) == AttributeByte(i)
  {
    FieldBits(i);
    var p := SetField(0, DataAccess, i.dataAccess);
    FieldRoundTrip(0, DataAccess, i.dataAccess, DataAccess);
    FieldRoundTrip(p, InstructionAccess, i.instructionAccess, DataAccess);
    var t := SetField(0, MemoryType, i.memoryType);
    var c := SetField(t, Cacheability, i.cacheability);
    FieldRoundTrip(0, MemoryType, i.memoryType, Security);
    FieldRoundTrip(t, Cacheability, i.cacheability, MemoryType);
    FieldRoundTrip(t, Cacheability, i.cacheability, Security);
    FieldRoundTrip(c, Shareability, i.shareability, MemoryType);
    FieldRoundTrip(c, Shareability, i.shareability, Cacheability);
    FieldRoundTrip(c, Shareability, i.shareability, Security);
  }

  // ---------------------------------------------------------------- what is described

  datatype Receiver = Receiver(id: nat, flags: nat, impdef0: nat, impdef1: nat)

  // mem_region_init_t
  datatype Init = Init(sender: nat, receiver: nat, tag: nat, flags: nat, impdef0: nat, impdef1: nat,
                       dataAccess: bv8, instructionAccess: bv8, memoryType: bv8, cacheability: bv8, shareability: bv8,
                       multiShare: bool, receivers: seq<Receiver>)

  datatype Constituent = Constituent(address: nat, pages: nat, reserved: nat)

  // The value ranges of the C members.
  predicate Typed(i: Init) {
    && i.sender < 0x10000 && i.receiver < 0x10000 && i.tag < 0x1_0000_0000_0000_0000 && i.flags < 0x1_0000_0000
    && i.impdef0 < 0x1_0000_0000_0000_0000 && i.impdef1 < 0x1_0000_0000_0000_0000
    && (forall k | 0 <= k < |i.receivers| :: TypedReceiver(i.receivers[k]))
    && |i.receivers| < 0x1000000
  }

  predicate TypedReceiver(r: Receiver) {
    r.id < 0x10000 && r.flags < 0x100 && r.impdef0 < 0x1_0000_0000_0000_0000 && r.impdef1 < 0x1_0000_0000_0000_0000
  }

  predicate TypedConstituent(x: Constituent) {
    x.address < 0x1_0000_0000_0000_0000 && x.pages < 0x1_0000_0000 && x.reserved < 0x1_0000_0000
  }

  // The receivers a request names, one or several.
  function Receivers(i: Init): seq<Receiver> {
    if i.multiShare then i.receivers else [Receiver(i.receiver, 0, i.impdef0, i.impdef1)]
  }

  // ---------------------------------------------------------------- layout

  function HeaderSize(v: Version): nat {
    if v == V1_0 then 32 else 48
  }

  function AccessSize(v: Version): nat {
    if v == V1_2 then 32 else 16
  }

  // Offset of receivers[k]; that of receivers[n] is the offset of the composite descriptor.
  function AccessAt(v: Version, k: nat): nat {
    HeaderSize(v) + if v == V1_2 then 32 * k else 16 * k
  }

  const COMPOSITE := 16
  const CONSTITUENT := 16

  ghost predicate HeaderIs(m: Buffer, v: Version, i: Init, handle: nat) {
    && HeaderSize(v) <= |m|
    && Le(m, 0, 2) == i.sender && Le(m, 2, 1) == Attributes(i) as nat && Le(m, 4, 4) == i.flags
    && Le(m, 8, 8) == handle && Le(m, 16, 8) == i.tag
    && (v == V1_0 ==> Le(m, 3, 1) == 0 && Le(m, 24, 4) == 0)
    && (v != V1_0 ==> Le(m, 24, 4) == AccessSize(v) && Le(m, 32, 4) == HeaderSize(v)
                      && Le(m, 36, 4) == 0 && Le(m, 40, 4) == 0 && Le(m, 44, 4) == 0)
  }

  ghost predicate AccessIs(m: Buffer, v: Version, k: nat, r: Receiver, permissions: nat) {
    && AccessAt(v, k + 1) <= |m|
    && Le(m, AccessAt(v, k), 2) == r.id && Le(m, AccessAt(v, k) + 2, 1) == permissions && Le(m, AccessAt(v, k) + 3, 1) == r.flags
    && (if v == V1_2 then
          Le(m, AccessAt(v, k) + 8, 8) == r.impdef0 && Le(m, AccessAt(v, k) + 16, 8) == r.impdef1
          && Le(m, AccessAt(v, k) + 24, 8) == 0
        else Le(m, AccessAt(v, k) + 8, 8) == 0)
  }

  ghost predicate CompositeIs(m: Buffer, c: nat, pages: nat, count: nat) {
    c + COMPOSITE <= |m| && Le(m, c, 4) == pages && Le(m, c + 4, 4) == count && Le(m, c + 8, 8) == 0
  }

  ghost predicate ConstituentIs(m: Buffer, o: nat, x: Constituent) {
    o + CONSTITUENT <= |m| && Le(m, o, 8) == x.address && Le(m, o + 8, 4) == x.pages && Le(m, o + 12, 4) == x.reserved
  }

  // ---------------------------------------------------------------- building the parts

  // The common part of ffa_memory_region_init_header and ffa_memory_region_retrieve_init_header.
  method WriteHeader(buf: array<nat>, v: Version, i: Init, handle: nat)
    requires Typed(i) && HeaderSize(v) <= buf.Length && handle < 0x1_0000_0000_0000_0000
    modifies buf
    ensures HeaderIs(buf[..], v, i, handle)
    ensures Same(old(buf[..]), buf[..], 28, 32) && Same(old(buf[..]), buf[..], HeaderSize(v), buf.Length)
  {
    hide Limit, Le, Attributes;
    Limits();
    Write(buf, 0, 2, i.sender);
    Write(buf, 2, 1, Attributes(i) as nat);
    if v == V1_0 {
      Write(buf, 3, 1, 0);
      Write(buf, 24, 4, 0);
    } else {
      Write(buf, 36, 4, 0);
      Write(buf, 40, 4, 0);
      Write(buf, 44, 4, 0);
      Write(buf, 32, 4, HeaderSize(v));
      Write(buf, 24, 4, AccessSize(v));
    }
    Write(buf, 4, 4, i.flags);
    Write(buf, 8, 8, handle);
    Write(buf, 16, 8, i.tag);
  }

  // One endpoint memory access descriptor, without its offset.
  method WriteAccess(buf: array<nat>, v: Version, k: nat, r: Receiver, permissions: nat)
    requires TypedReceiver(r) && permissions < 0x100 && AccessAt(v, k + 1) <= buf.Length
    modifies buf
    ensures AccessIs(buf[..], v, k, r, permissions)
    ensures Same(old(buf[..]), buf[..], 0, AccessAt(v, k)) && Same(old(buf[..]), buf[..], AccessAt(v, k + 1), buf.Length)
  {
    hide Limit, Le;
    Limits();
    var a := AccessAt(v, k);
    Write(buf, a, 2, r.id);
    Write(buf, a + 2, 1, permissions);
    Write(buf, a + 3, 1, r.flags);
    if v == V1_2 {
      Write(buf, a + 24, 8, 0);
      Write(buf, a + 8, 8, r.impdef0);
      Write(buf, a + 16, 8, r.impdef1);
    } else {
      Write(buf, a + 8, 8, 0);
    }
  }

  method WriteConstituent(buf: array<nat>, o: nat, x: Constituent)
    requires TypedConstituent(x) && o + CONSTITUENT <= buf.Length
    modifies buf
    ensures ConstituentIs(buf[..], o, x)
    ensures Same(old(buf[..]), buf[..], 0, o) && Same(old(buf[..]), buf[..], o + CONSTITUENT, buf.Length)
  {
    hide Limit, Le;
    Limits();
    Write(buf, o, 8, x.address);
    Write(buf, o + 8, 4, x.pages);
    Write(buf, o + 12, 4, x.reserved);
  }

  lemma HeaderSame(m: Buffer, m': Buffer, v: Version, i: Init, handle: nat)
    requires HeaderIs(m, v, i, handle) && Same(m, m', 0, 28) && Same(m, m', 32, HeaderSize(v))
    ensures HeaderIs(m', v, i, handle)
  {
    hide Le, Attributes;
    LeSame(m, m', 0, 2);
    LeSame(m, m', 2, 1);
    LeSame(m, m', 4, 4);
    LeSame(m, m', 8, 8);
    LeSame(m, m', 16, 8);
    LeSame(m, m', 24, 4);
    if v == V1_0 {
      LeSame(m, m', 3, 1);
    } else {
      LeSame(m, m', 32, 4);
      LeSame(m, m', 36, 4);
      LeSame(m, m', 40, 4);
      LeSame(m, m', 44, 4);
    }
  }

  lemma AccessSame(m: Buffer, m': Buffer, v: Version, k: nat, r: Receiver, permissions: nat)
    requires AccessIs(m, v, k, r, permissions)
    requires Same(m, m', AccessAt(v, k), AccessAt(v, k) + 4) && Same(m, m', AccessAt(v, k) + 8, AccessAt(v, k + 1))
    ensures AccessIs(m', v, k, r, permissions)
  {
    hide Le;
    var a := AccessAt(v, k);
    LeSame(m, m', a, 2);
    LeSame(m, m', a + 2, 1);
    LeSame(m, m', a + 3, 1);
    LeSame(m, m', a + 8, 8);
    if v == V1_2 {
      LeSame(m, m', a + 16, 8);
      LeSame(m, m', a + 24, 8);
    }
  }

  lemma ConstituentSame(m: Buffer, m': Buffer, o: nat, x: Constituent)
    requires ConstituentIs(m, o, x) && Same(m, m', o, o + CONSTITUENT)
    ensures ConstituentIs(m', o, x)
  {
    hide Le;
    LeSame(m, m', o, 8);
    LeSame(m, m', o + 8, 4);
    LeSame(m, m', o + 12, 4);
  }

  ghost predicate AccessesAre(m: Buffer, v: Version, rs: seq<Receiver>, permissions: nat) {
    forall k | 0 <= k < |rs| :: AccessIs(m, v, k, rs[k], permissions)
  }

  ghost predicate OffsetIs(m: Buffer, v: Version, k: nat, offset: nat) {
    AccessAt(v, k + 1) <= |m| && Le(m, AccessAt(v, k) + 4, 4) == offset
  }

  ghost predicate OffsetsAre(m: Buffer, v: Version, n: nat, offset: nat) {
    forall k | 0 <= k < n :: OffsetIs(m, v, k, offset)
  }

  lemma OffsetSame(m: Buffer, m': Buffer, v: Version, k: nat, offset: nat)
    requires OffsetIs(m, v, k, offset) && Same(m, m', AccessAt(v, k) + 4, AccessAt(v, k) + 8)
    ensures OffsetIs(m', v, k, offset)
  {
    LeSame(m, m', AccessAt(v, k) + 4, 4);
  }

  method WriteOffset(buf: array<nat>, v: Version, k: nat, offset: nat)
    requires offset < 0x1_0000_0000 && AccessAt(v, k + 1) <= buf.Length
    modifies buf
    ensures OffsetIs(buf[..], v, k, offset)
    ensures Same(old(buf[..]), buf[..], 0, AccessAt(v, k) + 4) && Same(old(buf[..]), buf[..], AccessAt(v, k) + 8, buf.Length)
  {
    hide Le, Limit;
    Limits();
    Write(buf, AccessAt(v, k) + 4, 4, offset);
  }

  // The first loop over the receivers.
  method WriteAccesses(buf: array<nat>, v: Version, rs: seq<Receiver>, permissions: nat)
    requires permissions < 0x100 && AccessAt(v, |rs|) <= buf.Length && forall k | 0 <= k < |rs| :: TypedReceiver(rs[k])
    modifies buf
    ensures AccessesAre(buf[..], v, rs, permissions)
    ensures Same(old(buf[..]), buf[..], 0, HeaderSize(v)) && Same(old(buf[..]), buf[..], AccessAt(v, |rs|), buf.Length)
  {
    hide Le, AccessIs;
    for k := 0 to |rs|
      invariant AccessesAre(buf[..], v, rs[..k], permissions)
      invariant Same(old(buf[..]), buf[..], 0, HeaderSize(v)) && Same(old(buf[..]), buf[..], AccessAt(v, |rs|), buf.Length)
    {
      ghost var m := buf[..];
      WriteAccess(buf, v, k, rs[k], permissions);
      forall j | 0 <= j <= k ensures AccessIs(buf[..], v, j, rs[j], permissions) {
        if j < k {
          assert rs[..k][j] == rs[j];
          AccessSame(m, buf[..], v, j, rs[j], permissions);
        }
      }
    }
    assert rs[..|rs|] == rs;
  }

  // The second: every receiver's descriptor points to the one composite descriptor.
  method WriteOffsets(buf: array<nat>, v: Version, rs: seq<Receiver>, permissions: nat, offset: nat)
    requires offset < 0x1_0000_0000 && AccessAt(v, |rs|) <= buf.Length && AccessesAre(buf[..], v, rs, permissions)
    modifies buf
    ensures AccessesAre(buf[..], v, rs, permissions) && OffsetsAre(buf[..], v, |rs|, offset)
    ensures Same(old(buf[..]), buf[..], 0, HeaderSize(v)) && Same(old(buf[..]), buf[..], AccessAt(v, |rs|), buf.Length)
  {
    hide Le, AccessIs, OffsetIs;
    for k := 0 to |rs|
      invariant AccessesAre(buf[..], v, rs, permissions) && OffsetsAre(buf[..], v, k, offset)
      invariant Same(old(buf[..]), buf[..], 0, HeaderSize(v)) && Same(old(buf[..]), buf[..], AccessAt(v, |rs|), buf.Length)
    {
      ghost var m := buf[..];
      WriteOffset(buf, v, k, offset);
      forall j | 0 <= j < |rs| ensures AccessIs(buf[..], v, j, rs[j], permissions) {
        AccessSame(m, buf[..], v, j, rs[j], permissions);
      }
      forall j | 0 <= j <= k ensures OffsetIs(buf[..], v, j, offset) {
        if j < k { OffsetSame(m, buf[..], v, j, offset); }
      }
    }
  }

  // Header, receiver count and access descriptors, all with the same composite offset.
  ghost predicate Prologue(m: Buffer, v: Version, i: Init, handle: nat, offset: nat) {
    && HeaderIs(m, v, i, handle) && Le(m, 28, 4) == |Receivers(i)|
    && AccessesAre(m, v, Receivers(i), Permissions(i) as nat) && OffsetsAre(m, v, |Receivers(i)|, offset)
  }

  method WritePrologue(buf: array<nat>, v: Version, i: Init, handle: nat, offset: nat)
    requires Typed(i) && AccessAt(v, |Receivers(i)|) <= buf.Length
    requires handle < 0x1_0000_0000_0000_0000 && offset < 0x1_0000_0000
    modifies buf
    ensures Prologue(buf[..], v, i, handle, offset)
    ensures Same(old(buf[..]), buf[..], AccessAt(v, |Receivers(i)|), buf.Length)
  {
    hide Le, AccessIs, HeaderIs, Limit, AccessesAre, OffsetsAre, Permissions;
    Limits();
    var rs, p := Receivers(i), Permissions(i) as nat;
    WriteHeader(buf, v, i, handle);
    ghost var m1 := buf[..];
    Write(buf, 28, 4, |rs|);
    ghost var m2 := buf[..];
    HeaderSame(m1, m2, v, i, handle);
    WriteAccesses(buf, v, rs, p);
    ghost var m3 := buf[..];
    WriteOffsets(buf, v, rs, p, offset);
    LeSame(m2, m3, 28, 4);
    LeSame(m3, buf[..], 28, 4);
    HeaderSame(m2, m3, v, i, handle);
    HeaderSame(m3, buf[..], v, i, handle);
  }

  // ---------------------------------------------------------------- val_ffa_memory_region_init

  // All pages of a list of constituents.
  function Pages(cs: seq<Constituent>): (r: nat) {
    if cs == [] then 0 else Pages(cs[..|cs| - 1]) + cs[|cs| - 1].pages
  }

  const WRAP32 := 0x1_0000_0000
  const WRAP64 := 0x1_0000_0000_0000_0000

  // Lines 193-195, in size_t arithmetic cut down to 32 bits.
  function FragmentMax(maxSize: nat, offset: nat): (r: nat) {
    ((maxSize - offset) % WRAP64) / CONSTITUENT % WRAP32
  }

  function Copied(count: nat, maxSize: nat, offset: nat): (r: nat)
    ensures r <= count
  {
    if count > FragmentMax(maxSize, offset) then FragmentMax(maxSize, offset) else count
  }

  // The first fragment fits the buffer exactly when the buffer reaches the constituents; below that
  // the subtraction of line 194 wraps around.
  lemma FragmentFitsIff(count: nat, maxSize: nat, offset: nat)
    requires maxSize < WRAP64
    ensures offset + Copied(count, maxSize, offset) * CONSTITUENT <= maxSize <==> offset <= maxSize
  {
    if offset <= maxSize {
      assert (maxSize - offset) % WRAP64 == maxSize - offset;
      assert FragmentMax(maxSize, offset) <= (maxSize - offset) / CONSTITUENT;
    }
  }

  // As many constituents are copied as fit, exactly if the room is below 2^36 bytes or the count does not
  // exceed what 32 bits keep of it.
  lemma MostCopiedIff(count: nat, maxSize: nat, offset: nat)
    requires offset <= maxSize < WRAP64 && count < WRAP32
    ensures (offset + 16 * count <= maxSize <==> Copied(count, maxSize, offset) == count)
            && (Copied(count, maxSize, offset) < count ==> offset + 16 * (Copied(count, maxSize, offset) + 1) > maxSize)
       <==> maxSize - offset < 0x10_0000_0000 || count <= (maxSize - offset) / 16 % 0x1_0000_0000
  {
    assert (maxSize - offset) % WRAP64 == maxSize - offset;
    var room := (maxSize - offset) / 16;
    assert 16 * room <= maxSize - offset < 16 * room + 16;
    if maxSize - offset < 0x10_0000_0000 {
      assert room % WRAP32 == room;
    } else {
      assert room >= WRAP32 && 16 * count <= 16 * room;
    }
  }

  // Pages is the sum of the page counts.
  lemma {:induction false} PagesSum(cs: seq<Constituent>, k: nat)
    requires k < |cs|
    ensures Pages(cs) == Pages(cs[..k] + cs[k + 1..]) + cs[k].pages
    ensures |cs| == 1 ==> Pages(cs) == cs[0].pages
  {
    var n := |cs| - 1;
    if k < n {
      PagesSum(cs[..n], k);
      var rest := cs[..k] + cs[k + 1..];
      assert rest[..|rest| - 1] == cs[..n][..k] + cs[..n][k + 1..];
    } else {
      assert cs[..k] + cs[k + 1..] == cs[..n];
    }
    assert |cs| == 1 ==> cs[..0] == [];
  }

  // Everything a fragment of copied constituents says.
  ghost predicate Built(m: Buffer, v: Version, i: Init, cs: seq<Constituent>, copied: nat)
    requires copied <= |cs|
  {
    var c := AccessAt(v, |Receivers(i)|);
    && Prologue(m, v, i, 0, c)
    && CompositeIs(m, c, Pages(cs) % WRAP32, |cs|)
    && ConstituentsAre(m, c + COMPOSITE, cs[..copied])
  }

  ghost predicate ConstituentsAre(m: Buffer, o: nat, cs: seq<Constituent>) {
    forall k | 0 <= k < |cs| :: ConstituentIs(m, o + CONSTITUENT * k, cs[k])
  }

  lemma CompositeSame(m: Buffer, m': Buffer, c: nat, pages: nat, count: nat)
    requires CompositeIs(m, c, pages, count) && Same(m, m', c, c + COMPOSITE)
    ensures CompositeIs(m', c, pages, count)
  {
    hide Le;
    LeSame(m, m', c, 4);
    LeSame(m, m', c + 4, 4);
    LeSame(m, m', c + 8, 8);
  }

  lemma ConstituentsSame(m: Buffer, m': Buffer, o: nat, cs: seq<Constituent>)
    requires ConstituentsAre(m, o, cs) && Same(m, m', o, o + CONSTITUENT * |cs|)
    ensures ConstituentsAre(m', o, cs)
  {
    hide ConstituentIs;
    forall k | 0 <= k < |cs| ensures ConstituentIs(m', o + CONSTITUENT * k, cs[k]) {
      ConstituentSame(m, m', o + CONSTITUENT * k, cs[k]);
    }
  }

  method EmptyComposite(buf: array<nat>, c: nat, count: nat)
    requires count < WRAP32 && c + COMPOSITE <= buf.Length
    modifies buf
    ensures CompositeIs(buf[..], c, 0, count) && Same(old(buf[..]), buf[..], 0, c)
  {
    hide Le, Limit;
    Limits();
    Write(buf, c, 4, 0);
    Write(buf, c + 4, 4, count);
    Write(buf, c + 8, 8, 0);
  }

  // Lines 207-208.
  method AppendConstituent(buf: array<nat>, c: nat, cs: seq<Constituent>, i: nat, ghost pages: nat)
    requires i < |cs| && c + COMPOSITE + CONSTITUENT * (i + 1) <= buf.Length && TypedConstituent(cs[i])
    requires CompositeIs(buf[..], c, pages, |cs|) && ConstituentsAre(buf[..], c + COMPOSITE, cs[..i])
    modifies buf
    ensures CompositeIs(buf[..], c, pages, |cs|) && ConstituentsAre(buf[..], c + COMPOSITE, cs[..i + 1])
    ensures Same(old(buf[..]), buf[..], 0, c)
  {
    hide Le, ConstituentIs, CompositeIs;
    ghost var m := buf[..];
    WriteConstituent(buf, c + COMPOSITE + CONSTITUENT * i, cs[i]);
    CompositeSame(m, buf[..], c, pages, |cs|);
    ConstituentsSame(m, buf[..], c + COMPOSITE, cs[..i]);
    forall k | 0 <= k <= i ensures ConstituentIs(buf[..], c + COMPOSITE + CONSTITUENT * k, cs[k]) {
      if k < i { assert cs[..i][k] == cs[k]; }
    }
  }

  lemma ModSum(a: nat, b: nat)
    ensures (a % WRAP32 + b) % WRAP32 == (a + b) % WRAP32
  {
  }

  // Lines 210-211: the page count is a running sum in the descriptor itself.
  method AddPages(buf: array<nat>, c: nat, count: nat, more: nat, ghost pages: nat, ghost cs: seq<Constituent>)
    requires CompositeIs(buf[..], c, pages % WRAP32, count) && ConstituentsAre(buf[..], c + COMPOSITE, cs)
    modifies buf
    ensures CompositeIs(buf[..], c, (pages + more) % WRAP32, count) && ConstituentsAre(buf[..], c + COMPOSITE, cs)
    ensures Same(old(buf[..]), buf[..], 0, c)
  {
    hide Le, Limit, ConstituentIs;
    Limits();
    ghost var m := buf[..];
    ModSum(pages, more);
    Write(buf, c, 4, (Le(buf[..], c, 4) + more) % WRAP32);
    ConstituentsSame(m, buf[..], c + COMPOSITE, cs);
  }

  // The composite descriptor and the copied constituents (lines 184-212).
  method WriteComposite(buf: array<nat>, c: nat, cs: seq<Constituent>, copied: nat)
    requires copied <= |cs| < WRAP32 && c + COMPOSITE + CONSTITUENT * copied <= buf.Length
    requires forall k | 0 <= k < |cs| :: TypedConstituent(cs[k])
    modifies buf
    ensures CompositeIs(buf[..], c, Pages(cs) % WRAP32, |cs|) && ConstituentsAre(buf[..], c + COMPOSITE, cs[..copied])
    ensures Same(old(buf[..]), buf[..], 0, c)
  {
    hide Le, Limit, ConstituentIs, CompositeIs;
    EmptyComposite(buf, c, |cs|);
    for i := 0 to |cs|
      invariant CompositeIs(buf[..], c, Pages(cs[..i]) % WRAP32, |cs|)
      invariant ConstituentsAre(buf[..], c + COMPOSITE, cs[..if i < copied then i else copied])
      invariant Same(old(buf[..]), buf[..], 0, c)
    {
      if i < copied { AppendConstituent(buf, c, cs, i, Pages(cs[..i]) % WRAP32); }
      AddPages(buf, c, |cs|, cs[i].pages, Pages(cs[..i]), cs[..if i < copied then i + 1 else copied]);
      assert cs[..i + 1][..i] == cs[..i];
    }
    assert cs[..|cs|] == cs;
  }

  method MemoryRegionInit(buf: array<nat>, v: Version, i: Init, maxSize: nat, cs: seq<Constituent>)
    returns (remaining: nat, totalLength: nat, fragmentLength: nat)
    requires Typed(i) && |Receivers(i)| >= 1 && |cs| < WRAP32 && forall k | 0 <= k < |cs| :: TypedConstituent(cs[k])
    requires AccessAt(v, |Receivers(i)|) + COMPOSITE <= maxSize <= buf.Length && maxSize < WRAP64
    modifies buf
    ensures remaining <= |cs| && Built(buf[..], v, i, cs, |cs| - remaining)
    ensures var n := if i.multiShare then |i.receivers| else 1;
            var offset := (if v == V1_0 then 32 else 48) + (if v == V1_2 then 32 * n else 16 * n) + 16;
            && offset + 16 * (|cs| - remaining) <= maxSize
            && totalLength == (offset + 16 * |cs|) % 0x1_0000_0000
            && fragmentLength == (offset + 16 * (|cs| - remaining)) % 0x1_0000_0000
            && (maxSize - offset < 0x10_0000_0000 ==>
                  && (remaining == 0 <==> offset + 16 * |cs| <= maxSize)
                  && (remaining > 0 ==> offset + 16 * (|cs| - remaining + 1) > maxSize))
  {
    hide Le, Prologue, CompositeIs, ConstituentsAre, Copied;
    MostCopiedIff(|cs|, maxSize, AccessAt(v, |Receivers(i)|) + COMPOSITE);
    var c := AccessAt(v, |Receivers(i)|);
    WritePrologue(buf, v, i, 0, c);
    var offset := c + COMPOSITE;
    var countToCopy := Copied(|cs|, maxSize, offset);
    FragmentFitsIff(|cs|, maxSize, offset);
    ghost var m := buf[..];
    WriteComposite(buf, c, cs, countToCopy);
    PrologueSame(m, buf[..], v, i, 0, c);
    totalLength := (offset + |cs| * CONSTITUENT) % WRAP32;
    fragmentLength := (offset + countToCopy * CONSTITUENT) % WRAP32;
    remaining := |cs| - countToCopy;
  }

  lemma PrologueSame(m: Buffer, m': Buffer, v: Version, i: Init, handle: nat, offset: nat)
    requires Prologue(m, v, i, handle, offset) && Same(m, m', 0, AccessAt(v, |Receivers(i)|))
    ensures Prologue(m', v, i, handle, offset)
  {
    hide Le, AccessIs, HeaderIs, OffsetIs, Permissions;
    HeaderSame(m, m', v, i, handle);
    assert Le(m', 28, 4) == Le(m, 28, 4) by { HeaderLong(m, v, i, handle); LeSame(m, m', 28, 4); }
    forall k | 0 <= k < |Receivers(i)| ensures AccessIs(m', v, k, Receivers(i)[k], Permissions(i) as nat) {
      AccessSame(m, m', v, k, Receivers(i)[k], Permissions(i) as nat);
    }
    forall k | 0 <= k < |Receivers(i)| ensures OffsetIs(m', v, k, offset) {
      OffsetSame(m, m', v, k, offset);
    }
  }

  lemma HeaderLong(m: Buffer, v: Version, i: Init, handle: nat)
    requires HeaderIs(m, v, i, handle)
    ensures HeaderSize(v) <= |m|
  {
  }

  // The two lengths, where they are not cut down to 32 bits: exactly then does the difference give
  // the bytes still to be sent.
  lemma LengthsExactIff(count: nat, copied: nat, offset: nat)
    requires copied <= count && offset + copied * CONSTITUENT < WRAP32
    ensures (offset + count * CONSTITUENT) % WRAP32 - (offset + copied * CONSTITUENT) % WRAP32 == (count - copied) * CONSTITUENT
       <==> offset + count * CONSTITUENT < WRAP32
  {
  }

  // The bytes of an access descriptor that only the lines left out of a v1.0 build would write.
  ghost predicate HeadIs(m: Buffer, v: Version, k: nat, r: Receiver, permissions: nat) {
    && AccessAt(v, k + 1) <= |m|
    && Le(m, AccessAt(v, k), 2) == r.id && Le(m, AccessAt(v, k) + 2, 1) == permissions && Le(m, AccessAt(v, k) + 3, 1) == r.flags
  }

  // The buffer happens to hold the receivers' count and identities already.
  ghost predicate AlreadyThere(m: Buffer, i: Init) {
    && 32 <= |m| && Le(m, 28, 4) == |i.receivers|
    && forall k | 0 <= k < |i.receivers| :: HeadIs(m, V1_0, k, i.receivers[k], Permissions(i) as nat)
  }

  // val_ffa_memory_retrieve_request_init: the same prologue, with the handle and no composite descriptor.
  // A v1.0 build leaves out the lines that would write several receivers and their count: these stay as
  // the buffer had them, and the request is right exactly if they were there before.
  method RetrieveRequestInit(buf: array<nat>, v: Version, i: Init, handle: nat) returns (size: nat)
    requires Typed(i) && AccessAt(v, |Receivers(i)|) <= buf.Length && HeaderSize(v) <= buf.Length && handle < WRAP64
    modifies buf
    ensures HeaderIs(buf[..], v, i, handle) && OffsetsAre(buf[..], v, |Receivers(i)|, 0) && size == AccessAt(v, Le(buf[..], 28, 4))
    ensures !(v == V1_0 && i.multiShare) ==> Prologue(buf[..], v, i, handle, 0)
    ensures v == V1_0 && i.multiShare ==>
              && Same(old(buf[..]), buf[..], 28, 32)
              && forall k | 0 <= k < |i.receivers| :: Same(old(buf[..]), buf[..], AccessAt(v, k), AccessAt(v, k) + 4)
    ensures v == V1_0 && i.multiShare ==> (Prologue(buf[..], v, i, handle, 0) <==> AlreadyThere(old(buf[..]), i))
    ensures Same(old(buf[..]), buf[..], AccessAt(v, |Receivers(i)|), buf.Length)
  {
    hide Le, HeaderIs, AccessesAre, OffsetIs, Permissions;
    if v == V1_0 && i.multiShare {
      ghost var m0 := buf[..];
      WriteHeader(buf, v, i, handle);
      ghost var m := buf[..];
      ClearOffsets(buf, v, |i.receivers|);
      HeaderSame(m, buf[..], v, i, handle);
      LeSame(m0, buf[..], 28, 4);
      ThereIff(m0, buf[..], i, handle);
    } else {
      WritePrologue(buf, v, i, handle, 0);
    }
    size := AccessAt(v, Le(buf[..], 28, 4));
  }

  lemma HeadSame(m: Buffer, m': Buffer, v: Version, k: nat, r: Receiver, permissions: nat)
    requires AccessAt(v, k + 1) <= |m| && Same(m, m', AccessAt(v, k), AccessAt(v, k) + 4)
    ensures HeadIs(m, v, k, r, permissions) <==> HeadIs(m', v, k, r, permissions)
  {
    hide Le;
    LeSame(m, m', AccessAt(v, k), 2);
    LeSame(m, m', AccessAt(v, k) + 2, 1);
    LeSame(m, m', AccessAt(v, k) + 3, 1);
  }

  lemma HeadAndRest(m: Buffer, k: nat, r: Receiver, permissions: nat)
    requires AccessAt(V1_0, k + 1) <= |m| && Le(m, AccessAt(V1_0, k) + 8, 8) == 0
    ensures AccessIs(m, V1_0, k, r, permissions) <==> HeadIs(m, V1_0, k, r, permissions)
  {
    hide Le;
  }

  lemma ThereIff(m: Buffer, m': Buffer, i: Init, handle: nat)
    requires i.multiShare && |m| == |m'| && 32 <= |m| && AccessAt(V1_0, |i.receivers|) <= |m|
    requires HeaderIs(m', V1_0, i, handle) && OffsetsAre(m', V1_0, |i.receivers|, 0) && Same(m, m', 28, 32)
    requires forall k | 0 <= k < |i.receivers| ::
               Same(m, m', AccessAt(V1_0, k), AccessAt(V1_0, k) + 4) && Le(m', AccessAt(V1_0, k) + 8, 8) == 0
    ensures Prologue(m', V1_0, i, handle, 0) <==> AlreadyThere(m, i)
  {
    hide Le, HeaderIs, OffsetsAre, Permissions, AccessIs, HeadIs;
    LeSame(m, m', 28, 4);
    forall k | 0 <= k < |i.receivers|
      ensures AccessIs(m', V1_0, k, i.receivers[k], Permissions(i) as nat)
         <==> HeadIs(m, V1_0, k, i.receivers[k], Permissions(i) as nat)
    {
      HeadSame(m, m', V1_0, k, i.receivers[k], Permissions(i) as nat);
      HeadAndRest(m', k, i.receivers[k], Permissions(i) as nat);
    }
  }

  // A zeroed buffer does not hold them, so there such a request is wrong for any number of receivers.
  lemma ZeroedLacks(m: Buffer, i: Init)
    requires 32 <= |m| && (forall j | 0 <= j < |m| :: m[j] == 0) && |i.receivers| > 0
    ensures !AlreadyThere(m, i)
  {
    assert Le(m, 28, 4) == 0 by {
      assert Le(m, 30, 2) == 0;
      assert Le(m, 28, 4) == m[28] + 0x100 * (m[29] + 0x100 * Le(m, 30, 2));
    }
  }

  // Lines 286-293.
  method ClearOffsets(buf: array<nat>, v: Version, n: nat)
    requires v == V1_0 && AccessAt(v, n) <= buf.Length
    modifies buf
    ensures OffsetsAre(buf[..], v, n, 0)
    ensures forall k | 0 <= k < n ::
              Same(old(buf[..]), buf[..], AccessAt(v, k), AccessAt(v, k) + 4) && Le(buf[..], AccessAt(v, k) + 8, 8) == 0
    ensures Same(old(buf[..]), buf[..], 0, HeaderSize(v)) && Same(old(buf[..]), buf[..], AccessAt(v, n), buf.Length)
  {
    hide Le, OffsetIs;
    for k := 0 to n
      invariant OffsetsAre(buf[..], v, k, 0)
      invariant forall j | 0 <= j < n :: Same(old(buf[..]), buf[..], AccessAt(v, j), AccessAt(v, j) + 4)
      invariant forall j | 0 <= j < k :: Le(buf[..], AccessAt(v, j) + 8, 8) == 0
      invariant Same(old(buf[..]), buf[..], 0, HeaderSize(v)) && Same(old(buf[..]), buf[..], AccessAt(v, n), buf.Length)
    {
      ghost var m := buf[..];
      WriteOffset(buf, v, k, 0);
      ghost var m1 := buf[..];
      ClearReserved(buf, AccessAt(v, k) + 8);
      OffsetSame(m1, buf[..], v, k, 0);
      forall j | 0 <= j < k ensures OffsetIs(buf[..], v, j, 0) && Le(buf[..], AccessAt(v, j) + 8, 8) == 0 {
        OffsetSame(m, buf[..], v, j, 0);
        LeSame(m, buf[..], AccessAt(v, j) + 8, 8);
      }
    }
  }

  method ClearReserved(buf: array<nat>, o: nat)
    requires o + 8 <= buf.Length
    modifies buf
    ensures Le(buf[..], o, 8) == 0 && Same(old(buf[..]), buf[..], 0, o) && Same(old(buf[..]), buf[..], o + 8, buf.Length)
  {
    Limits();
    Write(buf, o, 8, 0);
  }

  // ---------------------------------------------------------------- reading it back

  // A reader of the FF-A tables knows the version and the buffer only: from v1.1 on it finds the
  // access descriptors through the offset and size that the header carries.
  function ReadAccess(m: Buffer, v: Version, k: nat): nat
    requires HeaderSize(v) <= |m|
  {
    if v == V1_0 then 32 + 16 * k else Le(m, 32, 4) + k * Le(m, 24, 4)
  }

  // ffa_memory_region_get_composite
  function ReadComposite(m: Buffer, v: Version, k: nat): nat
    requires HeaderSize(v) <= |m| && ReadAccess(m, v, k) + 8 <= |m|
  {
    Le(m, ReadAccess(m, v, k) + 4, 4)
  }

  function ReadConstituents(m: Buffer, o: nat, n: nat): seq<Constituent>
    requires o + CONSTITUENT * n <= |m|
  {
    if n == 0 then []
    else
      var p := o + CONSTITUENT * (n - 1);
      ReadConstituents(m, o, n - 1) + [Constituent(Le(m, p, 8), Le(m, p + 8, 4), Le(m, p + 12, 4))]
  }

  lemma {:induction false} ConstituentsRead(m: Buffer, o: nat, cs: seq<Constituent>, n: nat)
    requires ConstituentsAre(m, o, cs) && n <= |cs| && o + CONSTITUENT * n <= |m|
    ensures ReadConstituents(m, o, n) == cs[..n]
  {
    hide Le;
    if n > 0 {
      ConstituentsRead(m, o, cs, n - 1);
      assert ConstituentIs(m, o + CONSTITUENT * (n - 1), cs[n - 1]);
      assert cs[..n] == cs[..n - 1] + [cs[n - 1]];
    }
  }

  // The receiver that access descriptor k is for.
  function Named(i: Init, k: nat): Receiver
    requires k < if i.multiShare then |i.receivers| else 1
  {
    if i.multiShare then i.receivers[k] else Receiver(i.receiver, 0, i.impdef0, i.impdef1)
  }

  // What is read in the header: sender, attributes, flags, handle, tag and receiver count.
  ghost predicate HeaderReads(m: Buffer, i: Init, handle: nat) {
    && 32 <= |m| && Le(m, 0, 2) == i.sender && Le(m, 4, 4) == i.flags && Le(m, 8, 8) == handle && Le(m, 16, 8) == i.tag
    && Le(m, 2, 1) == AttributeByte(i) as nat
    && Le(m, 28, 4) == if i.multiShare then |i.receivers| else 1
  }

  // What receiver r reads in the access descriptor at a: itself, its permissions and flags, where the
  // composite descriptor is, and from v1.2 on its implementation-defined words.
  ghost predicate AccessReads(m: Buffer, v: Version, a: nat, i: Init, r: Receiver, offset: nat) {
    && a + (if v == V1_2 then 32 else 16) <= |m|
    && Le(m, a, 2) == r.id && Le(m, a + 2, 1) == PermissionByte(i) as nat
    && Le(m, a + 3, 1) == r.flags && Le(m, a + 4, 4) == offset
    && (v == V1_2 ==> Le(m, a + 8, 8) == r.impdef0 && Le(m, a + 16, 8) == r.impdef1)
    && Le(m, if v == V1_2 then a + 24 else a + 8, 8) == 0
  }

  // Whichever receiver reads a prologue, of a send or of a retrieve request, finds the header and itself.
  lemma PrologueRead(m: Buffer, v: Version, i: Init, handle: nat, offset: nat, k: nat)
    requires Prologue(m, v, i, handle, offset) && k < if i.multiShare then |i.receivers| else 1
    ensures HeaderSize(v) <= |m| && HeaderReads(m, i, handle)
    ensures ReadAccess(m, v, k) == AccessAt(v, k) && AccessReads(m, v, ReadAccess(m, v, k), i, Named(i, k), offset)
  {
    hide Le, Attributes, Permissions, AttributeByte, PermissionByte, AccessIs, OffsetIs, AccessReads;
    FieldBits(i);
    assert Receivers(i)[k] == Named(i, k);
    AccessRead(m, v, i, Named(i, k), offset, k);
  }

  lemma AccessRead(m: Buffer, v: Version, i: Init, r: Receiver, offset: nat, k: nat)
    requires AccessIs(m, v, k, r, Permissions(i) as nat) && OffsetIs(m, v, k, offset)
    ensures AccessReads(m, v, AccessAt(v, k), i, r, offset)
  {
    hide Le, Permissions, PermissionByte;
    FieldBits(i);
  }

  // Whichever receiver reads the fragment finds itself, the sender's header, all pages, and the
  // constituents that were copied.
  lemma ReaderRecovers(m: Buffer, v: Version, i: Init, cs: seq<Constituent>, copied: nat, k: nat)
    requires copied <= |cs| && Built(m, v, i, cs, copied) && k < if i.multiShare then |i.receivers| else 1
    requires AccessAt(v, |Receivers(i)|) + COMPOSITE + CONSTITUENT * copied <= |m|
    ensures HeaderSize(v) <= |m| && HeaderReads(m, i, 0)
    ensures ReadAccess(m, v, k) + 8 <= |m|
            && AccessReads(m, v, ReadAccess(m, v, k), i, Named(i, k), ReadComposite(m, v, k))
    ensures var c := ReadComposite(m, v, k);
            && c + 16 + 16 * copied <= |m|
            && Le(m, c, 4) == Pages(cs) % 0x1_0000_0000 && Le(m, c + 4, 4) == |cs|
            && ReadConstituents(m, c + 16, copied) == cs[..copied]
  {
    hide Le, Pages, Attributes, Permissions, Receivers, AccessesAre, OffsetsAre, ReadAccess, ConstituentsAre, HeaderReads, Named,
      AccessReads;
    var n := |Receivers(i)|;
    PrologueRead(m, v, i, 0, AccessAt(v, n), k);
    ReadsInside(m, v, ReadAccess(m, v, k), i, Named(i, k), AccessAt(v, n));
    assert cs[..copied][..copied] == cs[..copied];
    ConstituentsRead(m, AccessAt(v, n) + COMPOSITE, cs[..copied], copied);
  }

  lemma ReadsInside(m: Buffer, v: Version, a: nat, i: Init, r: Receiver, offset: nat)
    requires AccessReads(m, v, a, i, r, offset)
    ensures a + 8 <= |m| && Le(m, a + 4, 4) == offset
  {
  }
}
