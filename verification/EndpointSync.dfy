/** The endpoint table: discovery by val_ep_info_relayer_sync, and its copy to every secure partition
    by val_send_sync_ep_info in two direct messages a row (val/src/val_framework.c), received by the
    loop of val_wait_for_test_fn_req (val/src/val_test_dispatch.c). */
module EndpointSync {
  import opened Arith
  import opened LittleEndian

  const NOT_PRESENT := 0x0
  const PRESENT := 0xF
  const SYNC_SERVICE := 0xFFEE

  // ---------------------------------------------------------------- rows and words

  // val_endpoint_info_t, 32 bytes.
  datatype Row = Row(name: seq<nat>, valid: nat, secure: nat, id: nat, tg0: nat, el: nat, ec: nat, properties: nat,
                     uuid: seq<nat>)

  predicate Typed(r: Row) {
    && |r.name| == 5 && (forall k | 0 <= k < 5 :: r.name[k] < 0x100) && r.valid < 0x10 && r.secure < 0x10
    && r.id < 0x10000 && r.tg0 < 0x100 && r.el < 0x100 && r.ec < 0x10000 && r.properties < 0x1_0000_0000
    && |r.uuid| == 4 && (forall k | 0 <= k < 4 :: r.uuid[k] < 0x1_0000_0000)
  }

  function Word(a: nat, b: nat, c: nat, d: nat): nat {
    a + 0x100 * (b + 0x100 * (c + 0x100 * d))
  }

  function ByteOf(w: nat, k: nat): nat {
    if k == 0 then w % 0x100 else ByteOf(w / 0x100, k - 1)
  }

  function HighHalf(w: nat): nat {
    w / 0x10000 % 0x10000
  }

  lemma WordBytes(a: nat, b: nat, c: nat, d: nat)
    requires a < 0x100 && b < 0x100 && c < 0x100 && d < 0x100
    ensures var w := Word(a, b, c, d); ByteOf(w, 0) == a && ByteOf(w, 1) == b && ByteOf(w, 2) == c && ByteOf(w, 3) == d
  {
    LowByte(a, b + 0x100 * (c + 0x100 * d));
    LowByte(b, c + 0x100 * d);
    LowByte(c, d);
    assert ByteOf(c + 0x100 * d, 0) == c;
    assert ByteOf(b + 0x100 * (c + 0x100 * d), 1) == c;
    assert ByteOf(d, 0) == d;
    assert ByteOf(c + 0x100 * d, 1) == d;
    assert ByteOf(b + 0x100 * (c + 0x100 * d), 2) == d;
  }

  lemma LowByte(a: nat, rest: nat)
    requires a < 0x100
    ensures (a + 0x100 * rest) % 0x100 == a && (a + 0x100 * rest) / 0x100 == rest
  {
  }

  function HalfWord(a: nat, b: nat, high: nat): nat {
    a + 0x100 * b + 0x10000 * high
  }

  lemma HalfWordParts(a: nat, b: nat, high: nat)
    requires a < 0x100 && b < 0x100 && high < 0x10000
    ensures var w := HalfWord(a, b, high); ByteOf(w, 0) == a && ByteOf(w, 1) == b && HighHalf(w) == high
  {
    LowByte(a, b + 0x100 * high);
    LowByte(b, high);
    assert HalfWord(a, b, high) == a + 0x100 * (b + 0x100 * high);
    assert ByteOf(b + 0x100 * high, 0) == b;
  }

  // The first and the second four 32-bit words of a row.
  function FirstHalf(r: Row): (w: seq<nat>)
    requires |r.name| == 5
    ensures |w| == 4
  {
    [Word(r.name[0], r.name[1], r.name[2], r.name[3]),
     HalfWord(r.name[4], r.valid + 0x10 * r.secure, r.id),
     HalfWord(r.tg0, r.el, r.ec),
     r.properties]
  }

  function SecondHalf(r: Row): seq<nat> {
    r.uuid
  }

  // The row that eight words stand for.
  function FromWords(a: seq<nat>, b: seq<nat>): Row
    requires |a| == |b| == 4
  {
    Row([ByteOf(a[0], 0), ByteOf(a[0], 1), ByteOf(a[0], 2), ByteOf(a[0], 3), ByteOf(a[1], 0)],
        ByteOf(a[1], 1) % 0x10, ByteOf(a[1], 1) / 0x10, HighHalf(a[1]),
        ByteOf(a[2], 0), ByteOf(a[2], 1), HighHalf(a[2]), a[3], b)
  }

  // No field is lost on the way through the two messages.
  lemma RowRoundTrip(r: Row)
    requires Typed(r)
    ensures FromWords(FirstHalf(r), SecondHalf(r)) == r
  {
    hide ByteOf, HighHalf, Word, HalfWord;
    WordBytes(r.name[0], r.name[1], r.name[2], r.name[3]);
    HalfWordParts(r.name[4], r.valid + 0x10 * r.secure, r.id);
    HalfWordParts(r.tg0, r.el, r.ec);
    assert FromWords(FirstHalf(r), SecondHalf(r)).name == r.name;
  }

  // ---------------------------------------------------------------- the receiving partition

  datatype Message = Message(receiver: nat, arg3: nat, data: seq<nat>)

  // A partition in val_wait_for_test_fn_req; halfway, it is inside val_sync_ep_info_service and its
  // response brings the next request.
  class Partition {
    var table: seq<Row>
    var halfway: bool
    var index: nat
    var half: seq<nat>

    ghost predicate Valid()
      reads this
    {
      halfway ==> |half| == 4 && index < |table|
    }

    method Receive(m: Message)
      requires Valid() && |m.data| == 4
      requires !halfway ==> m.arg3 % 0x10000 == SYNC_SERVICE && m.arg3 / 0x10000 < |table|
      modifies this
      ensures Valid() && halfway == !old(halfway) && |table| == |old(table)|
      ensures halfway ==> table == old(table) && index == m.arg3 / 0x10000 && half == m.data
      ensures !halfway ==> table == old(table)[old(index) := FromWords(old(half), m.data)]
    {
      if !halfway {
        index, half, halfway := m.arg3 / 0x10000, m.data, true;
      } else {
        var row := FromWords(half, m.data);
        var r := table[index].(name := row.name);
        r := r.(id := row.id, valid := row.valid, secure := row.secure);
        r := r.(tg0 := row.tg0, el := row.el, ec := row.ec, properties := row.properties, uuid := row.uuid);
        table, halfway := table[index := r], false;
      }
    }
  }

  // ---------------------------------------------------------------- the dispatcher

  // t after rows 1..n were replaced by those of d.
  function Synced(t: seq<Row>, d: seq<Row>, n: nat): seq<Row>
    requires n < |t| && n < |d|
  {
    t[..1] + d[1..n + 1] + t[n + 1..]
  }

  // The partitions by endpoint id; FF-A hands a direct message to the one its receiver field names.
  type Network = map<nat, Partition>

  ghost predicate Separate(net: Network) {
    forall a, b | a in net && b in net && a != b :: net[a] != net[b]
  }

  method Deliver(net: Network, m: Message)
    requires m.receiver in net && net[m.receiver].Valid() && |m.data| == 4
    requires !net[m.receiver].halfway ==> m.arg3 % 0x10000 == SYNC_SERVICE && m.arg3 / 0x10000 < |net[m.receiver].table|
    modifies net[m.receiver]
    ensures var p := net[m.receiver];
            && p.Valid() && p.halfway == !old(p.halfway) && |p.table| == |old(p.table)|
            && (p.halfway ==> p.table == old(p.table) && p.index == m.arg3 / 0x10000 && p.half == m.data)
            && (!p.halfway ==> p.table == old(p.table)[old(p.index) := FromWords(old(p.half), m.data)])
  {
    net[m.receiver].Receive(m);
  }

  // One row, as two messages to the endpoint of row i.
  method SendRow(table: seq<Row>, i: nat, j: nat, net: Network)
    requires i < |table| && j < |table| && Typed(table[j]) && j < 0x10000 && table[i].id in net
    requires var p := net[table[i].id]; p.Valid() && !p.halfway && j < |p.table|
    modifies net[table[i].id]
    ensures var p := net[table[i].id]; p.Valid() && !p.halfway && p.table == old(p.table)[j := table[j]]
  {
    RowRoundTrip(table[j]);
    var arg3 := j * 0x10000 + SYNC_SERVICE;
    Deliver(net, Message(table[i].id, arg3, FirstHalf(table[j])));
    Deliver(net, Message(table[i].id, arg3, SecondHalf(table[j])));
  }

  // The inner loop of val_send_sync_ep_info.
  method SendTable(table: seq<Row>, i: nat, count: nat, net: Network)
    requires i < |table| && count < |table| && count < 0x10000 && forall k | 0 <= k < |table| :: Typed(table[k])
    requires table[i].id in net
    requires var p := net[table[i].id]; p.Valid() && !p.halfway && count < |p.table|
    modifies net[table[i].id]
    ensures var p := net[table[i].id]; p.Valid() && !p.halfway && p.table == Synced(old(p.table), table, count)
  {
    ghost var p := net[table[i].id];
    var j := 1;
    while j <= count
      invariant 1 <= j <= count + 1 && p.Valid() && !p.halfway && p.table == Synced(old(p.table), table, j - 1)
    {
      SendRow(table, i, j, net);
      j := j + 1;
    }
  }

  lemma SyncedTwice(t: seq<Row>, d: seq<Row>, n: nat)
    requires n < |t| && n < |d|
    ensures Synced(Synced(t, d, n), d, n) == Synced(t, d, n)
  {
  }

  // One of the rows 1..n is present and has this id.
  ghost predicate Addressed(table: seq<Row>, n: nat, id: nat)
    requires n < |table|
  {
    exists i :: 1 <= i <= n && table[i].valid != NOT_PRESENT && table[i].id == id
  }

  lemma AddressedNext(table: seq<Row>, n: nat, id: nat)
    requires n + 1 < |table|
    ensures Addressed(table, n + 1, id)
       <==> Addressed(table, n, id) || (table[n + 1].valid != NOT_PRESENT && table[n + 1].id == id)
  {
    if Addressed(table, n + 1, id) && !Addressed(table, n, id) {
      var i :| 1 <= i <= n + 1 && table[i].valid != NOT_PRESENT && table[i].id == id;
      assert i == n + 1;
    }
    if table[n + 1].valid != NOT_PRESENT && table[n + 1].id == id { assert Addressed(table, n + 1, id); }
  }

  // What the endpoint with this id holds once rows 1..n have been served.
  ghost function Expected(table: seq<Row>, n: nat, count: nat, id: nat, before: seq<Row>): seq<Row>
    requires n < |table| && count < |table| && count < |before|
  {
    if Addressed(table, n, id) then Synced(before, table, count) else before
  }

  // The body of the outer loop: the endpoint of row n + 1 is served if it is present.
  method SyncPartition(table: seq<Row>, n: nat, count: nat, net: Network, ghost before: map<nat, seq<Row>>)
    requires n + 1 < |table| && count < |table| && count < 0x10000 && forall k | 0 <= k < |table| :: Typed(table[k])
    requires table[n + 1].valid != NOT_PRESENT ==> table[n + 1].id in net
    requires Separate(net) && before.Keys == net.Keys
    requires forall id | id in net ::
               net[id].Valid() && !net[id].halfway && count < |before[id]|
               && net[id].table == Expected(table, n, count, id, before[id])
    modifies net.Values
    ensures forall id | id in net ::
              net[id].Valid() && !net[id].halfway && net[id].table == Expected(table, n + 1, count, id, before[id])
  {
    hide Addressed, Typed;
    forall id | id in net
      ensures Addressed(table, n + 1, id)
         <==> Addressed(table, n, id) || (table[n + 1].valid != NOT_PRESENT && table[n + 1].id == id)
    {
      AddressedNext(table, n, id);
    }
    if table[n + 1].valid == NOT_PRESENT { return; }
    ghost var mine := table[n + 1].id;
    SyncedTwice(before[mine], table, count);
    SendTable(table, n + 1, count, net);
  }

  lemma NobodyServed(table: seq<Row>, count: nat, id: nat, before: seq<Row>)
    requires count < |table| && count < |before|
    ensures Expected(table, 0, count, id, before) == before
  {
  }

  // val_send_sync_ep_info: every endpoint that a present row names ends up with the dispatcher's rows,
  // even if several rows name it, and no other endpoint changes.
  method SendSync(table: seq<Row>, secure: nat, net: Network, ghost before: map<nat, seq<Row>>)
    requires secure + 1 < |table| && secure + 1 < 0x10000 && forall k | 0 <= k < |table| :: Typed(table[k])
    requires Separate(net) && before.Keys == net.Keys
    requires forall i | 1 <= i <= secure && table[i].valid != NOT_PRESENT :: table[i].id in net
    requires forall id | id in net ::
               net[id].Valid() && !net[id].halfway && secure + 1 < |net[id].table| && before[id] == net[id].table
    modifies net.Values
    ensures forall id | id in net ::
              !net[id].halfway && net[id].table == Expected(table, secure, secure + 1, id, before[id])
  {
    hide Typed, Expected, Synced, Separate;
    var i := 1;
    forall id | id in net ensures Expected(table, 0, secure + 1, id, before[id]) == before[id] {
      NobodyServed(table, secure + 1, id, before[id]);
    }
    while i <= secure
      invariant 1 <= i <= secure + 1
      invariant forall id | id in net ::
                  net[id].Valid() && !net[id].halfway && secure + 1 < |before[id]|
                  && net[id].table == Expected(table, i - 1, secure + 1, id, before[id])
    {
      SyncPartition(table, i - 1, secure + 1, net, before);
      i := i + 1;
    }
  }

  // ---------------------------------------------------------------- discovery

  const INFO_SIZE := 48        // sizeof(ffa_partition_info_t)

  datatype Info = Info(id: nat, ec: nat, properties: nat, uuid: seq<nat>)

  // The members of the n-th parsed descriptor that discovery looks at.
  function InfoAt(out: Buffer, n: nat): Info
    requires INFO_SIZE * (n + 1) <= |out|
  {
    var o := INFO_SIZE * n;
    Info(Le(out, o, 2), Le(out, o + 2, 2), Le(out, o + 4, 4),
         [Le(out, o + 8, 4), Le(out, o + 12, 4), Le(out, o + 16, 4), Le(out, o + 20, 4)])
  }

  // Descriptor n of the receive buffer, filled up with zeros to the full structure.
  ghost predicate Parsed(out: Buffer, rx: Buffer, size: nat, n: nat)
    requires INFO_SIZE * (n + 1) <= |out| && Times(n, size) + size <= |rx| && size <= INFO_SIZE
  {
    && (forall j | INFO_SIZE * n <= j < INFO_SIZE * n + size :: out[j] == rx[j - INFO_SIZE * n + Times(n, size)])
    && (forall j | INFO_SIZE * n + size <= j < INFO_SIZE * (n + 1) :: out[j] == 0)
  }

  // Lines 400-404 of val_ffa_helpers.c.
  method ParseOne(out: array<nat>, rx: seq<nat>, o: nat, src: nat, size: nat)
    requires o + INFO_SIZE <= out.Length && src + size <= |rx| && size <= INFO_SIZE
    modifies out
    ensures forall j | 0 <= j < out.Length && !(o <= j < o + INFO_SIZE) :: out[j] == old(out[j])
    ensures forall j | o <= j < o + size :: out[j] == rx[j - o + src]
    ensures forall j | o + size <= j < o + INFO_SIZE :: out[j] == 0
  {
    for k := 0 to INFO_SIZE
      invariant forall j | 0 <= j < out.Length && !(o <= j < o + k) :: out[j] == old(out[j])
      invariant forall j | o <= j < o + k :: out[j] == 0
    {
      out[o + k] := 0;
    }
    for k := 0 to size
      invariant forall j | 0 <= j < out.Length && !(o <= j < o + INFO_SIZE) :: out[j] == old(out[j])
      invariant forall j | o <= j < o + k :: out[j] == rx[j - o + src]
      invariant forall j | o + k <= j < o + INFO_SIZE :: out[j] == 0
    {
      out[o + k] := rx[src + k];
    }
  }

  // val_ffa_partition_descriptor_info_parser.  Its caller checks the size only afterwards: the last
  // copy stays inside out exactly when the size is at most INFO_SIZE.
  method Parse(out: array<nat>, rx: seq<nat>, size: nat, count: nat)
    requires out.Length == INFO_SIZE * count && Times(count, size) <= |rx| && size <= INFO_SIZE
    modifies out
    ensures forall n | 0 <= n < count :: Times(n, size) + size <= |rx| && Parsed(out[..], rx, size, n)
  {
    hide Times;
    var src := 0;
    assert Times(0, size) == 0 by { TimesStep(0, size); }
    for i := 0 to count
      invariant src == Times(i, size)
      invariant forall n | 0 <= n < i :: Times(n, size) + size <= |rx| && Parsed(out[..], rx, size, n)
    {
      ghost var was := out[..];
      TimesStep(i, size);
      if i + 1 < count { TimesLess(i + 1, count, size); }
      ParseOne(out, rx, INFO_SIZE * i, src, size);
      forall n | 0 <= n < i ensures Parsed(out[..], rx, size, n) { assert Parsed(was, rx, size, n); }
      src := src + size;
    }
  }

  lemma TimesStep(i: nat, size: nat)
    ensures Times(0, size) == 0 && Times(i + 1, size) == Times(i, size) + size
  {
  }

  // What the descriptor itself says: v1.0 descriptors have no UUID.
  function Described(rx: Buffer, size: nat, n: nat): Info
    requires size >= 8 && Times(n, size) + size <= |rx|
  {
    var o := Times(n, size);
    Info(Le(rx, o, 2), Le(rx, o + 2, 2), Le(rx, o + 4, 4),
         if size >= 24 then [Le(rx, o + 8, 4), Le(rx, o + 12, 4), Le(rx, o + 16, 4), Le(rx, o + 20, 4)] else [0, 0, 0, 0])
  }

  lemma {:induction false} LeShift(m: Buffer, o: nat, m': Buffer, o': nat, w: nat)
    requires o + w <= |m| && o' + w <= |m'| && forall j | o <= j < o + w :: m[j] == m'[j - o + o']
    ensures Le(m, o, w) == Le(m', o', w)
    decreases w
  {
    if w > 0 { LeShift(m, o + 1, m', o' + 1, w - 1); }
  }

  lemma {:induction false} LeZero(m: Buffer, o: nat, w: nat)
    requires o + w <= |m| && forall j | o <= j < o + w :: m[j] == 0
    ensures Le(m, o, w) == 0
    decreases w
  {
    if w > 0 { LeZero(m, o + 1, w - 1); }
  }

  // Every descriptor format of FFA_PARTITION_INFO_GET reads as what it says.
  lemma ParsedInfo(out: Buffer, rx: Buffer, size: nat, n: nat)
    requires size in {8, 24, 48} && INFO_SIZE * (n + 1) <= |out| && Times(n, size) + size <= |rx| && Parsed(out, rx, size, n)
    ensures InfoAt(out, n) == Described(rx, size, n)
  {
    hide Le, Times;
    var o, p := INFO_SIZE * n, Times(n, size);
    LeShift(out, o, rx, p, 2);
    LeShift(out, o + 2, rx, p + 2, 2);
    LeShift(out, o + 4, rx, p + 4, 4);
    if size == 8 {
      LeZero(out, o + 8, 4);
      LeZero(out, o + 12, 4);
      LeZero(out, o + 16, 4);
      LeZero(out, o + 20, 4);
    } else {
      LeShift(out, o + 8, rx, p + 8, 4);
      LeShift(out, o + 12, rx, p + 12, 4);
      LeShift(out, o + 16, rx, p + 16, 4);
      LeShift(out, o + 20, rx, p + 20, 4);
    }
  }

  // Lines 533-555 of val_framework.c: by id, or with the TPM service built in by a UUID that is not nil.
  predicate Matches(r: Row, d: Info, tpm: bool) {
    if tpm then r.uuid != [0, 0, 0, 0] && r.uuid == d.uuid else r.id == d.id
  }

  predicate TypedInfo(d: Info) {
    d.id < 0x10000 && d.ec < 0x10000
  }

  function Found(r: Row, d: Info, tpm: bool): Row {
    if tpm then r.(valid := PRESENT, id := d.id, ec := d.ec) else r.(valid := PRESENT)
  }

  // The row after discovery: taken from the first descriptor that matches it.
  ghost predicate Discovered(r: Row, r': Row, ds: seq<Info>, tpm: bool) {
    || (r' == r.(valid := NOT_PRESENT) && forall j | 0 <= j < |ds| :: !Matches(r, ds[j], tpm))
    || exists j :: 0 <= j < |ds| && FirstMatch(r, ds, tpm, j) && r' == Found(r, ds[j], tpm)
  }

  ghost predicate FirstMatch(r: Row, ds: seq<Info>, tpm: bool, j: nat)
    requires j < |ds|
  {
    Matches(r, ds[j], tpm) && forall k | 0 <= k < j :: !Matches(r, ds[k], tpm)
  }

  // A row is marked present exactly when some descriptor matches it.
  lemma PresentIff(r: Row, r': Row, ds: seq<Info>, tpm: bool)
    requires Discovered(r, r', ds, tpm)
    ensures r'.valid == PRESENT <==> exists j :: 0 <= j < |ds| && Matches(r, ds[j], tpm)
    ensures r'.valid == PRESENT || r'.valid == NOT_PRESENT
  {
    if j :| 0 <= j < |ds| && FirstMatch(r, ds, tpm, j) && r' == Found(r, ds[j], tpm) {
      assert Matches(r, ds[j], tpm);
    }
  }

  // The inner matching loop, for row i.
  method DiscoverRow(table: array<Row>, i: nat, ds: seq<Info>, tpm: bool)
    requires i < table.Length && Typed(table[i]) && forall j | 0 <= j < |ds| :: TypedInfo(ds[j])
    modifies table
    ensures Discovered(old(table[i]), table[i], ds, tpm) && Typed(table[i])
    ensures forall k | 0 <= k < table.Length && k != i :: table[k] == old(table[k])
  {
    var found, j := false, 0;
    while j < |ds| && !found
      invariant j <= |ds| && forall k | 0 <= k < table.Length && k != i :: table[k] == old(table[k])
      invariant !found ==> table[i] == old(table[i]) && forall k | 0 <= k < j :: !Matches(table[i], ds[k], tpm)
      invariant found ==> Typed(table[i]) && Discovered(old(table[i]), table[i], ds, tpm)
      decreases |ds| - j, !found
    {
      if tpm {
        if table[i].uuid != [0, 0, 0, 0] && table[i].uuid == ds[j].uuid {
          assert FirstMatch(table[i], ds, tpm, j);
          table[i] := table[i].(valid := PRESENT, id := ds[j].id, ec := ds[j].ec);
          found := true;
        }
      } else if table[i].id == ds[j].id {
        assert FirstMatch(table[i], ds, tpm, j);
        table[i] := table[i].(valid := PRESENT);
        found := true;
      }
      if !found { j := j + 1; }
    }
    if !found { table[i] := table[i].(valid := NOT_PRESENT); }
  }

  // The matching loop of val_ep_info_relayer_sync.
  method Discover(table: array<Row>, secure: nat, ds: seq<Info>, tpm: bool)
    requires secure < table.Length && forall k | 0 <= k < table.Length :: Typed(table[k])
    requires forall j | 0 <= j < |ds| :: TypedInfo(ds[j])
    modifies table
    ensures forall k | 0 <= k < table.Length :: Typed(table[k])
    ensures forall i | 1 <= i <= secure :: Discovered(old(table[i]), table[i], ds, tpm)
    ensures forall k | 0 <= k < table.Length && !(1 <= k <= secure) :: table[k] == old(table[k])
  {
    hide Discovered, Typed;
    for i := 1 to secure + 1
      invariant forall k | 0 <= k < table.Length :: Typed(table[k])
      invariant forall k | 1 <= k < i :: Discovered(old(table[k]), table[k], ds, tpm)
      invariant forall k | 0 <= k < table.Length && !(1 <= k < i) :: table[k] == old(table[k])
    {
      DiscoverRow(table, i, ds, tpm);
    }
  }

  // The descriptors of the receive buffer.
  function AllDescribed(rx: Buffer, size: nat, count: nat): seq<Info>
    requires size >= 8 && Times(count, size) <= |rx|
  {
    seq(count, n requires 0 <= n < count => (TimesLess(n, count, size); Described(rx, size, n)))
  }

  lemma {:induction false} LeBound(m: Buffer, o: nat, w: nat)
    requires o + w <= |m| && forall j | 0 <= j < |m| :: m[j] < 0x100
    ensures Le(m, o, w) < Limit(w)
    decreases w
  {
    if w > 0 { LeBound(m, o + 1, w - 1); }
  }

  lemma DescribedTyped(rx: Buffer, size: nat, n: nat)
    requires size >= 8 && Times(n, size) + size <= |rx| && forall j | 0 <= j < |rx| :: rx[j] < 0x100
    ensures TypedInfo(Described(rx, size, n))
  {
    hide Le, Times, Limit;
    Limits();
    LeBound(rx, Times(n, size), 2);
    LeBound(rx, Times(n, size) + 2, 2);
  }

  // ---------------------------------------------------------------- in bytes

  lemma LeTwo(m: Buffer, o: nat)
    requires o + 4 <= |m|
    ensures Le(m, o, 2) == m[o] + 0x100 * m[o + 1]
    ensures Le(m, o, 4) == m[o] + 0x100 * m[o + 1] + 0x10000 * m[o + 2] + 0x1000000 * m[o + 3]
  {
    assert Le(m, o + 2, 2) == m[o + 2] + 0x100 * m[o + 3];
    assert Le(m, o, 4) == m[o] + 0x100 * (m[o + 1] + 0x100 * Le(m, o + 2, 2));
  }

  ghost predicate WordIs(rx: Buffer, o: nat, w: nat) {
    o + 4 <= |rx| && w == rx[o] + 0x100 * rx[o + 1] + 0x10000 * rx[o + 2] + 0x1000000 * rx[o + 3]
  }

  // The descriptor at o is the row's: it has the row's id or, with the TPM service built in, the row's
  // UUID, which is not nil.
  ghost predicate Names(rx: Buffer, o: nat, size: nat, r: Row, tpm: bool) {
    && o + 4 <= |rx| && |r.uuid| == 4
    && if tpm then
         && size >= 24 && (r.uuid[0] != 0 || r.uuid[1] != 0 || r.uuid[2] != 0 || r.uuid[3] != 0)
         && WordIs(rx, o + 8, r.uuid[0]) && WordIs(rx, o + 12, r.uuid[1]) && WordIs(rx, o + 16, r.uuid[2])
         && WordIs(rx, o + 20, r.uuid[3])
       else r.id == rx[o] + 0x100 * rx[o + 1]
  }

  // The row once discovery is over: absent if no descriptor is its own, else present and, with the TPM
  // service built in, with the id and execution contexts of the first such descriptor.
  ghost predicate Outcome(was: Row, now: Row, rx: Buffer, size: nat, count: nat, tpm: bool) {
    || (now == was.(valid := 0) && forall n | 0 <= n < count :: !Names(rx, Times(n, size), size, was, tpm))
    || exists n: nat | n < count && Names(rx, Times(n, size), size, was, tpm) ::
         && (forall j | 0 <= j < n :: !Names(rx, Times(j, size), size, was, tpm))
         && now == if tpm then was.(valid := 0xF, id := rx[Times(n, size)] + 0x100 * rx[Times(n, size) + 1],
                                    ec := rx[Times(n, size) + 2] + 0x100 * rx[Times(n, size) + 3])
                   else was.(valid := 0xF)
  }

  lemma NamesIff(rx: Buffer, size: nat, n: nat, r: Row, tpm: bool)
    requires KnownSize(size) && Times(n, size) + size <= |rx| && |r.uuid| == 4
    ensures Matches(r, Described(rx, size, n), tpm) <==> Names(rx, Times(n, size), size, r, tpm)
  {
    hide Le, Times;
    var o := Times(n, size);
    LeTwo(rx, o);
    if size >= 24 {
      LeTwo(rx, o + 8);
      LeTwo(rx, o + 12);
      LeTwo(rx, o + 16);
      LeTwo(rx, o + 20);
    }
    assert r.uuid == [r.uuid[0], r.uuid[1], r.uuid[2], r.uuid[3]];
  }

  lemma FoundIs(rx: Buffer, size: nat, n: nat, r: Row, tpm: bool)
    requires KnownSize(size) && Times(n, size) + size <= |rx|
    ensures var o := Times(n, size);
            Found(r, Described(rx, size, n), tpm) ==
              if tpm then r.(valid := 0xF, id := rx[o] + 0x100 * rx[o + 1], ec := rx[o + 2] + 0x100 * rx[o + 3])
              else r.(valid := 0xF)
  {
    hide Le, Times;
    var o := Times(n, size);
    LeTwo(rx, o);
    LeTwo(rx, o + 2);
  }

  lemma OutcomeIs(was: Row, now: Row, rx: Buffer, size: nat, count: nat, tpm: bool)
    requires KnownSize(size) && Times(count, size) <= |rx| && |was.uuid| == 4
    requires Discovered(was, now, AllDescribed(rx, size, count), tpm)
    ensures Outcome(was, now, rx, size, count, tpm)
  {
    hide Times, Matches, Names, Described, Found;
    var ds := AllDescribed(rx, size, count);
    forall n | 0 <= n < count
      ensures Times(n, size) + size <= |rx| && (Matches(was, ds[n], tpm) <==> Names(rx, Times(n, size), size, was, tpm))
    {
      TimesLess(n, count, size);
      NamesIff(rx, size, n, was, tpm);
    }
    if n :| 0 <= n < |ds| && FirstMatch(was, ds, tpm, n) && now == Found(was, ds[n], tpm) {
      FoundIs(rx, size, n, was, tpm);
      assert Names(rx, Times(n, size), size, was, tpm);
    }
  }

  predicate KnownSize(size: nat) {
    size == 8 || size == 24 || size == 48
  }

  // val_ep_info_relayer_sync from the parser on (lines 500-561): rows are matched against what the
  // descriptors say, and nothing is matched if their size is not one of the three known ones.
  method Relay(table: array<Row>, secure: nat, rx: seq<nat>, size: nat, count: nat, tpm: bool)
    requires secure < table.Length && forall k | 0 <= k < table.Length :: Typed(table[k])
    requires size <= INFO_SIZE && Times(count, size) <= |rx| && forall j | 0 <= j < |rx| :: rx[j] < 0x100
    modifies table
    ensures forall k | 0 <= k < table.Length :: Typed(table[k])
    ensures KnownSize(size) ==>
              forall i | 1 <= i <= secure :: Discovered(old(table[i]), table[i], AllDescribed(rx, size, count), tpm)
    ensures KnownSize(size) ==>
              forall i | 1 <= i <= secure :: Outcome(old(table[i]), table[i], rx, size, count, tpm)
    ensures forall k | 0 <= k < table.Length && !(1 <= k <= secure) :: table[k] == old(table[k])
    ensures !KnownSize(size) ==> table[..] == old(table[..])
  {
    hide Times, Discovered, InfoAt, Described, TypedInfo, Parsed, Outcome;
    var out := new nat[INFO_SIZE * count];
    Parse(out, rx, size, count);
    if size != 8 && size != 24 && size != 48 { return; }
    var o := out[..];
    var ds := seq(count, n requires 0 <= n < count => InfoAt(o, n));
    forall n | 0 <= n < count ensures ds[n] == AllDescribed(rx, size, count)[n] && TypedInfo(ds[n]) {
      ParsedInfo(o, rx, size, n);
      DescribedTyped(rx, size, n);
    }
    assert ds == AllDescribed(rx, size, count);
    Discover(table, secure, ds, tpm);
    forall i | 1 <= i <= secure ensures Outcome(old(table[i]), table[i], rx, size, count, tpm) {
      OutcomeIs(old(table[i]), table[i], rx, size, count, tpm);
    }
  }

  // Where a present row of the discovered table leads.
  ghost predicate Reachable(table: seq<Row>, secure: nat, ds: seq<Info>, tpm: bool, ids: set<nat>)
    requires secure < |table|
  {
    forall i, j | 1 <= i <= secure && 0 <= j < |ds| && Matches(table[i], ds[j], tpm) :: Found(table[i], ds[j], tpm).id in ids
  }

  lemma PresentReachable(r: Row, r': Row, ds: seq<Info>, tpm: bool, ids: set<nat>)
    requires Discovered(r, r', ds, tpm) && r'.valid != NOT_PRESENT
    requires forall j | 0 <= j < |ds| && Matches(r, ds[j], tpm) :: Found(r, ds[j], tpm).id in ids
    ensures r'.id in ids
  {
  }

  // Every secure row is marked present exactly when a descriptor matches it, and absent otherwise.
  ghost predicate Marked(was: seq<Row>, now: seq<Row>, secure: nat, ds: seq<Info>, tpm: bool)
    requires secure < |was| == |now|
  {
    forall i | 1 <= i <= secure ::
      && (now[i].valid == PRESENT <==> exists j :: 0 <= j < |ds| && Matches(was[i], ds[j], tpm))
      && (now[i].valid == PRESENT || now[i].valid == NOT_PRESENT)
  }

  ghost predicate Leads(table: seq<Row>, secure: nat, ids: set<nat>)
    requires secure < |table|
  {
    forall i | 1 <= i <= secure && table[i].valid != NOT_PRESENT :: table[i].id in ids
  }

  lemma MarkedRows(was: seq<Row>, now: seq<Row>, secure: nat, ds: seq<Info>, tpm: bool, ids: set<nat>)
    requires secure < |was| == |now| && Reachable(was, secure, ds, tpm, ids)
    requires forall i | 1 <= i <= secure :: Discovered(was[i], now[i], ds, tpm)
    ensures Marked(was, now, secure, ds, tpm) && Leads(now, secure, ids)
  {
    hide Discovered, Matches, Found;
    forall i | 1 <= i <= secure
      ensures now[i].valid == PRESENT <==> exists j :: 0 <= j < |ds| && Matches(was[i], ds[j], tpm)
      ensures now[i].valid == PRESENT || now[i].valid == NOT_PRESENT
      ensures now[i].valid != NOT_PRESENT ==> now[i].id in ids
    {
      PresentIff(was[i], now[i], ds, tpm);
      if now[i].valid != NOT_PRESENT { PresentReachable(was[i], now[i], ds, tpm, ids); }
    }
  }

  // The endpoints of present rows hold the dispatcher's rows 1..count, and the others what they held.
  ghost predicate Propagated(table: seq<Row>, secure: nat, id: nat, before: seq<Row>, after: seq<Row>)
    requires secure + 1 < |table|
  {
    && (Addressed(table, secure, id) ==>
          && |after| == |before|
          && forall j | 0 <= j < |before| :: after[j] == if 1 <= j <= secure + 1 then table[j] else before[j])
    && (!Addressed(table, secure, id) ==> after == before)
  }

  lemma ExpectedRows(table: seq<Row>, secure: nat, id: nat, before: seq<Row>)
    requires secure + 1 < |table| && secure + 1 < |before|
    ensures Propagated(table, secure, id, before, Expected(table, secure, secure + 1, id, before))
  {
  }

  // Discovery and synchronisation, from the receive buffer to the partitions: a secure row is marked
  // present exactly when one of the descriptors matches it, and the endpoint of every present row ends
  // up with the dispatcher's rows.
  method SynchroniseEndpoints(table: array<Row>, secure: nat, rx: seq<nat>, size: nat, count: nat, tpm: bool, net: Network)
    requires secure + 1 < table.Length && secure + 1 < 0x10000 && forall k | 0 <= k < table.Length :: Typed(table[k])
    requires KnownSize(size) && Times(count, size) <= |rx| && forall j | 0 <= j < |rx| :: rx[j] < 0x100
    requires Separate(net) && Reachable(table[..], secure, AllDescribed(rx, size, count), tpm, net.Keys)
    requires forall id | id in net :: net[id].Valid() && !net[id].halfway && secure + 1 < |net[id].table|
    modifies table, net.Values
    ensures Marked(old(table[..]), table[..], secure, AllDescribed(rx, size, count), tpm)
    ensures forall i | 1 <= i <= secure :: Outcome(old(table[i]), table[i], rx, size, count, tpm)
    ensures forall k | 0 <= k < table.Length && !(1 <= k <= secure) :: table[k] == old(table[k])
    ensures Leads(table[..], secure, net.Keys)
    ensures forall id | id in net :: Propagated(table[..], secure, id, old(net[id].table), net[id].table)
  {
    hide Discovered, Typed, Matches, Times, AllDescribed, Outcome, Expected, Propagated, Marked, Reachable, Separate;
    ghost var was, before := table[..], map id | id in net :: net[id].table;
    Relay(table, secure, rx, size, count, tpm);
    ghost var t := table[..];
    MarkedRows(was, t, secure, AllDescribed(rx, size, count), tpm, net.Keys);
    SendSync(table[..], secure, net, before);
    forall id | id in net ensures Propagated(t, secure, id, before[id], net[id].table) {
      ExpectedRows(t, secure, id, before[id]);
    }
  }
}
