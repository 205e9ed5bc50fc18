/**
 The self-describing bus table: what a socket serves for its own devices, and how a scan reads a table
 back word by word.
 */
module Sdb {
  import opened Words
  import opened Records
  import opened Operations
  import opened Bus

  datatype Product = Product(vendor: nat, device: nat, version: nat, date: nat, name: seq<byte>)

  datatype Device = Device(abiClass: nat, abiMajor: byte, abiMinor: byte, specific: nat, first: nat, last: nat, product: Product)

  /** A decoded record. Of records that are not understood only the type matters. */
  datatype Entry =
    | DeviceEntry(device: Device)
    | BridgeEntry(child: nat, first: nat, last: nat, product: Product)
    | IntegrationEntry(product: Product)
    | OtherEntry(kind: byte)

  datatype Interconnect = Interconnect(magic: nat, records: nat, version: byte, busType: byte, first: nat, last: nat, product: Product)

  datatype Table = Table(interconnect: Interconnect, entries: seq<Entry>)

  const MAGIC: nat := 0x5344422D
  const INTERCONNECT: byte := 0x00
  const DEVICE: byte := 0x01
  const BRIDGE: byte := 0x02
  const INTEGRATION: byte := 0x80
  const RECORD: nat := 64
  const SDB_END: nat := 0x4000

  /** "Software-EB-Bus", padded with blanks. */
  const BUS_NAME: seq<byte> := [83, 111, 102, 116, 119, 97, 114, 101, 45, 69, 66, 45, 66, 117, 115, 32, 32, 32, 32]

  predicate ProductFits(p: Product) {
    && p.vendor < WORD64 && p.device < 0x1_0000_0000 && p.version < 0x1_0000_0000 && p.date < 0x1_0000_0000 && |p.name| == 19
  }

  predicate DeviceFits(d: Device) {
    && d.abiClass < 0x1_0000 && d.specific < 0x1_0000_0000 && d.first < WORD64 && d.last < WORD64 && ProductFits(d.product)
  }

  function EncodeProduct(p: Product, kind: byte): (s: seq<byte>)
    requires |p.name| == 19
    ensures |s| == 40
  {
    ToBytes(p.vendor, 8) + ToBytes(p.device, 4) + ToBytes(p.version, 4) + ToBytes(p.date, 4) + p.name + [kind]
  }

  function EncodeComponent(first: nat, last: nat, p: Product, kind: byte): (s: seq<byte>)
    requires |p.name| == 19
    ensures |s| == 56
  {
    ToBytes(first, 8) + ToBytes(last, 8) + EncodeProduct(p, kind)
  }

  /** eb_sdb_device: the record in memory, all numbers big-endian. */
  function EncodeDevice(d: Device): (s: seq<byte>)
    requires |d.product.name| == 19
    ensures |s| == RECORD
  {
    ToBytes(d.abiClass, 2) + [d.abiMajor, d.abiMinor] + ToBytes(d.specific, 4) + EncodeComponent(d.first, d.last, d.product, DEVICE)
  }

  /** The bus itself. Version and date are those the library was built with. */
  function BusProduct(version: nat, date: nat): (p: Product)
    ensures |p.name| == 19
  {
    Product(0x651, 0x02398114, version, date, BUS_NAME)
  }

  /** eb_sdb_interconnect, with the 16-bit record count. */
  function EncodeInterconnect(devices: nat, version: nat, date: nat): (s: seq<byte>)
    ensures |s| == RECORD
  {
    ToBytes(MAGIC, 4) + ToBytes((devices + 1) % 0x1_0000, 2) + [1, 0]
    + EncodeComponent(0, WORD64 - 1, BusProduct(version, date), INTERCONNECT)
  }

  /** Every device has a name of the right length. */
  predicate Named(ds: seq<Device>) {
    forall i | 0 <= i < |ds| :: |ds[i].product.name| == 19
  }

  function EncodeDevices(ds: seq<Device>): (s: seq<byte>)
    requires Named(ds)
    ensures |s| == RECORD * |ds|
  {
    if |ds| == 0 then [] else EncodeDevice(ds[0]) + EncodeDevices(ds[1..])
  }

  /** The whole local table. */
  function TableBytes(ds: seq<Device>, version: nat, date: nat): (s: seq<byte>)
    requires Named(ds)
    ensures |s| == RECORD * (|ds| + 1)
  {
    EncodeInterconnect(|ds|, version, date) + EncodeDevices(ds)
  }

  lemma {:induction false} DeviceSlice(ds: seq<Device>, k: nat)
    requires k < |ds| && Named(ds)
    ensures EncodeDevices(ds)[RECORD * k..RECORD * k + RECORD] == EncodeDevice(ds[k])
    decreases k
  {
    hide EncodeDevice;
    if k > 0 {
      DeviceSlice(ds[1..], k - 1);
      var all := EncodeDevices(ds);
      assert all[RECORD * k..RECORD * k + RECORD] == all[RECORD..][RECORD * (k - 1)..RECORD * (k - 1) + RECORD];
      assert all[RECORD..] == EncodeDevices(ds[1..]);
    }
  }

  /** eb_sdb_extract: the big-endian word at an offset. */
  method Extract(bytes: seq<byte>, width: nat, addr: nat) returns (out: nat)
    requires addr + width <= |bytes|
    ensures out == FromBytes(bytes[addr..addr + width])
  {
    out := 0;
    for i := 0 to width
      invariant out == FromBytes(bytes[addr..addr + i])
    {
      out := out * 256 + bytes[addr + i];
      assert bytes[addr..addr + i + 1][..i] == bytes[addr..addr + i];
    }
  }

  /** What the table holds at an address; beyond its end it reads as zero. */
  function TableWord(ds: seq<Device>, version: nat, date: nat, width: nat, addr: nat): nat
    requires Named(ds)
  {
    if addr + width <= RECORD * (|ds| + 1) then FromBytes(TableBytes(ds, version, date)[addr..addr + width]) else 0
  }

  /** eb_sdb: the socket answers a read of its table, walking the handler list to the device. */
  method Read(ds: seq<Device>, version: nat, date: nat, width: nat, address: nat) returns (out: nat)
    requires width in {1, 2, 4, 8} && address % width == 0 && Named(ds)
    ensures out == TableWord(ds, version, date, width, address)
    ensures address >= 64 * (|ds| + 1) ==> out == 0
  {
    hide EncodeDevice, EncodeInterconnect, FromBytes;
    Aligned(address, width);
    if address < 0x40 {
      var count := 0;
      while count < |ds|
        invariant count <= |ds|
      {
        count := count + 1;
      }
      var record := EncodeInterconnect(count, version, date);
      out := Extract(record, width, address);
      assert TableBytes(ds, version, date)[address..address + width] == record[address..address + width];
      return;
    }
    var dev: int := address / 64;
    var addr := address % 64;
    var i := 0;
    while i < |ds|
      invariant 0 <= i <= |ds| && dev == address / 64 - i && dev > 0
    {
      dev := dev - 1;
      if dev == 0 {
        break;
      }
      i := i + 1;
    }
    if i == |ds| {
      return 0;
    }
    var record := EncodeDevice(ds[i]);
    out := Extract(record, width, addr);
    RecordSlice(ds, version, date, i, addr, width);
  }

  lemma Aligned(address: nat, width: nat)
    requires width in {1, 2, 4, 8} && address % width == 0
    ensures address % 64 + width <= 64
  {
  }

  lemma Inside(a: seq<byte>, b: seq<byte>, at: nat, n: nat)
    requires at + n <= |b|
    ensures (a + b)[|a| + at..|a| + at + n] == b[at..at + n]
  {
  }

  lemma Nested(s: seq<byte>, start: nat, size: nat, at: nat, n: nat)
    requires start + size <= |s| && at + n <= size
    ensures s[start..start + size][at..at + n] == s[start + at..start + at + n]
  {
    var inner, outer := s[start..start + size][at..at + n], s[start + at..start + at + n];
    assert forall i | 0 <= i < n :: inner[i] == outer[i];
  }

  lemma RecordSlice(ds: seq<Device>, version: nat, date: nat, k: nat, addr: nat, width: nat)
    requires k < |ds| && addr + width <= RECORD && Named(ds)
    ensures var at := RECORD * (k + 1) + addr;
            at + width <= RECORD * (|ds| + 1)
            && TableBytes(ds, version, date)[at..at + width] == EncodeDevice(ds[k])[addr..addr + width]
  {
    hide EncodeDevice, EncodeInterconnect, EncodeDevices;
    DeviceSlice(ds, k);
    var devices := EncodeDevices(ds);
    Inside(EncodeInterconnect(|ds|, version, date), devices, RECORD * k + addr, width);
    Nested(devices, RECORD * k, RECORD, addr, width);
  }

  /** eb_sdb_fill_block: 0 if everything fitted, 1 if more data follows, -1 at a read that failed. */
  function FillCode(words: seq<Outcome>, stride: nat, room: nat): int {
    if |words| == 0 then 0
    else if words[0].fault then -1
    else if room < stride then 1
    else FillCode(words[1..], stride, room - stride)
  }

  function Filled(words: seq<Outcome>, stride: nat, room: nat): (s: seq<byte>)
    ensures |s| <= room
  {
    if |words| == 0 || words[0].fault || room < stride then []
    else ToBytes(words[0].value, stride) + Filled(words[1..], stride, room - stride)
  }

  method PutWord(buf: array<byte>, at: nat, value: nat, stride: nat)
    requires at + stride <= buf.Length
    modifies buf
    ensures buf[..at + stride] == old(buf[..at]) + ToBytes(value, stride) && buf[at + stride..] == old(buf[at + stride..])
  {
    var data, i := value, stride;
    while i > 0
      invariant 0 <= i <= stride
      invariant ToBytes(value, stride) == ToBytes(data, i) + buf[at + i..at + stride]
      invariant buf[..at] == old(buf[..at]) && buf[at + stride..] == old(buf[at + stride..])
    {
      i := i - 1;
      ghost var was := buf[at + i + 1..at + stride];
      buf[at + i] := data % 256;
      assert buf[at + i..at + stride] == [data % 256] + was;
      data := data / 256;
    }
    assert ToBytes(data, 0) == [];
    assert buf[..at + stride] == buf[..at] + buf[at..at + stride];
  }

  method FillBlock(buf: array<byte>, words: seq<Outcome>, stride: nat) returns (code: int)
    requires stride > 0
    modifies buf
    ensures code == FillCode(words, stride, buf.Length)
    ensures buf[..|Filled(words, stride, buf.Length)|] == Filled(words, stride, buf.Length)
  {
    hide ToBytes, FillCode, Filled;
    var i, ptr := 0, 0;
    ghost var done: seq<byte> := [];
    while i < |words|
      invariant 0 <= i <= |words| && ptr <= buf.Length && buf[..ptr] == done && |done| == ptr
      invariant FillCode(words, stride, buf.Length) == FillCode(words[i..], stride, buf.Length - ptr)
      invariant Filled(words, stride, buf.Length) == done + Filled(words[i..], stride, buf.Length - ptr)
    {
      assert words[i..][1..] == words[i + 1..];
      FillStep(words[i..], stride, buf.Length - ptr);
      if words[i].fault {
        return -1;
      }
      if buf.Length - ptr < stride {
        return 1;
      }
      PutWord(buf, ptr, words[i].value, stride);
      Regroup(done, ToBytes(words[i].value, stride), Filled(words[i + 1..], stride, buf.Length - ptr - stride));
      done := done + ToBytes(words[i].value, stride);
      i, ptr := i + 1, ptr + stride;
    }
    FillStep(words[i..], stride, buf.Length - ptr);
    return 0;
  }

  lemma FillStep(words: seq<Outcome>, stride: nat, room: nat)
    ensures var stop := |words| == 0 || words[0].fault || room < stride;
            && (stop ==> FillCode(words, stride, room) == (if |words| == 0 then 0 else if words[0].fault then -1 else 1))
            && (stop ==> forall s: seq<byte> :: s + Filled(words, stride, room) == s)
            && (!stop ==> FillCode(words, stride, room) == FillCode(words[1..], stride, room - stride))
            && (!stop ==> Filled(words, stride, room) == ToBytes(words[0].value, stride) + Filled(words[1..], stride, room - stride))
  {
  }

  /** The first n reads did not fail. */
  predicate Fine(words: seq<Outcome>, n: nat)
    requires n <= |words|
  {
    forall i | 0 <= i < n :: !words[i].fault
  }

  /** What the code says: 0 if all reads are fine and fit; -1 if there is room up to the first that failed; and 1 if
      the room ends in front of one that is fine. */
  lemma {:induction false} FillIff(words: seq<Outcome>, stride: nat, room: nat)
    requires stride > 0
    ensures FillCode(words, stride, room) == 0 <==> Fine(words, |words|) && Span(|words|, stride) <= room
    ensures FillCode(words, stride, room) == -1 <==> exists i | 0 <= i < |words| :: words[i].fault && Fine(words, i) && Span(i, stride) <= room
    ensures FillCode(words, stride, room) in {0, 1, -1}
    decreases |words|
  {
    if |words| > 0 && !words[0].fault && room >= stride {
      FillIff(words[1..], stride, room - stride);
      FineStep(words);
      hide Fine;
      assert Span(|words|, stride) == stride + Span(|words[1..]|, stride);
      if FillCode(words, stride, room) == -1 {
        var i :| 0 <= i < |words[1..]| && words[1..][i].fault && Fine(words[1..], i) && Span(i, stride) <= room - stride;
        assert words[i + 1].fault && Fine(words, i + 1) && Span(i + 1, stride) <= room;
      }
      forall i | 0 <= i < |words| && words[i].fault && Fine(words, i) && Span(i, stride) <= room
        ensures FillCode(words, stride, room) == -1
      {
        assert words[1..][i - 1].fault && Fine(words[1..], i - 1) && Span(i - 1, stride) <= room - stride;
      }
    } else if |words| > 0 && words[0].fault {
      assert words[0].fault && Fine(words, 0) && Span(0, stride) <= room;
    } else if |words| > 0 {
      forall i | 0 < i < |words| ensures Span(i, stride) > room {
        assert Span(i, stride) == stride + Span(i - 1, stride);
      }
      assert Span(|words|, stride) == stride + Span(|words| - 1, stride);
    }
  }

  lemma FineStep(words: seq<Outcome>)
    requires |words| > 0 && !words[0].fault
    ensures forall n | 0 <= n < |words| :: Fine(words, n + 1) <==> Fine(words[1..], n)
  {
    forall n | 0 <= n < |words| ensures Fine(words, n + 1) <==> Fine(words[1..], n) {
      assert Fine(words[1..], n) ==> forall i | 0 < i < n + 1 :: words[i] == words[1..][i - 1];
    }
  }

  function Values(words: seq<Outcome>): (vs: seq<nat>)
    ensures |vs| == |words|
  {
    if |words| == 0 then [] else [words[0].value] + Values(words[1..])
  }

  /** The buffer holds the values in front of the read where filling stops. */
  lemma {:induction false} FilledIs(words: seq<Outcome>, stride: nat, room: nat, n: nat)
    requires stride > 0 && n <= |words| && Fine(words, n) && Span(n, stride) <= room
    requires n == |words| || words[n].fault || room < Span(n + 1, stride)
    ensures Filled(words, stride, room) == WordBytes(Values(words[..n]), stride)
    decreases |words|
  {
    hide ToBytes;
    if n > 0 {
      FineStep(words);
      assert words[..n][1..] == words[1..][..n - 1];
      FilledIs(words[1..], stride, room - stride, n - 1);
    }
  }

  /** Reads without failures that fit, or fill the room exactly and go on. */
  lemma {:induction false} FillAll(words: seq<Outcome>, values: seq<nat>, stride: nat, room: nat)
    requires stride > 0 && |words| == |values| && forall i | 0 <= i < |words| :: words[i] == Outcome(values[i], false)
    ensures Span(|words|, stride) <= room ==> FillCode(words, stride, room) == 0 && Filled(words, stride, room) == WordBytes(values, stride)
    ensures forall n: nat :: n < |words| && room == Span(n, stride) ==> FillCode(words, stride, room) == 1 && Filled(words, stride, room) == WordBytes(values[..n], stride)
    decreases |words|
  {
    hide ToBytes;
    if |words| > 0 && room >= stride {
      FillAll(words[1..], values[1..], stride, room - stride);
      forall n: nat | n < |words| && room == Span(n, stride)
        ensures FillCode(words, stride, room) == 1 && Filled(words, stride, room) == WordBytes(values[..n], stride)
      {
        assert n > 0 && room - stride == Span(n - 1, stride);
        assert values[..n][1..] == values[1..][..n - 1];
      }
    }
  }

  /** Taking bytes apart into words and putting them together again. */
  lemma {:induction false} WordsOfBytes(bytes: seq<byte>, n: nat, stride: nat)
    requires Span(n, stride) <= |bytes|
    ensures WordBytes(ParseWords(bytes, n, stride), stride) == bytes[..Span(n, stride)]
    decreases n
  {
    hide ToBytes, FromBytes;
    if n > 0 {
      WordsOfBytes(bytes[stride..], n - 1, stride);
      BytesRoundTrip(bytes[..stride]);
      assert bytes[..Span(n, stride)] == bytes[..stride] + bytes[stride..][..Span(n - 1, stride)];
    }
  }

  /** A big-endian field of a record. */
  function Field(bytes: seq<byte>, at: nat, n: nat): nat
    requires at + n <= |bytes|
  {
    FromBytes(bytes[at..at + n])
  }

  /** Product fields end with the type byte, the last of the record. */
  function DecodeProduct(r: seq<byte>): Product
    requires |r| == RECORD
  {
    Product(Field(r, 24, 8), Field(r, 32, 4), Field(r, 36, 4), Field(r, 40, 4), r[44..63])
  }

  /** Addresses are relative to the bus the table describes. */
  function Rebase(address: nat, base: nat): nat {
    (address + base) % WORD64
  }

  /** The address behind `base`: their sum in 64 bits. */
  predicate Behind(moved: nat, address: nat, base: nat) {
    moved == if address + base < WORD64 then address + base else address + base - WORD64
  }

  lemma RebaseMoves(address: nat, base: nat)
    requires address < WORD64 && base < WORD64
    ensures Behind(Rebase(address, base), address, base)
  {
  }

  /** The same device, moved to where the bus is. */
  predicate MovedTo(d: Device, base: nat, moved: Device) {
    moved == d.(first := moved.first, last := moved.last) && Behind(moved.first, d.first, base) && Behind(moved.last, d.last, base)
  }

  function DecodeEntry(r: seq<byte>, base: nat): Entry
    requires |r| == RECORD
  {
    if r[63] == DEVICE then
      DeviceEntry(Device(Field(r, 0, 2), r[2], r[3], Field(r, 4, 4), Rebase(Field(r, 8, 8), base), Rebase(Field(r, 16, 8), base), DecodeProduct(r)))
    else if r[63] == BRIDGE then
      BridgeEntry(Rebase(Field(r, 0, 8), base), Rebase(Field(r, 8, 8), base), Rebase(Field(r, 16, 8), base), DecodeProduct(r))
    else if r[63] == INTEGRATION then IntegrationEntry(DecodeProduct(r))
    else OtherEntry(r[63])
  }

  function DecodeInterconnect(r: seq<byte>, base: nat): Interconnect
    requires |r| == RECORD
  {
    Interconnect(Field(r, 0, 4), Field(r, 4, 2), r[6], r[7], Rebase(Field(r, 8, 8), base), Rebase(Field(r, 16, 8), base), DecodeProduct(r))
  }

  function DecodeEntries(bytes: seq<byte>, n: nat, base: nat): (es: seq<Entry>)
    requires |bytes| >= RECORD * n
    ensures |es| == n
  {
    if n == 0 then [] else [DecodeEntry(bytes[..RECORD], base)] + DecodeEntries(bytes[RECORD..], n - 1, base)
  }

  lemma FieldAt(r: seq<byte>, at: nat, n: nat, v: nat)
    requires at + n <= |r| && r[at..at + n] == ToBytes(v, n) && v < Pow256(n)
    ensures Field(r, at, n) == v
  {
    WordRoundTrip(v, n);
  }

  /** The component part of an encoded record, found at its offsets. */
  lemma ComponentAt(r: seq<byte>, head: seq<byte>, first: nat, last: nat, p: Product, kind: byte)
    requires |head| == 8 && |p.name| == 19 && r == head + EncodeComponent(first, last, p, kind)
    requires first < WORD64 && last < WORD64 && ProductFits(p)
    ensures r[..8] == head && Field(r, 8, 8) == first && Field(r, 16, 8) == last && DecodeProduct(r) == p && r[63] == kind
  {
    hide ToBytes, FromBytes, Field;
    Pow256Values();
    var q := EncodeProduct(p, kind);
    assert r[8..16] == ToBytes(first, 8) && r[16..24] == ToBytes(last, 8) && r[24..] == q;
    FieldAt(r, 8, 8, first);
    FieldAt(r, 16, 8, last);
    assert r[24..32] == q[..8] && r[32..36] == q[8..12] && r[36..40] == q[12..16] && r[40..44] == q[16..20] && r[44..63] == q[20..39];
    FieldAt(r, 24, 8, p.vendor);
    FieldAt(r, 32, 4, p.device);
    FieldAt(r, 36, 4, p.version);
    FieldAt(r, 40, 4, p.date);
  }

  /** Decoding a device record restores every field, its addresses moved to where the bus is. */
  lemma DeviceRoundTrip(d: Device, base: nat)
    requires DeviceFits(d)
    ensures DecodeEntry(EncodeDevice(d), base) == DeviceEntry(d.(first := Rebase(d.first, base), last := Rebase(d.last, base)))
    ensures base < WORD64 ==> var e := DecodeEntry(EncodeDevice(d), base); e.DeviceEntry? && MovedTo(d, base, e.device)
    ensures EncodeDevice(d)[63] == 0x01
  {
    hide ToBytes, FromBytes, Field, EncodeComponent, DecodeProduct;
    Pow256Values();
    var head := ToBytes(d.abiClass, 2) + [d.abiMajor, d.abiMinor] + ToBytes(d.specific, 4);
    var r := EncodeDevice(d);
    ComponentAt(r, head, d.first, d.last, d.product, DEVICE);
    assert r[0..2] == head[..2] && r[4..8] == head[4..8] && r[2] == head[2] && r[3] == head[3];
    FieldAt(r, 0, 2, d.abiClass);
    FieldAt(r, 4, 4, d.specific);
    if base < WORD64 {
      RebaseMoves(d.first, base);
      RebaseMoves(d.last, base);
    }
  }

  /** The record of a bridge: the address of the table behind it moves with the bus as well. */
  lemma BridgeRoundTrip(child: nat, first: nat, last: nat, p: Product, base: nat)
    requires child < WORD64 && first < WORD64 && last < WORD64 && ProductFits(p) && base < WORD64
    ensures var e := DecodeEntry(ToBytes(child, 8) + EncodeComponent(first, last, p, 0x02), base);
            e.BridgeEntry? && e.product == p && Behind(e.child, child, base) && Behind(e.first, first, base) && Behind(e.last, last, base)
  {
    hide ToBytes, FromBytes, Field, EncodeComponent, DecodeProduct;
    Pow256Values();
    var r := ToBytes(child, 8) + EncodeComponent(first, last, p, BRIDGE);
    ComponentAt(r, ToBytes(child, 8), first, last, p, BRIDGE);
    assert r[0..8] == r[..8];
    FieldAt(r, 0, 8, child);
    RebaseMoves(child, base);
    RebaseMoves(first, base);
    RebaseMoves(last, base);
  }

  /** Records that hold no addresses: of an integration record the product matters, of others the type. */
  lemma OthersRoundTrip(head: seq<byte>, p: Product, kind: byte, base: nat)
    requires |head| == 24 && ProductFits(p) && kind != 0x01 && kind != 0x02
    ensures DecodeEntry(head + EncodeProduct(p, kind), base) == if kind == 0x80 then IntegrationEntry(p) else OtherEntry(kind)
  {
    hide ToBytes, FromBytes, Field;
    Pow256Values();
    var q := EncodeProduct(p, kind);
    var r := head + q;
    assert r[24..32] == q[..8] && r[32..36] == q[8..12] && r[36..40] == q[12..16] && r[40..44] == q[16..20] && r[44..63] == q[20..39] && r[63] == q[39];
    FieldAt(r, 24, 8, p.vendor);
    FieldAt(r, 32, 4, p.device);
    FieldAt(r, 36, 4, p.version);
    FieldAt(r, 40, 4, p.date);
  }

  lemma InterconnectRoundTrip(devices: nat, version: nat, date: nat, base: nat)
    requires devices < 0xFFFF && version < 0x1_0000_0000 && date < 0x1_0000_0000
    ensures DecodeInterconnect(EncodeInterconnect(devices, version, date), base)
      == Interconnect(MAGIC, devices + 1, 1, 0, Rebase(0, base), Rebase(WORD64 - 1, base), BusProduct(version, date))
    ensures base < WORD64 ==> HeaderMoved(DecodeInterconnect(EncodeInterconnect(devices, version, date), base), devices, version, date, base)
  {
    hide ToBytes, FromBytes, Field, EncodeComponent, DecodeProduct;
    Pow256Values();
    var head := ToBytes(MAGIC, 4) + ToBytes((devices + 1) % 0x1_0000, 2) + [1, 0];
    var r := EncodeInterconnect(devices, version, date);
    ComponentAt(r, head, 0, WORD64 - 1, BusProduct(version, date), INTERCONNECT);
    assert r[0..4] == head[..4] && r[4..6] == head[4..6] && r[6] == head[6] && r[7] == head[7];
    FieldAt(r, 0, 4, MAGIC);
    FieldAt(r, 4, 2, devices + 1);
    if base < WORD64 {
      RebaseMoves(0, base);
      RebaseMoves(WORD64 - 1, base);
    }
  }

  /** The bytes of a text. */
  predicate Spells(bytes: seq<byte>, text: string) {
    |bytes| == |text| && forall i | 0 <= i < |text| :: bytes[i] == text[i] as int
  }

  /** The header of a socket's table, as it is decoded. */
  predicate HeaderMoved(i: Interconnect, devices: nat, version: nat, date: nat, base: nat) {
    && i.magic == 0x5344422D && i.records == devices + 1 && i.version == 1 && i.busType == 0
    && i.product.vendor == 0x651 && i.product.device == 0x02398114 && i.product.version == version && i.product.date == date
    && Spells(i.product.name, "Software-EB-Bus    ")
    && Behind(i.first, 0, base) && Behind(i.last, 0xFFFF_FFFF_FFFF_FFFF, base)
  }

  /** The devices as they appear in a table read from a bus at `base`. */
  function Moved(ds: seq<Device>, base: nat): (es: seq<Entry>)
    ensures |es| == |ds|
  {
    if |ds| == 0 then []
    else [DeviceEntry(ds[0].(first := Rebase(ds[0].first, base), last := Rebase(ds[0].last, base)))] + Moved(ds[1..], base)
  }

  lemma {:induction false} EntriesRoundTrip(ds: seq<Device>, base: nat)
    requires Named(ds) && forall i | 0 <= i < |ds| :: DeviceFits(ds[i])
    ensures DecodeEntries(EncodeDevices(ds), |ds|, base) == Moved(ds, base)
  {
    hide EncodeDevice, DecodeEntry;
    if |ds| > 0 {
      DeviceRoundTrip(ds[0], base);
      EntriesRoundTrip(ds[1..], base);
      assert EncodeDevices(ds)[..RECORD] == EncodeDevice(ds[0]) && EncodeDevices(ds)[RECORD..] == EncodeDevices(ds[1..]);
    }
  }

  function ReadAll(read: nat -> Outcome, address: nat, n: nat, stride: nat): (words: seq<Outcome>)
    ensures |words| == n
    decreases n
  {
    if n == 0 then [] else [read(address)] + ReadAll(read, address + stride, n - 1, stride)
  }

  /** The buffer size chosen for a table, in devices; 0 if there is none that large. */
  function Capacity(devices: nat): (x: nat)
    ensures x > 0 ==> devices < x
    ensures x == 0 <==> devices >= 256
  {
    if devices < 4 then 4 else if devices < 8 then 8 else if devices < 16 then 16 else if devices < 32 then 32
    else if devices < 64 then 64 else if devices < 128 then 128 else if devices < 256 then 256 else 0
  }

  /** The bytes of a buffer that was filled from its front. */
  function Padded(bytes: seq<byte>, size: nat): (s: seq<byte>)
    ensures |bytes| <= size ==> |s| == size
  {
    if |bytes| <= size then bytes + Zeros(size - |bytes|) else bytes
  }

  datatype Scanned = Failed(status: Status) | Got(table: Table)

  function DecodeTable(bytes: seq<byte>, records: nat, base: nat): Table
    requires records > 0 && |bytes| >= RECORD * records
  {
    Table(DecodeInterconnect(bytes[..RECORD], base), DecodeEntries(bytes[RECORD..], records - 1, base))
  }

  /** The whole table was read again: decode it. Without any device nothing follows the header, which the
      scan takes for a failure. */
  function GotAll(words: seq<Outcome>, stride: nat, base: nat): Scanned
  {
    if FillCode(words, stride, RECORD) != 1 then Failed(FAIL) else
      var devices := (Field(Padded(Filled(words, stride, RECORD), RECORD), 4, 2) + 0xFFFF) % 0x1_0000;
      var x := Capacity(devices);
      if x == 0 then Failed(OOM)
      else if FillCode(words, stride, RECORD * (1 + x)) != 0 then Failed(FAIL)
      else Got(DecodeTable(Padded(Filled(words, stride, RECORD * (1 + x)), RECORD * (1 + x)), devices + 1, base))
  }

  /** Scanning the bus whose table is at `header`. */
  function Scan(read: nat -> Outcome, header: nat, stride: nat, base: nat): Scanned
    requires stride in {1, 2, 4, 8}
  {
    var front := ReadAll(read, header, 32 / stride, stride);
    var bytes := Padded(Filled(front, stride, RECORD), RECORD);
    if FillCode(front, stride, RECORD) != 0 || Field(bytes, 0, 4) != MAGIC then Failed(FAIL)
    else GotAll(ReadAll(read, header, Field(bytes, 4, 2) * RECORD / stride, stride), stride, base)
  }

  /** Reading the local table of a socket; reads behind its address range belong to the devices. */
  function Local(ds: seq<Device>, version: nat, date: nat, stride: nat): nat -> Outcome
    requires Named(ds)
  {
    (address: nat) => Outcome(TableWord(ds, version, date, stride, address), false)
  }

  /** Reading `n` words from an address of the table yields its bytes from there. */
  lemma {:induction false} LocalWords(ds: seq<Device>, version: nat, date: nat, stride: nat, address: nat, n: nat)
    requires Named(ds) && stride > 0 && address + Span(n, stride) <= RECORD * (|ds| + 1)
    ensures var words := ReadAll(Local(ds, version, date, stride), address, n, stride);
            var values := ParseWords(TableBytes(ds, version, date)[address..], n, stride);
            forall i | 0 <= i < n :: words[i] == Outcome(values[i], false)
    decreases n
  {
    hide TableBytes, FromBytes;
    if n > 0 {
      var bytes := TableBytes(ds, version, date);
      LocalWords(ds, version, date, stride, address + stride, n - 1);
      assert bytes[address..][..stride] == bytes[address..address + stride];
      assert bytes[address..][stride..] == bytes[address + stride..];
      var words, values := ReadAll(Local(ds, version, date, stride), address, n, stride), ParseWords(bytes[address..], n, stride);
      assert words[0] == Outcome(values[0], false);
      assert words[1..] == ReadAll(Local(ds, version, date, stride), address + stride, n - 1, stride);
      assert values[1..] == ParseWords(bytes[address + stride..], n - 1, stride);
      forall i | 0 < i < n ensures words[i] == Outcome(values[i], false) {
        assert words[i] == words[1..][i - 1] && values[i] == values[1..][i - 1];
      }
    }
  }

  /** Whole multiples of eight bytes are whole words of any width. */
  lemma SpanOf(bytes: nat, stride: nat)
    requires stride in {1, 2, 4, 8} && bytes % 8 == 0
    ensures Span(bytes / stride, stride) == bytes
  {
    var k := bytes / 8;
    assert bytes == 8 * k;
    var n := if stride == 1 then 8 * k else if stride == 2 then 4 * k else if stride == 4 then 2 * k else k;
    assert bytes / stride == n;
    SpanIsProduct(n, stride);
    hide Span;
    assert n * stride == bytes;
  }

  /** `n` words read from the start of the table, filled into a buffer with room for `k`. */
  lemma LocalBlock(ds: seq<Device>, version: nat, date: nat, stride: nat, n: nat, k: nat)
    requires Named(ds) && stride > 0 && Span(n, stride) <= RECORD * (|ds| + 1)
    ensures var words := ReadAll(Local(ds, version, date, stride), 0, n, stride);
            && FillCode(words, stride, Span(k, stride)) == (if n <= k then 0 else 1)
            && Span(if n <= k then n else k, stride) <= RECORD * (|ds| + 1)
            && Filled(words, stride, Span(k, stride)) == TableBytes(ds, version, date)[..Span(if n <= k then n else k, stride)]
  {
    hide *;
    var bytes := TableBytes(ds, version, date);
    LocalWords(ds, version, date, stride, 0, n);
    assert bytes[0..] == bytes;
    var words, values := ReadAll(Local(ds, version, date, stride), 0, n, stride), ParseWords(bytes, n, stride);
    assert values == ParseWords(bytes[0..], n, stride);
    FillAll(words, values, stride, Span(k, stride));
    WordsOfBytes(bytes, n, stride);
    if n <= k {
      SpanMonotone(n, k, stride);
    } else {
      WordsPrefix(bytes, n, k, stride);
      WordsOfBytes(bytes, k, stride);
    }
  }

  lemma {:induction false} SpanMonotone(n: nat, k: nat, stride: nat)
    requires n <= k
    ensures Span(n, stride) <= Span(k, stride)
  {
    if n < k {
      SpanMonotone(n, k - 1, stride);
    }
  }

  lemma {:induction false} WordsPrefix(bytes: seq<byte>, n: nat, k: nat, stride: nat)
    requires Span(n, stride) <= |bytes| && k <= n
    ensures Span(k, stride) <= |bytes| && ParseWords(bytes, n, stride)[..k] == ParseWords(bytes, k, stride)
    decreases k
  {
    hide FromBytes;
    if k > 0 {
      WordsPrefix(bytes[stride..], n - 1, k - 1, stride);
    } else {
      assert Span(0, stride) == 0;
    }
  }

  /** What the header of the local table says. */
  lemma LocalHeader(ds: seq<Device>, version: nat, date: nat, size: nat)
    requires Named(ds) && |ds| < 0xFFFF && 32 <= size <= RECORD
    ensures var bytes := Padded(TableBytes(ds, version, date)[..size], RECORD);
            |bytes| == RECORD && Field(bytes, 0, 4) == MAGIC && Field(bytes, 4, 2) == |ds| + 1
  {
    hide ToBytes, FromBytes, Field, EncodeComponent, EncodeDevices;
    Pow256Values();
    var head := ToBytes(MAGIC, 4) + ToBytes((|ds| + 1) % 0x1_0000, 2) + [1, 0];
    var bytes := Padded(TableBytes(ds, version, date)[..size], RECORD);
    assert EncodeInterconnect(|ds|, version, date)[..8] == head;
    assert TableBytes(ds, version, date)[..8] == head;
    assert bytes[..8] == head;
    assert bytes[0..4] == head[..4] && bytes[4..6] == head[4..6];
    FieldAt(bytes, 0, 4, MAGIC);
    FieldAt(bytes, 4, 2, |ds| + 1);
  }

  /** The second read, of the whole table. */
  lemma LocalGot(ds: seq<Device>, version: nat, date: nat, stride: nat, base: nat)
    requires stride in {1, 2, 4, 8} && Named(ds) && (forall i | 0 <= i < |ds| :: DeviceFits(ds[i])) && |ds| < 256
    requires version < 0x1_0000_0000 && date < 0x1_0000_0000
    ensures GotAll(ReadAll(Local(ds, version, date, stride), 0, RECORD * (|ds| + 1) / stride, stride), stride, base) == (
              if |ds| == 0 then Failed(FAIL) else Got(LocalTable(ds, version, date, base)))
  {
    hide TableBytes, FillCode, Filled, Field, DecodeTable, DeviceFits, ReadAll, Local, Span, LocalTable, Capacity, Padded;
    var size := RECORD * (|ds| + 1);
    SpanOf(RECORD, stride);
    SpanOf(size, stride);
    Divided(size, RECORD, stride);
    LocalBlock(ds, version, date, stride, size / stride, RECORD / stride);
    if |ds| > 0 {
      var room := RECORD * (1 + Capacity(|ds|));
      LocalHeader(ds, version, date, RECORD);
      SpanOf(room, stride);
      Divided(size, room, stride);
      LocalBlock(ds, version, date, stride, size / stride, room / stride);
      var bytes := TableBytes(ds, version, date);
      assert bytes[..size] == bytes;
      LocalDecode(ds, version, date, room, base);
    }
  }

  /** What a scan of the local table ought to show. */
  function LocalTable(ds: seq<Device>, version: nat, date: nat, base: nat): Table {
    Table(Interconnect(MAGIC, |ds| + 1, 1, 0, Rebase(0, base), Rebase(WORD64 - 1, base), BusProduct(version, date)), Moved(ds, base))
  }

  /** The header, and every device in list order, moved to where the bus is. */
  predicate TableMoved(t: Table, ds: seq<Device>, version: nat, date: nat, base: nat) {
    && HeaderMoved(t.interconnect, |ds|, version, date, base) && |t.entries| == |ds|
    && forall i | 0 <= i < |ds| :: t.entries[i].DeviceEntry? && MovedTo(ds[i], base, t.entries[i].device)
  }

  lemma LocalMoved(ds: seq<Device>, version: nat, date: nat, base: nat)
    requires base < WORD64 && forall i | 0 <= i < |ds| :: DeviceFits(ds[i])
    ensures TableMoved(LocalTable(ds, version, date, base), ds, version, date, base)
  {
    hide Rebase;
    RebaseMoves(0, base);
    RebaseMoves(WORD64 - 1, base);
    EntriesMoved(ds, base);
  }

  lemma {:induction false} EntriesMoved(ds: seq<Device>, base: nat)
    requires base < WORD64 && forall i | 0 <= i < |ds| :: DeviceFits(ds[i])
    ensures forall i | 0 <= i < |ds| :: Moved(ds, base)[i].DeviceEntry? && MovedTo(ds[i], base, Moved(ds, base)[i].device)
  {
    if |ds| > 0 {
      hide Rebase, MovedTo;
      EntriesMoved(ds[1..], base);
      forall i | 0 < i < |ds| ensures Moved(ds, base)[i].DeviceEntry? && MovedTo(ds[i], base, Moved(ds, base)[i].device) {
        assert Moved(ds, base)[i] == Moved(ds[1..], base)[i - 1] && ds[i] == ds[1..][i - 1];
      }
      FirstMoved(ds, base);
    }
  }

  lemma FirstMoved(ds: seq<Device>, base: nat)
    requires base < WORD64 && |ds| > 0 && DeviceFits(ds[0])
    ensures Moved(ds, base)[0].DeviceEntry? && MovedTo(ds[0], base, Moved(ds, base)[0].device)
  {
    RebaseMoves(ds[0].first, base);
    RebaseMoves(ds[0].last, base);
  }

  /** The table of a socket with 1 to 255 devices, read at any width, comes back whole: the record count,
      and every device in list order with every field. A socket without devices cannot be scanned. */
  lemma TableRoundTrip(ds: seq<Device>, version: nat, date: nat, stride: nat, base: nat)
    requires stride in {1, 2, 4, 8} && Named(ds) && (forall i | 0 <= i < |ds| :: DeviceFits(ds[i])) && |ds| < 256
    requires version < 0x1_0000_0000 && date < 0x1_0000_0000
    ensures Scan(Local(ds, version, date, stride), 0, stride, base)
         == (if |ds| == 0 then Failed(FAIL) else Got(LocalTable(ds, version, date, base)))
    ensures |ds| > 0 && base < WORD64 ==> TableMoved(LocalTable(ds, version, date, base), ds, version, date, base)
  {
    hide TableBytes, FillCode, Filled, Field, GotAll, DeviceFits, ReadAll, Local, Span, LocalTable, Padded, TableMoved;
    if base < WORD64 {
      LocalMoved(ds, version, date, base);
    }
    SpanOf(32, stride);
    SpanOf(RECORD, stride);
    Divided(32, RECORD, stride);
    LocalBlock(ds, version, date, stride, 32 / stride, RECORD / stride);
    LocalHeader(ds, version, date, 32);
    LocalGot(ds, version, date, stride, base);
  }

  lemma Divided(a: nat, b: nat, stride: nat)
    requires stride in {1, 2, 4, 8} && a % 8 == 0 && b % 8 == 0
    ensures a / stride <= b / stride <==> a <= b
  {
    var j, k := a / 8, b / 8;
    assert a == 8 * j && b == 8 * k;
    if stride == 1 {
      assert a / 1 == a && b / 1 == b;
    } else if stride == 2 {
      assert a / 2 == 4 * j && b / 2 == 4 * k;
    } else if stride == 4 {
      assert a / 4 == 2 * j && b / 4 == 2 * k;
    } else {
      assert a / 8 == j && b / 8 == k;
    }
  }

  lemma LocalDecode(ds: seq<Device>, version: nat, date: nat, size: nat, base: nat)
    requires Named(ds) && (forall i | 0 <= i < |ds| :: DeviceFits(ds[i])) && |ds| < 256 && size >= RECORD * (|ds| + 1)
    requires version < 0x1_0000_0000 && date < 0x1_0000_0000
    ensures DecodeTable(Padded(TableBytes(ds, version, date), size), |ds| + 1, base)
         == LocalTable(ds, version, date, base)
  {
    hide EncodeInterconnect, EncodeDevices, DecodeInterconnect, DecodeEntries, BusProduct, DeviceFits, Rebase, Moved;
    var bytes := Padded(TableBytes(ds, version, date), size);
    assert bytes[..RECORD] == EncodeInterconnect(|ds|, version, date);
    assert bytes[RECORD..] == EncodeDevices(ds) + bytes[RECORD * (|ds| + 1)..];
    InterconnectRoundTrip(|ds|, version, date, base);
    EntriesRoundTrip(ds, base);
    EntriesPrefix(EncodeDevices(ds), bytes[RECORD * (|ds| + 1)..], |ds|, base);
  }

  lemma {:induction false} EntriesPrefix(a: seq<byte>, b: seq<byte>, n: nat, base: nat)
    requires |a| == RECORD * n
    ensures DecodeEntries(a + b, n, base) == DecodeEntries(a, n, base)
    decreases n
  {
    hide DecodeEntry;
    if n > 0 {
      assert (a + b)[..RECORD] == a[..RECORD] && (a + b)[RECORD..] == a[RECORD..] + b;
      EntriesPrefix(a[RECORD..], b, n - 1, base);
    }
  }

  // When a scan succeeds, whatever the other side answers.

  lemma {:induction false} ReadAllPrefix(read: nat -> Outcome, address: nat, n: nat, k: nat, stride: nat)
    requires k <= n
    ensures ReadAll(read, address, n, stride)[..k] == ReadAll(read, address, k, stride)
    decreases k
  {
    if k > 0 {
      ReadAllPrefix(read, address + stride, n - 1, k - 1, stride);
    }
  }

  lemma {:induction false} ValuesPrefix(words: seq<Outcome>, k: nat, stride: nat)
    requires k <= |words|
    ensures |WordBytes(Values(words[..k]), stride)| <= |WordBytes(Values(words), stride)|
    ensures WordBytes(Values(words), stride)[..|WordBytes(Values(words[..k]), stride)|] == WordBytes(Values(words[..k]), stride)
    decreases k
  {
    hide ToBytes;
    if k > 0 {
      ValuesPrefix(words[1..], k - 1, stride);
      assert words[..k][1..] == words[1..][..k - 1];
    }
  }

  lemma {:induction false} ValuesLength(words: seq<Outcome>, stride: nat)
    ensures |WordBytes(Values(words), stride)| == Span(|words|, stride)
  {
    hide ToBytes;
    if |words| > 0 {
      ValuesLength(words[1..], stride);
    }
  }

  /** The first half of the header, as it is read. */
  function Front(read: nat -> Outcome, header: nat, stride: nat): (words: seq<Outcome>)
    requires stride in {1, 2, 4, 8}
  {
    ReadAll(read, header, 32 / stride, stride)
  }

  function FrontBytes(read: nat -> Outcome, header: nat, stride: nat): (bytes: seq<byte>)
    requires stride in {1, 2, 4, 8}
    ensures |bytes| == 32
  {
    ValuesLength(Front(read, header, stride), stride);
    SpanOf(32, stride);
    WordBytes(Values(Front(read, header, stride)), stride)
  }

  /** The magic number, and how many records the table has. */
  predicate HasMagic(read: nat -> Outcome, header: nat, stride: nat)
    requires stride in {1, 2, 4, 8}
  {
    var words := Front(read, header, stride);
    Fine(words, |words|) && FromBytes(FrontBytes(read, header, stride)[..4]) == 0x5344422D
  }

  function RecordCount(read: nat -> Outcome, header: nat, stride: nat): nat
    requires stride in {1, 2, 4, 8}
  {
    FromBytes(FrontBytes(read, header, stride)[4..6])
  }

  /** A scan succeeds exactly if the header is read and has the magic number, the table has 2 to 256 records, and all
      of it is read. A larger table is reported as lack of memory, everything else as a failure. */
  lemma ScanIff(read: nat -> Outcome, header: nat, stride: nat, base: nat)
    requires stride in {1, 2, 4, 8}
    ensures var n := RecordCount(read, header, stride);
            var all := ReadAll(read, header, n * 64 / stride, stride);
            var found := Scan(read, header, stride, base);
            && (found.Got? <==> HasMagic(read, header, stride) && 2 <= n <= 256 && Fine(all, |all|))
            && (found == Failed(OOM) <==> HasMagic(read, header, stride) && n > 256 && Fine(all, 64 / stride + 1))
            && (found.Failed? ==> found.status == OOM || found.status == FAIL)
  {
    var front := Front(read, header, stride);
    var n := RecordCount(read, header, stride);
    var all := ReadAll(read, header, n * 64 / stride, stride);
    ScanFront(read, header, stride, base);
    CountFits(read, header, stride);
    WordsOf(n, stride);
    if HasMagic(read, header, stride) {
      AllRead(read, header, stride, base);
    }
    hide *;
  }

  lemma CountFits(read: nat -> Outcome, header: nat, stride: nat)
    requires stride in {1, 2, 4, 8}
    ensures RecordCount(read, header, stride) < 0x1_0000
  {
    FromBytesBound(FrontBytes(read, header, stride)[4..6]);
    Pow256Values();
    hide FrontBytes, FromBytes;
  }

  lemma WordsOf(n: nat, stride: nat)
    requires stride in {1, 2, 4, 8}
    ensures Span(n * 64 / stride, stride) == n * 64 && (n >= 2 ==> 64 / stride + 1 <= n * 64 / stride)
    ensures Span(32 / stride, stride) == 32 && Span(64 / stride, stride) == 64 && 32 / stride <= 64 / stride
  {
    SpanOf(n * 64, stride);
    SpanOf(32, stride);
    SpanOf(64, stride);
    Divided(32, 64, stride);
    if n >= 2 {
      Divided(128, n * 64, stride);
    }
  }

  lemma ScanFront(read: nat -> Outcome, header: nat, stride: nat, base: nat)
    requires stride in {1, 2, 4, 8}
    ensures Scan(read, header, stride, base) ==
              if !HasMagic(read, header, stride) then Failed(FAIL)
              else GotAll(ReadAll(read, header, RecordCount(read, header, stride) * 64 / stride, stride), stride, base)
  {
    var words := Front(read, header, stride);
    SpanOf(32, stride);
    FrontFilled(words, stride);
    hide ReadAll, FillCode, Filled, GotAll, WordBytes, FromBytes, Values, Span, Fine, Padded, Field;
  }

  lemma FrontFilled(words: seq<Outcome>, stride: nat)
    requires stride > 0 && Span(|words|, stride) == 32
    ensures FillCode(words, stride, RECORD) == 0 <==> Fine(words, |words|)
    ensures var bytes, front := Padded(Filled(words, stride, RECORD), RECORD), WordBytes(Values(words), stride);
            && |bytes| == RECORD && |front| == 32
            && (Fine(words, |words|) ==> Field(bytes, 0, 4) == FromBytes(front[..4]) && Field(bytes, 4, 2) == FromBytes(front[4..6]))
  {
    hide FillCode, Filled, WordBytes, FromBytes, Values, Span, Fine;
    ValuesLength(words, stride);
    FillIff(words, stride, RECORD);
    if Fine(words, |words|) {
      FilledIs(words, stride, RECORD, |words|);
      assert words[..|words|] == words;
      var bytes, front := Padded(Filled(words, stride, RECORD), RECORD), WordBytes(Values(words), stride);
      assert bytes[0..4] == front[..4] && bytes[4..6] == front[4..6];
    }
  }

  lemma AllRead(read: nat -> Outcome, header: nat, stride: nat, base: nat)
    requires stride in {1, 2, 4, 8}
    requires var n := RecordCount(read, header, stride); n < 0x1_0000 && Span(n * 64 / stride, stride) == n * 64
    ensures var n := RecordCount(read, header, stride);
            var all := ReadAll(read, header, n * 64 / stride, stride);
            var found := GotAll(all, stride, base);
            && (n >= 2 ==> 64 / stride + 1 <= |all|)
            && (found.Got? <==> 2 <= n <= 256 && Fine(all, |all|))
            && (found == Failed(OOM) <==> n > 256 && Fine(all, 64 / stride + 1))
            && (found.Failed? ==> found.status == OOM || found.status == FAIL)
  {
    hide *;
    var n := RecordCount(read, header, stride);
    var all := ReadAll(read, header, n * 64 / stride, stride);
    WordsOf(n, stride);
    OneFull(all, stride, n, 64 / stride);
    FineShorter(all, if n >= 2 then 64 / stride + 1 else 0);
    FrontIs(read, header, stride);
    if FillCode(all, stride, RECORD) == 1 {
      SameCount(read, header, stride, n * 64 / stride, 64 / stride, 32 / stride);
    }
    GotAllIs(all, stride, base, n);
  }

  /** What is made of the second read, when it shows that the table has `n` records. */
  lemma GotAllIs(all: seq<Outcome>, stride: nat, base: nat, n: nat)
    requires stride > 0 && n < 0x1_0000 && Span(|all|, stride) == n * 64 && (FillCode(all, stride, RECORD) == 1 ==> n >= 2)
    requires FillCode(all, stride, RECORD) == 1 ==> |Padded(Filled(all, stride, RECORD), RECORD)| == RECORD && Field(Padded(Filled(all, stride, RECORD), RECORD), 4, 2) == n
    ensures var found := GotAll(all, stride, base);
            && (found.Got? <==> FillCode(all, stride, RECORD) == 1 && n <= 256 && Fine(all, |all|))
            && (found == Failed(OOM) <==> FillCode(all, stride, RECORD) == 1 && n > 256)
            && (found.Failed? ==> found.status == OOM || found.status == FAIL)
  {
    hide FillCode, Filled, Fine, Span, DecodeTable, Field, Padded, Capacity;
    if FillCode(all, stride, RECORD) == 1 {
      FillIff(all, stride, RECORD * (1 + Capacity(n - 1)));
      assert (n + 0xFFFF) % 0x1_0000 == n - 1;
    }
  }

  lemma FineShorter(words: seq<Outcome>, n: nat)
    requires n <= |words|
    ensures Fine(words, |words|) ==> Fine(words, n)
  {}

  /** The room for one record is used up exactly if there are more, and the reads are fine up to the next. */
  lemma OneFull(all: seq<Outcome>, stride: nat, n: nat, k: nat)
    requires stride in {1, 2, 4, 8} && k == 64 / stride && Span(|all|, stride) == n * 64
    requires n >= 2 ==> k + 1 <= |all|
    ensures FillCode(all, stride, RECORD) == 1 <==> n >= 2 && Fine(all, k + 1)
  {
    SpanOf(64, stride);
    FillIff(all, stride, RECORD);
    assert Span(k + 1, stride) == stride + Span(k, stride);
    hide FillCode, Span, Fine;
    if n >= 2 {
      if Fine(all, k + 1) {
        forall i | 0 <= i < |all| && all[i].fault && Fine(all, i) ensures Span(i, stride) > RECORD {
          NotBefore(all, k + 1, i);
          SpanMonotone(k + 1, i, stride);
        }
        FineOrNot(all, k + 1, stride, n);
      } else {
        var i := FirstFault(all, k + 1);
        SpanMonotone(i, k, stride);
      }
    } else if !Fine(all, |all|) {
      var i := FirstFault(all, |all|);
      SpanMonotone(i, |all|, stride);
    }
  }

  lemma NotBefore(words: seq<Outcome>, n: nat, i: nat)
    requires n <= |words| && Fine(words, n) && i < |words| && words[i].fault
    ensures i >= n
  {}

  /** More than one record does not fit the room of one. */
  lemma FineOrNot(words: seq<Outcome>, n: nat, stride: nat, records: nat)
    requires records >= 2 && Span(|words|, stride) == records * 64
    ensures Span(|words|, stride) > RECORD
  {}

  lemma {:induction false} FirstFault(words: seq<Outcome>, n: nat) returns (i: nat)
    requires n <= |words| && !Fine(words, n)
    ensures i < n && words[i].fault && Fine(words, i)
    decreases n
  {
    if Fine(words, n - 1) {
      i := n - 1;
    } else {
      i := FirstFault(words, n - 1);
    }
  }

  /** The second read shows the same record count. */
  lemma SameCount(read: nat -> Outcome, header: nat, stride: nat, m: nat, k: nat, j: nat)
    requires stride > 0 && j <= k < m && Span(k, stride) == 64 && Span(j, stride) == 32
    requires Fine(ReadAll(read, header, m, stride), k + 1)
    ensures var bytes := Padded(Filled(ReadAll(read, header, m, stride), stride, RECORD), RECORD);
            && |WordBytes(Values(ReadAll(read, header, j, stride)), stride)| == 32
            && |bytes| == RECORD && Field(bytes, 4, 2) == FromBytes(WordBytes(Values(ReadAll(read, header, j, stride)), stride)[4..6])
  {
    hide *;
    var all := ReadAll(read, header, m, stride);
    ReadAllPrefix(read, header, m, j, stride);
    ValuesLength(ReadAll(read, header, j, stride), stride);
    RecordFilled(all, stride, k, j);
  }

  lemma FrontIs(read: nat -> Outcome, header: nat, stride: nat)
    requires stride in {1, 2, 4, 8}
    ensures |WordBytes(Values(ReadAll(read, header, 32 / stride, stride)), stride)| == 32
    ensures RecordCount(read, header, stride) == FromBytes(WordBytes(Values(ReadAll(read, header, 32 / stride, stride)), stride)[4..6])
  {
    assert |FrontBytes(read, header, stride)| == 32;
    hide ReadAll, WordBytes, Values, FromBytes;
  }

  lemma RecordFilled(all: seq<Outcome>, stride: nat, k: nat, j: nat)
    requires stride > 0 && j <= k < |all| && Fine(all, k + 1) && Span(k, stride) == 64 && Span(j, stride) == 32
    requires |WordBytes(Values(all[..j]), stride)| == 32
    ensures var bytes := Padded(Filled(all, stride, RECORD), RECORD);
            |bytes| == RECORD && Field(bytes, 4, 2) == FromBytes(WordBytes(Values(all[..j]), stride)[4..6])
  {
    hide ReadAll, FillCode, Filled, WordBytes, FromBytes, Values, Fine;
    FineShorterTo(all, k, k + 1);
    assert Span(k + 1, stride) == stride + Span(k, stride);
    FilledIs(all, stride, RECORD, k);
    var bytes := Filled(all, stride, RECORD);
    ValuesLength(all[..k], stride);
    ValuesPrefix(all[..k], j, stride);
    assert all[..k][..j] == all[..j];
    assert Padded(bytes, RECORD)[4..6] == bytes[..32][4..6];
  }

  lemma FineShorterTo(words: seq<Outcome>, a: nat, b: nat)
    requires a <= b <= |words| && Fine(words, b)
    ensures Fine(words, a)
  {}
}
