/**
 What a flush puts on the wire: datagrams of whole cycles in queue order, none longer than the MTU;
 or, on a stream, exactly the accepted cycles' bytes one after the other.
 */
module Packets {
  import opened Words
  import opened Lanes
  import opened Records
  import opened Operations
  import opened Packer
  import opened Meaning
  import opened Responses
  import opened Delivery
  import EndToEnd
  import opened Wire
  import opened Flush

  function Flatten(ss: seq<seq<byte>>): (s: seq<byte>) {
    if |ss| == 0 then [] else ss[0] + Flatten(ss[1..])
  }

  lemma {:induction false} FlattenConcat(a: seq<seq<byte>>, b: seq<seq<byte>>)
    ensures Flatten(a + b) == Flatten(a) + Flatten(b)
  {
    if |a| == 0 {
      assert a + b == b;
    } else {
      FlattenConcat(a[1..], b);
      assert (a + b)[1..] == a[1..] + b;
      Regroup(a[0], Flatten(a[1..]), Flatten(b));
    }
  }

  lemma FlattenOne(a: seq<seq<byte>>, x: seq<byte>)
    ensures Flatten(a + [x]) == Flatten(a) + x
  {
    FlattenConcat(a, [x]);
    assert [x][1..] == [];
    assert Flatten([x]) == x + [];
  }

  /** All the bytes packed from `pos` on. */
  function PackedBytes(port: Port, ops: seq<Operation>, count: nat, checked: bool, rba: nat): (bytes: seq<byte>)
    requires port.Valid() && ValidOperations(port, ops) && Pending(port, ops, count, checked) && rba < 0xFFFF
  {
    CompileFits(port, ops, count, checked, rba);
    EncodeAll(port, Compile(port, ops, count, checked, rba))
  }

  /** The records of a cycle, one by one. */
  lemma PackedBytesStep(port: Port, ops: seq<Operation>, pos: nat, count: nat, checked: bool, rba: nat)
    requires port.Valid() && pos <= |ops| && ValidOperations(port, ops[pos..])
    requires Pending(port, ops[pos..], count, checked) && rba < 0xFFFF
    ensures var p := PlanRecord(port, ops[pos..], count, checked);
            var next := pos + p.w + p.r;
            && next <= |ops| && ValidOperations(port, ops[next..])
            && (!p.last ==> Pending(port, ops[next..], p.count, checked))
            && PackedBytes(port, ops[pos..], count, checked, rba)
               == RecordBytes(port, ops[pos..], count, checked, rba)
                  + if p.last then [] else PackedBytes(port, ops[next..], p.count, checked, rba)
  {
    hide PlanRecord, MakeRecord, ValidOperation, Encode, PlanRuns, RecordFits;
    PackStep(port, ops, pos, count, checked);
    var p := PlanRecord(port, ops[pos..], count, checked);
    PlanRunsCorrect(port, ops[pos..], count, checked);
    PlanCountsCorrect(port, ops[pos..], count, checked);
    PackedFits(port, ops[pos..], p, rba);
    var r := MakeRecord(port, ops[pos..], p, rba);
    CompileFits(port, ops[pos..], count, checked, rba);
    if p.last {
      assert EncodeAll(port, [r]) == Encode(port, r) + EncodeAll(port, []);
    } else {
      var rest := Compile(port, ops[pos + p.w + p.r..], p.count, checked, rba);
      assert ([r] + rest)[1..] == rest;
    }
  }

  /** On a stream packing never overflows, and nothing is lost when the buffer spills. */
  lemma {:induction false} PackOnStream(t: Transport, s: Sender, ops: seq<Operation>, pos: nat, count: nat, checked: bool, readback: bool)
    requires t.Ok() && SenderOk(t, s) && pos <= |ops| && t.mtu == 0
    requires ValidOperations(t.port, ops[pos..]) && Pending(t.port, ops[pos..], count, checked)
    ensures var out := Pack(t, s, ops, pos, count, checked, readback);
            && !out.overflow
            && Flatten(out.s.sent) + out.s.done + out.s.cur
               == Flatten(s.sent) + s.done + s.cur + PackedBytes(t.port, ops[pos..], count, checked, s.rba)
            && s.sent <= out.s.sent && (forall i | |s.sent| <= i < |out.s.sent| :: |out.s.sent[i]| <= BUFFER_SIZE)
    decreases |ops| - pos, count
  {
    hide PlanRecord, ValidOperation, Pending, RecordBytes, PackedBytes, Emit;
    PackStep(t.port, ops, pos, count, checked);
    PackedBytesStep(t.port, ops, pos, count, checked, s.rba);
    var p := PlanRecord(t.port, ops[pos..], count, checked);
    var bytes := RecordBytes(t.port, ops[pos..], count, checked, s.rba);
    var e := Emit(t, s, bytes).0;
    EmitOnStream(t, s, bytes);
    var all := Flatten(s.sent) + s.done + s.cur;
    if p.last {
      assert bytes + [] == bytes;
    } else {
      var next := pos + p.w + p.r;
      PackOnStream(t, e, ops, next, p.count, checked, readback || p.status || p.r > 0);
      Regroup(all, bytes, PackedBytes(t.port, ops[next..], p.count, checked, s.rba));
    }
  }

  lemma EmitOnStream(t: Transport, s: Sender, bytes: seq<byte>)
    requires t.Ok() && SenderOk(t, s) && t.mtu == 0 && |bytes| <= BUFFER_SIZE
    ensures var e := Emit(t, s, bytes);
            && e.1 && Flatten(e.0.sent) + e.0.done + e.0.cur == Flatten(s.sent) + s.done + s.cur + bytes
            && (e.0.sent == s.sent || (e.0.sent == s.sent + [s.done + s.cur] && |s.done + s.cur| <= BUFFER_SIZE))
  {
    var e := Emit(t, s, bytes).0;
    if e.sent != s.sent {
      FlattenOne(s.sent, s.done + s.cur);
      assert Flatten(s.sent) + (s.done + s.cur) + [] + ([] + bytes) == Flatten(s.sent) + s.done + s.cur + bytes;
    } else {
      assert Flatten(s.sent) + s.done + (s.cur + bytes) == Flatten(s.sent) + s.done + s.cur + bytes;
    }
  }

  /** `sent` and `done` are either untouched, or the whole cycles went out in one datagram. */
  predicate MayFlush(t: Transport, s: Sender, out: Sender)
    requires t.Ok()
  {
    || (out.sent == s.sent && out.done == s.done)
    || (|s.done| > 0 && out.sent == s.sent + [t.PacketHeader() + s.done] && out.done == [])
  }

  lemma EmitInPackets(t: Transport, s: Sender, bytes: seq<byte>)
    requires t.Ok() && SenderOk(t, s) && t.mtu != 0
    ensures var e := Emit(t, s, bytes);
            && (e.1 <==> |s.cur| + |bytes| <= t.Room()) && (e.1 ==> e.0.cur == s.cur + bytes) && MayFlush(t, s, e.0)
  {}

  /** In datagrams a cycle overflows exactly when it does not fit into one by itself, and a cycle that
      fits stays in one piece. */
  lemma {:induction false} PackInPackets(t: Transport, s: Sender, ops: seq<Operation>, pos: nat, count: nat, checked: bool, readback: bool)
    requires t.Ok() && SenderOk(t, s) && pos <= |ops| && t.mtu != 0
    requires ValidOperations(t.port, ops[pos..]) && Pending(t.port, ops[pos..], count, checked)
    ensures var out := Pack(t, s, ops, pos, count, checked, readback);
            var bytes := PackedBytes(t.port, ops[pos..], count, checked, s.rba);
            && (out.overflow <==> |s.cur| + |bytes| > t.Room())
            && (!out.overflow ==> out.s.cur == s.cur + bytes)
            && MayFlush(t, s, out.s)
    decreases |ops| - pos, count
  {
    hide PlanRecord, ValidOperation, Pending, RecordBytes, PackedBytes, Transport.PacketHeader, Emit;
    PackStep(t.port, ops, pos, count, checked);
    PackedBytesStep(t.port, ops, pos, count, checked, s.rba);
    var p := PlanRecord(t.port, ops[pos..], count, checked);
    var bytes := RecordBytes(t.port, ops[pos..], count, checked, s.rba);
    var e := Emit(t, s, bytes);
    EmitInPackets(t, s, bytes);
    if e.1 {
      if p.last {
        assert bytes + [] == bytes;
      } else {
        var next := pos + p.w + p.r;
        PackInPackets(t, e.0, ops, next, p.count, checked, readback || p.status || p.r > 0);
        Regroup(s.cur, bytes, PackedBytes(t.port, ops[next..], p.count, checked, s.rba));
      }
    }
  }

  /** How many operations some records carry. A reply to an odd address is that of a status read, which belongs
      to no operation. */
  function Carried(rs: seq<Record>): nat {
    if |rs| == 0 then 0
    else |rs[0].values| + (if rs[0].bra % 2 == 1 then 0 else |rs[0].addrs|) + Carried(rs[1..])
  }

  /** Behind `used` bytes there is room for the first `j` records of a cycle, but not for one more. */
  predicate StopsAt(port: Port, rs: seq<Record>, used: nat, room: nat, j: nat)
    requires port.Valid() && RecordsFit(port, rs)
  {
    j < |rs| && used + |EncodeAll(port, rs[..j])| <= room < used + |EncodeAll(port, rs[..j + 1])|
  }

  lemma StopsNow(port: Port, r: Record, rest: seq<Record>, used: nat, room: nat)
    requires port.Valid() && RecordFits(port, r) && RecordsFit(port, [r] + rest) && used <= room < used + |Encode(port, r)|
    ensures StopsAt(port, [r] + rest, used, room, 0) && Carried(([r] + rest)[..0]) == 0
  {
    hide Encode, RecordFits;
    var rs := [r] + rest;
    assert rs[..0] == [] && rs[..1] == [r] && [r][1..] == [];
    assert EncodeAll(port, [r]) == Encode(port, r) + [];
  }

  lemma StopsLater(port: Port, r: Record, rest: seq<Record>, used: nat, room: nat, j: nat)
    requires port.Valid() && RecordFits(port, r) && RecordsFit(port, rest) && StopsAt(port, rest, used + |Encode(port, r)|, room, j)
    ensures RecordsFit(port, [r] + rest) && StopsAt(port, [r] + rest, used, room, j + 1)
    ensures Carried(([r] + rest)[..j + 1]) == |r.values| + (if r.bra % 2 == 1 then 0 else |r.addrs|) + Carried(rest[..j])
  {
    hide Encode, RecordFits;
    var rs := [r] + rest;
    assert rs[..j + 1][1..] == rest[..j] && rs[..j + 2][1..] == rest[..j + 1];
  }

  lemma PlanCarries(port: Port, ops: seq<Operation>, p: Plan, rba: nat)
    requires port.Valid() && p.w + p.r <= |ops| && (p.status ==> p.r == 0) && rba % 2 == 0
    ensures var r := MakeRecord(port, ops, p, rba); |r.values| + (if r.bra % 2 == 1 then 0 else |r.addrs|) == p.w + p.r
  {
    hide PlanShape, LaneOf, SelectByte, StatusAddress;
  }

  /** A cycle that overflows stops at the first operation of the record that does not fit. */
  lemma {:induction false} PackStops(t: Transport, s: Sender, ops: seq<Operation>, pos: nat, count: nat, checked: bool, readback: bool)
    returns (j: nat)
    requires t.Ok() && SenderOk(t, s) && pos <= |ops| && t.mtu != 0
    requires ValidOperations(t.port, ops[pos..]) && Pending(t.port, ops[pos..], count, checked)
    requires Pack(t, s, ops, pos, count, checked, readback).overflow
    ensures var rs := Compile(t.port, ops[pos..], count, checked, s.rba);
            && RecordsFit(t.port, rs) && StopsAt(t.port, rs, |s.cur|, t.Room(), j)
            && Pack(t, s, ops, pos, count, checked, readback).at == pos + Carried(rs[..j])
    decreases |ops| - pos, count
  {
    hide *;
    PackStep(t.port, ops, pos, count, checked);
    PackOnce(t, s, ops, pos, count, checked, readback);
    var p := PlanRecord(t.port, ops[pos..], count, checked);
    var bytes := RecordBytes(t.port, ops[pos..], count, checked, s.rba);
    var e := Emit(t, s, bytes);
    EmitInPackets(t, s, bytes);
    CompileFits(t.port, ops[pos..], count, checked, s.rba);
    PlanOfRecord(t.port, ops[pos..], count, checked, s.rba);
    var r := MakeRecord(t.port, ops[pos..], p, s.rba);
    var next := pos + p.w + p.r;
    var rest := if p.last then [] else Compile(t.port, ops[next..], p.count, checked, s.rba);
    EndToEnd.CompileStep(t.port, ops[pos..], count, checked, s.rba);
    assert [r] + [] == [r];
    assert Compile(t.port, ops[pos..], count, checked, s.rba) == [r] + rest;
    if !e.1 {
      j := 0;
      FitsCurrent(t, s);
      StopsNow(t.port, r, rest, |s.cur|, t.Room());
    } else {
      var k := PackStops(t, e.0, ops, next, p.count, checked, readback || p.status || p.r > 0);
      j := k + 1;
      FitsFirst(t.port, [r] + rest);
      assert ([r] + rest)[1..] == rest;
      StopsLater(t.port, r, rest, |s.cur|, t.Room(), k);
    }
  }

  lemma FitsCurrent(t: Transport, s: Sender)
    requires t.Ok() && SenderOk(t, s)
    ensures |s.cur| <= t.Room()
  {}

  lemma FitsFirst(port: Port, rs: seq<Record>)
    requires port.Valid() && RecordsFit(port, rs) && |rs| > 0
    ensures RecordFits(port, rs[0]) && RecordsFit(port, rs[1..])
  {
    hide RecordFits;
  }

  /** One turn of the packing loop. */
  lemma PackOnce(t: Transport, s: Sender, ops: seq<Operation>, pos: nat, count: nat, checked: bool, readback: bool)
    requires t.Ok() && SenderOk(t, s) && pos <= |ops|
    requires ValidOperations(t.port, ops[pos..]) && Pending(t.port, ops[pos..], count, checked)
    ensures s.rba < 0xFFFF && s.rba % 2 == 0
    ensures var p := PlanRecord(t.port, ops[pos..], count, checked);
            var e := Emit(t, s, RecordBytes(t.port, ops[pos..], count, checked, s.rba));
            var packed := Pack(t, s, ops, pos, count, checked, readback);
            && (!e.1 ==> packed.overflow && packed.at == pos)
            && (e.1 && p.last ==> !packed.overflow)
            && (e.1 && !p.last ==> (PackStep(t.port, ops, pos, count, checked);
                  packed == Pack(t, e.0, ops, pos + p.w + p.r, p.count, checked, readback || p.status || p.r > 0)))
  {
    hide PlanRecord, RecordBytes, Emit, ValidOperation, Pending, Transport.Room;
    PackStep(t.port, ops, pos, count, checked);
  }

  lemma PlanOfRecord(port: Port, ops: seq<Operation>, count: nat, checked: bool, rba: nat)
    requires port.Valid() && ValidOperations(port, ops) && Pending(port, ops, count, checked) && rba % 2 == 0 && rba < 0x1_0000
    ensures var p := PlanRecord(port, ops, count, checked);
            var r := MakeRecord(port, ops, p, rba);
            && RecordFits(port, r) && RecordBytes(port, ops, count, checked, rba) == Encode(port, r)
            && |r.values| + (if r.bra % 2 == 1 then 0 else |r.addrs|) == p.w + p.r
  {
    hide PlanRecord, MakeRecord, ValidOperation, Encode, RecordFits, PlanRuns;
    var p := PlanRecord(port, ops, count, checked);
    PlanRunsCorrect(port, ops, count, checked);
    PlanCountsCorrect(port, ops, count, checked);
    PackedFits(port, ops, p, rba);
    PlanCarries(port, ops, p, rba);
  }

  predicate HasRead(ops: seq<Operation>) {
    exists i | 0 <= i < |ops| :: !ops[i].write
  }

  /** A reply is asked for from here on. */
  predicate Asks(ops: seq<Operation>, count: nat, checked: bool) {
    HasRead(ops) || (checked && ChargeAll(count, ops) > 0)
  }

  lemma {:induction false} ChargedIffBus(ops: seq<Operation>)
    ensures ChargeAll(0, ops) > 0 <==> exists i | 0 <= i < |ops| :: !ops[i].config
    decreases |ops|
  {
    if |ops| > 0 {
      ChargeBounds(1, ops[1..]);
      if ops[0].config {
        ChargedIffBus(ops[1..]);
        assert forall i | 0 < i < |ops| :: ops[i] == ops[1..][i - 1];
      }
    }
  }

  lemma AsksIsNeedsReply(ops: seq<Operation>, checked: bool)
    ensures Asks(ops, 0, checked) <==> NeedsReply(ops, checked)
  {
    ChargedIffBus(ops);
  }

  /** One record asks for a reply exactly when what it takes needs one, or it is left to later ones. */
  lemma AsksStep(port: Port, ops: seq<Operation>, count: nat, checked: bool)
    requires port.Valid() && ValidOperations(port, ops) && Pending(port, ops, count, checked)
    ensures var p := PlanRecord(port, ops, count, checked);
            Asks(ops, count, checked) <==> p.status || p.r > 0 || (!p.last && Asks(ops[p.w + p.r..], p.count, checked))
  {
    hide PlanRecord, ValidOperation, ChargeAll;
    var p := PlanRecord(port, ops, count, checked);
    PlanRunsCorrect(port, ops, count, checked);
    PlanCountsCorrect(port, ops, count, checked);
    hide ReadRun;
    var n := p.w + p.r;
    var front, back := ops[..n], ops[n..];
    assert front + back == ops;
    ChargeSplit(count, front, back);
    ChargeBounds(ChargeAll(count, front), back);
    NoCharge(ChargeAll(count, front));
    HasReadConcat(front, back);
    assert ops[..p.w] == front[..p.w];
    if p.r > 0 {
      FirstRead(port, ops, p);
      assert !front[p.w].write;
    } else {
      assert forall i | 0 <= i < |front| :: front[i] == ops[..p.w][i];
    }
  }

  lemma FirstRead(port: Port, ops: seq<Operation>, p: Plan)
    requires port.Valid() && p.w + p.r <= |ops| && p.r > 0 && PlanRuns(port, ops, p)
    ensures !ops[p.w].write
  {
    hide PlanShape;
    assert ops[p.w..p.w + p.r][0] == ops[p.w];
  }

  lemma HasReadConcat(a: seq<Operation>, b: seq<Operation>)
    ensures HasRead(a + b) <==> HasRead(a) || HasRead(b)
  {
    forall i | 0 <= i < |a| ensures (a + b)[i] == a[i] {}
    forall i | 0 <= i < |b| ensures (a + b)[|a| + i] == b[i] {}
  }

  /** The read-back flag is set exactly for cycles that will be answered. */
  lemma {:induction false} ReadbackIff(t: Transport, s: Sender, ops: seq<Operation>, pos: nat, count: nat, checked: bool, readback: bool)
    requires t.Ok() && SenderOk(t, s) && pos <= |ops|
    requires ValidOperations(t.port, ops[pos..]) && Pending(t.port, ops[pos..], count, checked)
    requires !Pack(t, s, ops, pos, count, checked, readback).overflow
    ensures Pack(t, s, ops, pos, count, checked, readback).readback <==> readback || Asks(ops[pos..], count, checked)
    decreases |ops| - pos, count
  {
    hide PlanRecord, ValidOperation, Pending, RecordBytes, Emit, Asks;
    PackStep(t.port, ops, pos, count, checked);
    AsksStep(t.port, ops[pos..], count, checked);
    var p := PlanRecord(t.port, ops[pos..], count, checked);
    var e := Emit(t, s, RecordBytes(t.port, ops[pos..], count, checked, s.rba)).0;
    if !p.last {
      ReadbackIff(t, e, ops, pos + p.w + p.r, p.count, checked, readback || p.status || p.r > 0);
    }
  }

  /** Why a cycle is not packed, or its operations if it is tried. */
  predicate Packs(t: Transport, c: QueuedCycle, oom: bool)
    requires t.Ok()
  {
    !c.dead && |c.requests| > 0 && !oom && Validate(t.port, c.requests, 0).Valid?
  }

  function CycleOf(t: Transport, c: QueuedCycle): (ops: seq<Operation>)
    requires t.Ok() && Validate(t.port, c.requests, 0).Valid?
    ensures |ops| == |c.requests| && ValidOperations(t.port, ops) && Untouched(ops)
  {
    Validate(t.port, c.requests, 0).ops
  }

  /** The request bytes of a cycle that is packed. */
  function Request(t: Transport, rba: nat, c: QueuedCycle, oom: bool): (bytes: seq<byte>)
    requires t.Ok() && Packs(t, c, oom) && |c.requests| < NO_LIMIT && rba % 2 == 0 && rba < 0x1_0000
  {
    CycleBytes(t.port, CycleOf(t, c), c.checked, rba)
  }

  /** A cycle goes out unless it is refused, or is too long for a datagram of its own. */
  predicate Accepts(t: Transport, rba: nat, c: QueuedCycle, oom: bool)
    requires t.Ok() && |c.requests| < NO_LIMIT && rba % 2 == 0 && rba < 0x1_0000
    ensures Accepts(t, rba, c, oom) ==> Packs(t, c, oom)
  {
    Packs(t, c, oom) && (t.mtu == 0 || |Request(t, rba, c, oom)| <= t.Room())
  }

  /** The effect of flushing one cycle on what is sent. */
  ghost predicate SentBy(t: Transport, s: Sender, out: Sender, bytes: seq<byte>)
    requires t.Ok()
  {
    if t.mtu == 0 then
      && Flatten(out.sent) + out.done == Flatten(s.sent) + s.done + bytes
      && s.sent <= out.sent && (forall i | |s.sent| <= i < |out.sent| :: |out.sent[i]| <= BUFFER_SIZE)
    else
      || (out.sent == s.sent && out.done == s.done + bytes)
      || (|s.done| > 0 && out.sent == s.sent + [t.PacketHeader() + s.done] && out.done == bytes)
  }

  /** What happens to the cycle itself: a response waits for it, or its callback ran. */
  ghost predicate FateOf(t: Transport, device: nat, time: nat, s: Sender, out: Sender, c: QueuedCycle, oom: bool)
    requires t.Ok() && |c.requests| < NO_LIMIT && s.rba % 2 == 0 && s.rba < 0x1_0000
  {
    if Accepts(t, s.rba, c, oom) && NeedsReply(CycleOf(t, c), c.checked) then
      && out.queue == Enqueue(s.queue, NewResponse(Cycle(c.id, device, CycleOf(t, c)), s.rba, Deadline(time), c.checked))
      && out.rba == NextRba(s.rba)
    else
      && out.rba == s.rba
      && exists view: View ::
           && CallsBack(s.queue, out.queue, Done(c.id, device, FlushStatus(t, s.rba, c, oom), view))
           && FlushShows(t, s.rba, c, oom, view)
  }

  /** What a callback that runs during the flush is shown: the operations of a cycle that went out, the one
      that was refused, or one for which there was no room in a datagram; nothing otherwise. */
  ghost predicate FlushShows(t: Transport, rba: nat, c: QueuedCycle, oom: bool, view: View)
    requires t.Ok() && |c.requests| < NO_LIMIT && rba % 2 == 0 && rba < 0x1_0000
  {
    if c.dead || |c.requests| == 0 then view == NoOperations
    else if Validate(t.port, c.requests, 0).Bad? then view == Offending(Validate(t.port, c.requests, 0).index)
    else if oom then view == NoOperations
    else if Accepts(t, rba, c, oom) then view == Operations(CycleOf(t, c))
    else ShowsStop(t, rba, c, view)
  }

  /** The records of a cycle. */
  function RecordsOf(t: Transport, rba: nat, c: QueuedCycle): (rs: seq<Record>)
    requires t.Ok() && Packs(t, c, false) && |c.requests| < NO_LIMIT && rba % 2 == 0 && rba < 0x1_0000
    ensures RecordsFit(t.port, rs)
  {
    CompileFits(t.port, CycleOf(t, c), 0, c.checked, rba);
    Compile(t.port, CycleOf(t, c), 0, c.checked, rba)
  }

  /** Record `j` of the cycle is the first for which there is no room in a datagram, and it begins with operation
      `k`; a status read that nothing follows begins behind the last one. */
  predicate NoRoomFor(t: Transport, rs: seq<Record>, j: nat, k: nat)
    requires t.Ok() && RecordsFit(t.port, rs)
  {
    StopsAt(t.port, rs, 0, t.Room(), j) && k == Carried(rs[..j])
  }

  /** A cycle that overflows is shown the operation with which the record begins for which there was no room, or
      none if no operation is left. */
  ghost predicate ShowsStop(t: Transport, rba: nat, c: QueuedCycle, view: View)
    requires t.Ok() && Packs(t, c, false) && |c.requests| < NO_LIMIT && rba % 2 == 0 && rba < 0x1_0000
  {
    exists j: nat, k: nat :: k <= |c.requests| && NoRoomFor(t, RecordsOf(t, rba, c), j, k) && view == if k < |c.requests| then Offending(k) else NoOperations
  }

  /** There is one such record. */
  lemma OneStop(t: Transport, rs: seq<Record>, i: nat, j: nat)
    requires t.Ok() && RecordsFit(t.port, rs) && i < j && StopsAt(t.port, rs, 0, t.Room(), i)
    ensures !StopsAt(t.port, rs, 0, t.Room(), j)
  {
    hide Transport.Room, Encode, RecordFits;
    if j < |rs| {
      assert rs[..i + 1] + rs[i + 1..j] == rs[..j];
      EncodeConcat(t.port, rs[..i + 1], rs[i + 1..j]);
    }
  }

  /** Which operation the callback of a cycle that overflows is shown. */
  lemma OverflowShows(t: Transport, device: nat, time: nat, s: Sender, c: QueuedCycle, oom: bool)
    requires t.Ok() && SenderOk(t, s) && |s.cur| == 0 && |c.requests| < NO_LIMIT && FlushStatus(t, s.rba, c, oom) == OVERFLOW
    ensures Packs(t, c, false)
    ensures var log, rs := FlushCycle(t, device, time, s, c, oom).queue.log, RecordsOf(t, s.rba, c);
            && |log| == |s.queue.log| + 1 && log[|s.queue.log|].id == c.id && log[|s.queue.log|].status == OVERFLOW
            && (forall k: nat :: log[|s.queue.log|].view == Offending(k) <==> k < |c.requests| && exists j: nat :: NoRoomFor(t, rs, j, k))
            && (log[|s.queue.log|].view == NoOperations <==> exists j: nat :: NoRoomFor(t, rs, j, |c.requests|))
  {
    hide FlushCycle, Accepts, Validate, RecordsOf, StopsAt, Carried, NewResponse, SentBy, NeedsReply;
    FlushCycleCorrect(t, device, time, s, c, oom);
    Overflowed(t, s.rba, c, oom);
    var rs := RecordsOf(t, s.rba, c);
    var log := FlushCycle(t, device, time, s, c, oom).queue.log;
    var view := log[|s.queue.log|].view;
    var j: nat, k: nat :| k <= |c.requests| && NoRoomFor(t, rs, j, k) && view == if k < |c.requests| then Offending(k) else NoOperations;
    forall i: nat, n: nat | NoRoomFor(t, rs, i, n) ensures n == k {
      if i < j {
        OneStop(t, rs, i, j);
      } else if j < i {
        OneStop(t, rs, j, i);
      }
    }
  }

  lemma Overflowed(t: Transport, rba: nat, c: QueuedCycle, oom: bool)
    requires t.Ok() && |c.requests| < NO_LIMIT && rba % 2 == 0 && rba < 0x1_0000 && FlushStatus(t, rba, c, oom) == OVERFLOW
    ensures !Accepts(t, rba, c, oom) && !c.dead && |c.requests| > 0 && !oom && Validate(t.port, c.requests, 0).Valid?
  {
    hide Accepts, Validate;
    if Validate(t.port, c.requests, 0).Bad? {
      RefusedStatus(t.port, c.requests, 0);
    }
  }

  lemma {:induction false} RefusedStatus(port: Port, reqs: seq<Request>, i: nat)
    requires port.Valid() && i <= |reqs| && Validate(port, reqs, i).Bad?
    ensures Validate(port, reqs, i).status in {WIDTH, ENDIAN, ADDRESS}
    decreases |reqs| - i
  {
    hide OperationSize, AddressBits, Pow256;
    if i < |reqs| && Check(port, reqs[i]).Accepted? {
      CheckCorrect(port, reqs[i]);
      RefusedStatus(port, reqs, i + 1);
    }
  }

  /** The callback ran with d, and nothing else changed. */
  predicate CallsBack(q: Queue, q': Queue, d: Done) {
    q' == q.(log := q.log + [d])
  }

  /** The status of a cycle whose callback runs during the flush. */
  function FlushStatus(t: Transport, rba: nat, c: QueuedCycle, oom: bool): Status
    requires t.Ok() && |c.requests| < NO_LIMIT && rba % 2 == 0 && rba < 0x1_0000
  {
    if c.dead then OOM
    else if |c.requests| == 0 then OK
    else if Validate(t.port, c.requests, 0).Bad? then Validate(t.port, c.requests, 0).status
    else if oom then OOM
    else if !Accepts(t, rba, c, oom) then OVERFLOW
    else OK
  }

  lemma PackedIsRequest(t: Transport, rba: nat, c: QueuedCycle, oom: bool)
    requires t.Ok() && Packs(t, c, oom) && |c.requests| < NO_LIMIT && rba % 2 == 0 && rba < 0x1_0000
    ensures var ops := CycleOf(t, c);
            && ops[0..] == ops && Pending(t.port, ops, 0, c.checked)
            && Request(t, rba, c, oom) == PackedBytes(t.port, ops[0..], 0, c.checked, rba) && |Request(t, rba, c, oom)| > 0
  {
    hide Compile, Encode, Validate, RecordFits;
    var ops := CycleOf(t, c);
    assert ops[0..] == ops;
    CompileFits(t.port, ops, 0, c.checked, rba);
    var rs := Compile(t.port, ops, 0, c.checked, rba);
    assert |Encode(t.port, rs[0])| > 0;
  }

  lemma PackShows(t: Transport, s: Sender, c: QueuedCycle)
    requires t.Ok() && SenderOk(t, s) && |s.cur| == 0 && |c.requests| < NO_LIMIT && Packs(t, c, false) && t.mtu != 0
    requires var ops := CycleOf(t, c); ops[0..] == ops && Pending(t.port, ops, 0, c.checked) && Pack(t, s, ops, 0, 0, c.checked, false).overflow
    ensures var at := Pack(t, s, CycleOf(t, c), 0, 0, c.checked, false).at;
            ShowsStop(t, s.rba, c, if at < |c.requests| then Offending(at) else NoOperations)
  {
    hide Pack, Validate, Compile, StopsAt, Carried, Transport.Room;
    var ops := CycleOf(t, c);
    var j := PackStops(t, s, ops, 0, 0, c.checked, false);
    assert NoRoomFor(t, RecordsOf(t, s.rba, c), j, Pack(t, s, ops, 0, 0, c.checked, false).at);
  }

  lemma FlushCycleCorrect(t: Transport, device: nat, time: nat, s: Sender, c: QueuedCycle, oom: bool)
    requires t.Ok() && SenderOk(t, s) && |s.cur| == 0 && |c.requests| < NO_LIMIT
    ensures var out := FlushCycle(t, device, time, s, c, oom);
            && SentBy(t, s, out, if Accepts(t, s.rba, c, oom) then Request(t, s.rba, c, oom) else [])
            && FateOf(t, device, time, s, out, c, oom)
  {
    hide Pack, PackedBytes, Validate, Request, NewResponse, Check, Flatten, Transport.PacketHeader, ShowsStop;
    var out := FlushCycle(t, device, time, s, c, oom);
    assert s.done + [] == s.done;
    if Packs(t, c, oom) {
      var ops := CycleOf(t, c);
      PackedIsRequest(t, s.rba, c, oom);
      var packed := Pack(t, s, ops, 0, 0, c.checked, false);
      if t.mtu == 0 {
        PackOnStream(t, s, ops, 0, 0, c.checked, false);
        Regroup(Flatten(packed.s.sent), packed.s.done, packed.s.cur);
        assert Flatten(s.sent) + s.done + s.cur == Flatten(s.sent) + s.done;
      } else {
        PackInPackets(t, s, ops, 0, 0, c.checked, false);
        if packed.overflow {
          PackShows(t, s, c);
        }
      }
      if !packed.overflow {
        ReadbackIff(t, s, ops, 0, 0, c.checked, false);
        AsksIsNeedsReply(ops, c.checked);
      }
    }
    if |out.queue.log| > |s.queue.log| {
      var d := out.queue.log[|s.queue.log|];
      assert d.status == FlushStatus(t, s.rba, c, oom);
      assert CallsBack(s.queue, out.queue, Done(c.id, device, d.status, d.view));
      assert FlushShows(t, s.rba, c, oom, d.view);
    }
  }

  predicate Short(cs: seq<QueuedCycle>) {
    forall i | 0 <= i < |cs| :: |cs[i].requests| < NO_LIMIT
  }

  lemma {:induction false} ShortReverse(cs: seq<QueuedCycle>)
    requires Short(cs)
    ensures Short(Reverse(cs))
  {
    if |cs| > 0 {
      ShortReverse(cs[1..]);
    }
  }

  /** The requests of the accepted cycles, in queue order. */
  function AcceptedRequests(t: Transport, device: nat, time: nat, s: Sender, cs: seq<QueuedCycle>, oom: nat -> bool): (rs: seq<seq<byte>>)
    requires t.Ok() && SenderOk(t, s) && |s.cur| == 0 && Short(cs)
    decreases |cs|
  {
    if |cs| == 0 then [] else
      (if Accepts(t, s.rba, cs[0], oom(cs[0].id)) then [Request(t, s.rba, cs[0], oom(cs[0].id))] else [])
      + AcceptedRequests(t, device, time, FlushCycle(t, device, time, s, cs[0], oom(cs[0].id)), cs[1..], oom)
  }

  /** On a stream the sends are the accepted requests, one after the other, wherever the buffer
      spilled; each send fits the buffer. */
  lemma {:induction false} StreamPacking(t: Transport, device: nat, time: nat, s: Sender, cs: seq<QueuedCycle>, oom: nat -> bool)
    requires t.Ok() && SenderOk(t, s) && |s.cur| == 0 && Short(cs) && t.mtu == 0
    ensures var out := Finish(t, FlushCycles(t, device, time, s, cs, oom));
            && Flatten(out.sent) == Flatten(s.sent) + s.done + Flatten(AcceptedRequests(t, device, time, s, cs, oom))
            && out.done == [] && s.sent <= out.sent
            && forall i | |s.sent| <= i < |out.sent| :: |out.sent[i]| <= 4104
    decreases |cs|
  {
    hide Request, Accepts, FlushCycle;
    if |cs| == 0 {
      FlattenOne(s.sent, s.done);
      assert [] + s.done == s.done;
      assert Flatten(s.sent) + s.done + [] == Flatten(s.sent) + s.done;
      assert |s.done| == 0 ==> Flatten(s.sent) + s.done == Flatten(s.sent);
    } else {
      var c, o := cs[0], oom(cs[0].id);
      FlushCycleCorrect(t, device, time, s, c, o);
      var s1 := FlushCycle(t, device, time, s, c, o);
      StreamPacking(t, device, time, s1, cs[1..], oom);
      var own := if Accepts(t, s.rba, c, o) then Request(t, s.rba, c, o) else [];
      var rest := AcceptedRequests(t, device, time, s1, cs[1..], oom);
      FlattenOwn(own, Accepts(t, s.rba, c, o), rest);
      Regroup(Flatten(s.sent) + s.done, own, Flatten(rest));
    }
  }

  lemma FlattenOwn(own: seq<byte>, accepted: bool, rest: seq<seq<byte>>)
    requires !accepted ==> own == []
    ensures Flatten((if accepted then [own] else []) + rest) == own + Flatten(rest)
  {
    if accepted {
      assert ([own] + rest)[1..] == rest;
    } else {
      assert [] + rest == rest;
    }
  }

  /** `sent` are datagrams, each the header and at least one whole request, in order. */
  ghost predicate Datagrams(header: seq<byte>, sent: seq<seq<byte>>, requests: seq<seq<byte>>) {
    if |sent| == 0 then |requests| == 0
    else exists k | 0 <= k < |requests| ::
      sent[|sent| - 1] == header + Flatten(requests[k..]) && Datagrams(header, sent[..|sent| - 1], requests[..k])
  }

  /** Datagrams already sent since `base`, and whole requests waiting in the buffer, make up `requests`. */
  ghost predicate Packetized(t: Transport, base: seq<seq<byte>>, s: Sender, requests: seq<seq<byte>>)
    requires t.Ok()
  {
    && base <= s.sent
    && (forall i | |base| <= i < |s.sent| :: |s.sent[i]| <= t.mtu)
    && (forall i | 0 <= i < |requests| :: |requests[i]| > 0)
    && exists k | 0 <= k <= |requests| ::
         s.done == Flatten(requests[k..]) && Datagrams(t.PacketHeader(), s.sent[|base|..], requests[..k])
  }

  lemma {:induction false} FlattenEmptyIff(rs: seq<seq<byte>>)
    requires forall i | 0 <= i < |rs| :: |rs[i]| > 0
    ensures Flatten(rs) == [] <==> rs == []
  {}

  lemma DatagramsNext(header: seq<byte>, sent: seq<seq<byte>>, requests: seq<seq<byte>>, k: nat)
    requires k < |requests| && Datagrams(header, sent, requests[..k])
    ensures Datagrams(header, sent + [header + Flatten(requests[k..])], requests)
  {
    var all := sent + [header + Flatten(requests[k..])];
    assert all[..|all| - 1] == sent;
  }

  /** One more cycle keeps the datagrams whole. */
  lemma PacketizedNext(t: Transport, base: seq<seq<byte>>, s: Sender, out: Sender, requests: seq<seq<byte>>, bytes: seq<byte>, accepted: bool)
    requires t.Ok() && t.mtu != 0 && SenderOk(t, s) && |s.cur| == 0
    requires Packetized(t, base, s, requests) && SentBy(t, s, out, bytes)
    requires if accepted then |bytes| > 0 else bytes == []
    ensures Packetized(t, base, out, requests + if accepted then [bytes] else [])
  {
    hide Flatten, Transport.PacketHeader;
    var k :| 0 <= k <= |requests| && s.done == Flatten(requests[k..]) && Datagrams(t.PacketHeader(), s.sent[|base|..], requests[..k]);
    var more := if accepted then [bytes] else [];
    var all := requests + more;
    FlattenConcat(requests[k..], more);
    FlattenOwn(bytes, accepted, []);
    assert more + [] == more;
    FlattenNil();
    if out.sent == s.sent && out.done == s.done + bytes {
      assert all[k..] == requests[k..] + more && all[..k] == requests[..k];
    } else {
      var n := |requests|;
      FlattenEmptyIff(requests[k..]);
      DatagramsNext(t.PacketHeader(), s.sent[|base|..], requests, k);
      assert out.sent[|base|..] == s.sent[|base|..] + [t.PacketHeader() + s.done];
      assert all[n..] == more && all[..n] == requests;
    }
  }

  lemma FlattenNil()
    ensures Flatten([]) == []
  {}

  lemma {:induction false} FlushPacketized(t: Transport, device: nat, time: nat, base: seq<seq<byte>>, s: Sender,
    cs: seq<QueuedCycle>, oom: nat -> bool, requests: seq<seq<byte>>)
    requires t.Ok() && SenderOk(t, s) && |s.cur| == 0 && Short(cs) && t.mtu != 0 && Packetized(t, base, s, requests)
    ensures Packetized(t, base, FlushCycles(t, device, time, s, cs, oom),
                       requests + AcceptedRequests(t, device, time, s, cs, oom))
    decreases |cs|
  {
    hide Request, Accepts, FlushCycle, Packetized, SentBy;
    if |cs| == 0 {
      assert requests + [] == requests;
    } else {
      var c, o := cs[0], oom(cs[0].id);
      FlushCycleCorrect(t, device, time, s, c, o);
      var s1 := FlushCycle(t, device, time, s, c, o);
      var accepted := Accepts(t, s.rba, c, o);
      var bytes := if accepted then Request(t, s.rba, c, o) else [];
      RequestNonEmpty(t, s.rba, c, o);
      PacketizedNext(t, base, s, s1, requests, bytes, accepted);
      var own := if accepted then [bytes] else [];
      FlushPacketized(t, device, time, base, s1, cs[1..], oom, requests + own);
      Regroup(requests, own, AcceptedRequests(t, device, time, s1, cs[1..], oom));
    }
  }

  lemma RequestNonEmpty(t: Transport, rba: nat, c: QueuedCycle, oom: bool)
    requires t.Ok() && |c.requests| < NO_LIMIT && rba % 2 == 0 && rba < 0x1_0000
    ensures Accepts(t, rba, c, oom) ==> |Request(t, rba, c, oom)| > 0
  {
    if Packs(t, c, oom) {
      PackedIsRequest(t, rba, c, oom);
    }
  }

  /** With a datagram transport everything a flush sends is datagrams of at most MTU bytes, each the
      packet header and whole requests; together they are the accepted requests in queue order. */
  lemma PacketAtomicity(t: Transport, device: nat, time: nat, s: Sender, cs: seq<QueuedCycle>, oom: nat -> bool)
    requires t.Ok() && SenderOk(t, s) && |s.cur| == 0 && |s.done| == 0 && Short(cs) && t.mtu != 0
    ensures var out := Finish(t, FlushCycles(t, device, time, s, cs, oom));
            && s.sent <= out.sent && out.done == []
            && (forall i | |s.sent| <= i < |out.sent| :: |out.sent[i]| <= t.mtu)
            && Datagrams(t.PacketHeader(), out.sent[|s.sent|..], AcceptedRequests(t, device, time, s, cs, oom))
  {
    hide FlushCycles, AcceptedRequests, Flatten, Transport.PacketHeader;
    FlattenNil();
    var rs := AcceptedRequests(t, device, time, s, cs, oom);
    var none: seq<seq<byte>> := [];
    assert none[0..] == none && none[..0] == none && s.sent[|s.sent|..] == none;
    assert Packetized(t, s.sent, s, none);
    FlushPacketized(t, device, time, s.sent, s, cs, oom, none);
    assert none + rs == rs;
    var mid := FlushCycles(t, device, time, s, cs, oom);
    var k :| 0 <= k <= |rs| && mid.done == Flatten(rs[k..]) && Datagrams(t.PacketHeader(), mid.sent[|s.sent|..], rs[..k]);
    FlattenEmptyIff(rs[k..]);
    if k < |rs| {
      DatagramsNext(t.PacketHeader(), mid.sent[|s.sent|..], rs, k);
      assert (mid.sent + [t.PacketHeader() + mid.done])[|s.sent|..] == mid.sent[|s.sent|..] + [t.PacketHeader() + mid.done];
    } else {
      assert rs[..k] == rs;
    }
  }
}
