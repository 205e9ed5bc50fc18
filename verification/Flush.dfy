/**
 Flushing a device: every queued cycle is refused, completed at once, or packed into the send
 buffer and left waiting for its reply. Reference semantics; Master.dfy runs it on one buffer.
 */
module Flush {
  import opened Words
  import opened Lanes
  import opened Records
  import opened Operations
  import opened Packer
  import opened Meaning
  import opened Responses
  import opened Delivery
  import opened Wire

  /** A closed cycle in the order its operations were queued. `dead` marks one that ran out of memory
      while it was filled; `checked` one whose bus errors are wanted. */
  datatype QueuedCycle = QueuedCycle(id: nat, requests: seq<Request>, dead: bool, checked: bool)

  datatype Verdict = Valid(ops: seq<Operation>) | Bad(index: nat, status: Status)

  /** The master's validation of a whole cycle, from request i on: it stops at the first bad one. */
  function Validate(port: Port, reqs: seq<Request>, i: nat): (v: Verdict)
    requires port.Valid() && i <= |reqs|
    ensures v.Valid? ==> |v.ops| == |reqs| - i && ValidOperations(port, v.ops) && Untouched(v.ops)
    ensures v.Bad? ==> i <= v.index < |reqs| && Check(port, reqs[v.index]) == Rejected(v.status)
    decreases |reqs| - i
  {
    if i == |reqs| then Valid([]) else
      match Check(port, reqs[i])
      case Rejected(status) => Bad(i, status)
      case Accepted(op) =>
        CheckCorrect(port, reqs[i]);
        match Validate(port, reqs, i + 1)
        case Bad(j, status) => Bad(j, status)
        case Valid(ops) => Valid([op] + ops)
  }

  /** Validation accepts every operation, each in its place, or finds the first one that is refused. */
  lemma {:induction false} ValidateExact(port: Port, reqs: seq<Request>, i: nat)
    requires port.Valid() && i <= |reqs|
    ensures var v := Validate(port, reqs, i);
            match v
            case Valid(ops) => |ops| == |reqs| - i && forall k | i <= k < |reqs| :: Check(port, reqs[k]) == Accepted(ops[k - i])
            case Bad(j, status) => i <= j < |reqs| && Check(port, reqs[j]) == Rejected(status) && forall k | i <= k < j :: Check(port, reqs[k]).Accepted?
    decreases |reqs| - i
  {
    hide Check;
    if i < |reqs| && Check(port, reqs[i]).Accepted? {
      ValidateExact(port, reqs, i + 1);
    }
  }

  /** Large enough for the largest record: header, two addresses and twice 255 words. */
  const BUFFER_SIZE := 8 * (255 + 255 + 1 + 1) + 8

  /** A link to flush to: its widths, and the largest datagram, or 0 for a stream. */
  datatype Transport = Transport(port: Port, mtu: nat)
  {
    predicate Ok()
      ensures Ok() ==> port.Valid()
    {
      port.Valid() && (mtu == 0 || port.RecordAlignment() <= mtu <= BUFFER_SIZE)
    }

    /** What a datagram starts with: magic, version 1, and the widths. */
    function PacketHeader(): (h: seq<byte>)
      requires port.Valid()
      ensures |h| == port.RecordAlignment()
    {
      [0x4E, 0x6F, 0x10, port.addr * 16 + port.data] + Zeros(port.RecordAlignment() - 4)
    }

    function Prefix(): (h: seq<byte>)
      requires port.Valid()
      ensures |h| <= 8
    {
      if mtu == 0 then [] else PacketHeader()
    }

    /** Bytes of records that fit behind the prefix. */
    function Room(): (n: nat)
      requires Ok()
    {
      if mtu == 0 then BUFFER_SIZE else mtu - port.RecordAlignment()
    }
  }

  /** The sender's state: what was sent, whole cycles waiting in the buffer, the cycle being packed,
      the socket's responses, and the next return address. */
  datatype Sender = Sender(sent: seq<seq<byte>>, done: seq<byte>, cur: seq<byte>, queue: Queue, rba: nat)

  predicate SenderOk(t: Transport, s: Sender)
    requires t.Ok()
  {
    |s.done| + |s.cur| <= t.Room() && s.rba % 2 == 0 && 0x8000 <= s.rba < 0x1_0000
  }

  /** Make room for a record: a stream sends all it has buffered; datagrams send the whole cycles and
      keep the current one. False when the record does not fit even then. */
  function MakeSpace(t: Transport, s: Sender, length: nat): (out: (Sender, bool))
    requires t.Ok() && SenderOk(t, s) && (t.mtu == 0 ==> length <= BUFFER_SIZE)
    ensures SenderOk(t, out.0) && out.0.rba == s.rba && out.0.queue == s.queue
    ensures out.1 ==> |out.0.done| + |out.0.cur| + length <= t.Room()
  {
    if length <= t.Room() - |s.done| - |s.cur| then
      (s, true)
    else if t.mtu == 0 then
      (s.(sent := s.sent + [s.done + s.cur], done := [], cur := []), true)
    else
      (if |s.done| > 0 then s.(sent := s.sent + [t.PacketHeader() + s.done], done := []) else s,
       length <= t.Room() - |s.cur|)
  }

  /** Put a record into the buffer. A record for which there is no room drops the cycle. */
  function Emit(t: Transport, s: Sender, bytes: seq<byte>): (out: (Sender, bool))
    requires t.Ok() && SenderOk(t, s) && (t.mtu == 0 ==> |bytes| <= BUFFER_SIZE)
    ensures SenderOk(t, out.0) && out.0.rba == s.rba && out.0.queue == s.queue
  {
    var room := MakeSpace(t, s, |bytes|);
    if room.1 then (room.0.(cur := room.0.cur + bytes), true) else room
  }

  /** No record is longer than the buffer. */
  lemma RecordBound(port: Port, r: Record)
    requires port.Valid() && RecordFits(port, r)
    ensures |Encode(port, r)| <= BUFFER_SIZE
  {
    hide Port.Alignment;
    var align := port.Alignment();
    SpanIsProduct(BlockWords(|r.values|), align);
    SpanIsProduct(BlockWords(|r.addrs|), align);
    assert BlockWords(|r.values|) * align <= 256 * 8;
    assert BlockWords(|r.addrs|) * align <= 256 * 8;
  }

  /** Outcome of packing: `at` is the operation whose record did not fit, `readback` whether any
      record asks for a reply. */
  datatype Packed = Packed(s: Sender, overflow: bool, at: nat, readback: bool)

  /** The record for the operations from `pos` on, as bytes. */
  function RecordBytes(port: Port, ops: seq<Operation>, count: nat, checked: bool, rba: nat): (bytes: seq<byte>)
    requires port.Valid() && ValidOperations(port, ops) && Pending(port, ops, count, checked) && rba < 0xFFFF
    ensures |bytes| <= BUFFER_SIZE
  {
    var p := PlanRecord(port, ops, count, checked);
    PlanRunsCorrect(port, ops, count, checked);
    PlanCountsCorrect(port, ops, count, checked);
    PackedFits(port, ops, p, rba);
    RecordBound(port, MakeRecord(port, ops, p, rba));
    Encode(port, MakeRecord(port, ops, p, rba))
  }

  /** What is left after the next record can be packed on. */
  lemma PackStep(port: Port, ops: seq<Operation>, pos: nat, count: nat, checked: bool)
    requires port.Valid() && pos <= |ops| && ValidOperations(port, ops[pos..]) && Pending(port, ops[pos..], count, checked)
    ensures var p := PlanRecord(port, ops[pos..], count, checked);
            var next := pos + p.w + p.r;
            && next <= |ops| && ops[pos..][p.w + p.r..] == ops[next..] && ValidOperations(port, ops[next..])
            && (pos < next || p.count < count)
            && (!p.last ==> Pending(port, ops[next..], p.count, checked))
  {
    hide PlanRecord, ValidOperation, ChargeAll;
    var p := PlanRecord(port, ops[pos..], count, checked);
    PlanCountsCorrect(port, ops[pos..], count, checked);
    ChargeBounds(count, ops[pos..][..p.w + p.r]);
    assert ops[pos..][p.w + p.r..] == ops[pos + p.w + p.r..];
    if p.w + p.r == 0 {
      assert ops[pos..][..0] == [];
      NoCharge(count);
    }
  }

  lemma NoCharge(count: nat)
    ensures ChargeAll(count, []) == count
  {}

  /** The packing loop on the send buffer. */
  function Pack(t: Transport, s: Sender, ops: seq<Operation>, pos: nat, count: nat, checked: bool, readback: bool): (out: Packed)
    requires t.Ok() && SenderOk(t, s) && pos <= |ops|
    requires ValidOperations(t.port, ops[pos..]) && Pending(t.port, ops[pos..], count, checked)
    ensures SenderOk(t, out.s) && out.s.rba == s.rba && out.s.queue == s.queue && out.at <= |ops|
    decreases |ops| - pos, count
  {
    hide PlanRecord, RecordBytes, Emit, ValidOperation, Pending, Transport.Room;
    PackStep(t.port, ops, pos, count, checked);
    var p := PlanRecord(t.port, ops[pos..], count, checked);
    var e := Emit(t, s, RecordBytes(t.port, ops[pos..], count, checked, s.rba));
    var asks := readback || p.status || p.r > 0;
    if !e.1 then Packed(e.0, true, pos, asks)
    else if p.last then Packed(e.0, false, |ops|, asks)
    else Pack(t, e.0, ops, pos + p.w + p.r, p.count, checked, asks)
  }

  /** Return addresses go round in the upper half of the 16-bit space. */
  function NextRba(rba: nat): (next: nat)
    requires rba < 0x1_0000
    ensures 0x8000 <= next < 0x1_0000 && (rba % 2 == 0 ==> next % 2 == 0)
  {
    var n := if rba + 2 < 0x1_0000 then rba + 2 else rba + 2 - 0x1_0000;
    if n >= 0x8000 then n else n + 0x8000
  }

  /** The return address of the k-th response since the socket was opened. */
  function Claim(k: nat): (a: nat)
    ensures 0x8000 <= a < 0x1_0000 && a % 2 == 0
  {
    if k == 0 then 0x8000 else NextRba(Claim(k - 1))
  }

  /** Which of the 16384 return addresses the k-th response gets. */
  function Slot(k: nat): (n: nat)
    ensures n < 0x4000
  {
    k % 0x4000
  }

  lemma {:induction false} ClaimIs(k: nat)
    ensures Claim(k) == 0x8000 + 2 * Slot(k)
  {
    hide Slot;
    if k > 0 {
      ClaimIs(k - 1);
      NextSlot(k - 1);
    } else {
      NextSlot(0);
    }
  }

  lemma NextSlot(k: nat)
    ensures Slot(0) == 0
    ensures Slot(k + 1) == if Slot(k) + 1 == 0x4000 then 0 else Slot(k) + 1
  {
    NextRemainder(k, 0x4000);
  }

  lemma NextRemainder(k: nat, n: nat)
    requires n > 0
    ensures (k + 1) % n == if k % n + 1 == n then 0 else k % n + 1
  {
    assert k == n * (k / n) + k % n;
    if k % n + 1 == n {
      assert n * (k / n + 1) == n * (k / n) + n;
      DivModUnique(k + 1, n, k / n + 1, 0);
    } else {
      DivModUnique(k + 1, n, k / n, k % n + 1);
    }
  }

  /** Two responses share a return address exactly if a multiple of 16384 responses lies between them, so
      that a reply is never taken for another cycle's while the oldest awaited one is less than 16384
      responses old. */
  lemma SharedAddressIff(i: nat, j: nat)
    ensures Claim(i) == Claim(j) <==> (i - j) % 0x4000 == 0
  {
    ClaimIs(i);
    ClaimIs(j);
    SameRemainder(i, j, 0x4000);
  }

  lemma SameRemainder(i: nat, j: nat, n: nat)
    requires n > 0
    ensures i % n == j % n <==> (i - j) % n == 0
  {
    var q, r := i / n - j / n, i % n - j % n;
    assert i == n * (i / n) + i % n && j == n * (j / n) + j % n;
    assert n * q == n * (i / n) - n * (j / n);
    if r >= 0 {
      DivModUnique(i - j, n, q, r);
    } else {
      assert n * (q - 1) == n * q - n;
      DivModUnique(i - j, n, q - 1, r + n);
    }
  }

  /** Low half of the clock at which a response is given up. */
  function Deadline(time: nat): nat {
    (time + 5) % 0x1_0000
  }

  function Call(s: Sender, d: Done): (r: Sender)
    ensures r == s.(queue := s.queue.(log := s.queue.log + [d]))
  {
    s.(queue := s.queue.(log := s.queue.log + [d]))
  }

  /** A packed cycle becomes part of the buffer's whole cycles. */
  function Keep(s: Sender): Sender {
    s.(done := s.done + s.cur, cur := [])
  }

  /** Set up the response of a cycle that will be answered, and claim its return address. */
  function Await(s: Sender, cycle: Cycle, time: nat, checked: bool): Sender
    requires s.rba < 0x1_0000
  {
    s.(queue := Enqueue(s.queue, NewResponse(cycle, s.rba, Deadline(time), checked)), rba := NextRba(s.rba))
  }

  /** Flushing one cycle. `oom` says whether memory for its response runs out. */
  function FlushCycle(t: Transport, device: nat, time: nat, s: Sender, c: QueuedCycle, oom: bool): (out: Sender)
    requires t.Ok() && SenderOk(t, s) && |s.cur| == 0 && |c.requests| < NO_LIMIT
    ensures SenderOk(t, out) && |out.cur| == 0
  {
    if c.dead then Call(s, Done(c.id, device, OOM, NoOperations))
    else if |c.requests| == 0 then Call(s, Done(c.id, device, OK, NoOperations))
    else
      match Validate(t.port, c.requests, 0)
      case Bad(i, status) => Call(s, Done(c.id, device, status, Offending(i)))
      case Valid(ops) =>
        if oom then Call(s, Done(c.id, device, OOM, NoOperations)) else
          assert ops[0..] == ops;
          var packed := Pack(t, s, ops, 0, 0, c.checked, false);
          if packed.overflow then
            Call(packed.s, Done(c.id, device, OVERFLOW, if packed.at < |ops| then Offending(packed.at) else NoOperations))
              .(cur := [])
          else if !packed.readback then
            Keep(Call(packed.s, Done(c.id, device, OK, Operations(ops))))
          else
            Keep(Await(packed.s, Cycle(c.id, device, ops), time, c.checked))
  }

  /** Flushing all cycles in queue order; `oom` tells for which cycles memory runs out. */
  function FlushCycles(t: Transport, device: nat, time: nat, s: Sender, cs: seq<QueuedCycle>, oom: nat -> bool): (out: Sender)
    requires t.Ok() && SenderOk(t, s) && |s.cur| == 0
    requires forall i | 0 <= i < |cs| :: |cs[i].requests| < NO_LIMIT
    ensures SenderOk(t, out) && |out.cur| == 0
    decreases |cs|
  {
    if |cs| == 0 then s
    else FlushCycles(t, device, time, FlushCycle(t, device, time, s, cs[0], oom(cs[0].id)), cs[1..], oom)
  }

  /** Sending what is left in the buffer. */
  function Finish(t: Transport, s: Sender): Sender
    requires t.Ok()
  {
    if |s.done| == 0 then s else s.(sent := s.sent + [t.Prefix() + s.done], done := [])
  }
}
