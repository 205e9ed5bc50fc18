/**
 The master as it runs: it scans a cycle's operations for the next record, makes room in the send
 buffer, and writes the record there byte by byte.
 */
module MasterDevice {
  import opened Words
  import opened Lanes
  import opened Records
  import opened Operations
  import opened Packer
  import opened Meaning
  import opened Responses
  import opened Delivery
  import opened Wire
  import opened Flush
  import opened Packets

  /** How many writes the next record takes; `total` counts bus operations, `fifo` says whether they
      all go to one address. */
  method ScanWrites(port: Port, ops: seq<Operation>, count: nat, maxops: nat) returns (w: nat, total: nat, fifo: bool)
    ensures w == WriteCount(port, ops, count, maxops)
    ensures total == ChargeAll(count, ops[..w])
    ensures fifo == (w > 1 && IsFifo(ops))
  {
    w, total, fifo := 0, count, false;
    if count >= maxops || |ops| == 0 || !ops[0].write {
      return;
    }
    var bwa := ops[0].address;
    w, total := 1, if ops[0].config then total else total + 1;
    ChargeSnoc(count, ops, 0);
    if total >= maxops || |ops| == 1 || !ops[1].write || !SameKind(ops[0], ops[1]) {
      return;
    }
    if ops[1].address == bwa {
      fifo := true;
      ghost var target := WriteCount(port, ops, count, maxops);
      while w < |ops| && ops[w].address == bwa && ops[w].write && SameKind(ops[0], ops[w]) && w < MAX_COUNT && total < maxops
        invariant 1 <= w <= |ops| && w <= MAX_COUNT && ops[w - 1].address == bwa && bwa == ops[0].address
        invariant target == ExtendWrites(port, ops, w, true, total, maxops)
        invariant total == ChargeAll(count, ops[..w])
        invariant w == 1 ==> total < maxops
        decreases |ops| - w
      {
        ChargeSnoc(count, ops, w);
        total := if ops[w].config then total else total + 1;
        w := w + 1;
      }
    } else {
      ghost var target := WriteCount(port, ops, count, maxops);
      bwa := NextAddress(port, false, bwa);
      while w < |ops| && ops[w].address == bwa && ops[w].write && SameKind(ops[0], ops[w]) && w < MAX_COUNT && total < maxops
        invariant 1 <= w <= |ops| && w <= MAX_COUNT && bwa == NextAddress(port, false, ops[w - 1].address)
        invariant target == ExtendWrites(port, ops, w, false, total, maxops)
        invariant total == ChargeAll(count, ops[..w])
        decreases |ops| - w
      {
        ChargeSnoc(count, ops, w);
        total := if ops[w].config then total else total + 1;
        bwa := NextAddress(port, false, ops[w].address);
        w := w + 1;
      }
    }
  }

  lemma ChargeSnoc(count: nat, ops: seq<Operation>, i: nat)
    requires i < |ops|
    ensures ChargeAll(count, ops[..i + 1]) == Charge(ChargeAll(count, ops[..i]), ops[i])
    ensures ChargeAll(count, ops[..0]) == count
  {
    assert ops[..i + 1] == ops[..i] + [ops[i]];
    ChargeSplit(count, ops[..i], [ops[i]]);
    assert [ops[i]][1..] == [];
  }

  /** How many reads follow the first w operations in the same record. */
  method ScanReads(port: Port, ops: seq<Operation>, w: nat, count: nat, maxops: nat) returns (r: nat, total: nat)
    requires port.Valid() && w <= |ops|
    ensures r == ReadCount(port, ops, w, count, maxops)
    ensures total == ChargeAll(count, ops[w..w + r])
  {
    r, total := 0, count;
    if count >= maxops || |ops| == w || ops[w].write || (w > 0 && ShapeOf(port, ops[w]) != ShapeOf(port, ops[0])) {
      assert ops[w..w] == [];
      return;
    }
    ghost var target, rest := ReadCount(port, ops, w, count, maxops), ops[w..];
    var shape, config := ShapeOf(port, ops[w]), ops[w].config;
    r, total := 1, if config then total else total + 1;
    ChargeSnoc(count, rest, 0);
    while w + r < |ops| && !ops[w + r].write && ops[w + r].config == config && ShapeOf(port, ops[w + r]) == shape
        && r < MAX_COUNT && total < maxops
      invariant 1 <= r <= |ops| - w && r <= MAX_COUNT
      invariant target == ExtendReads(port, rest, r, total, maxops)
      invariant total == ChargeAll(count, rest[..r])
      decreases |ops| - w - r
    {
      assert rest[r] == ops[w + r];
      ChargeSnoc(count, rest, r);
      total := if ops[w + r].config then total else total + 1;
      r := r + 1;
    }
    assert w + r < |ops| ==> rest[r] == ops[w + r];
    assert ops[w..w + r] == rest[..r];
  }

  /** Decide what the next record carries. */
  method ScanRecord(port: Port, ops: seq<Operation>, count: nat, checked: bool) returns (p: Plan, fifo: bool)
    requires port.Valid()
    ensures p == PlanRecord(port, ops, count, checked) && fifo == (p.w > 1 && IsFifo(ops))
  {
    hide WriteCount, ReadCount, IsFifo, ChargeAll;
    var maxops := MaxOps(port, checked);
    var w, written, f := ScanWrites(port, ops, count, maxops);
    fifo := f;
    var r, total := ScanReads(port, ops, w, written, maxops);
    var status := r == 0 && (w == 0 || (ops[0].size == port.data && ops[0].endian == Auto))
      && (total >= maxops || (|ops| == w + r && checked && total > 0));
    p := Plan(w, r, status, if status then 0 else total, |ops| == w + r && (!checked || total == 0 || status));
  }

  /** The front of the buffer holds this data. */
  ghost predicate Filled(buf: array<byte>, data: seq<byte>)
    reads buf
  {
    |data| <= buf.Length && buf[..|data|] == data
  }

  method Append(buf: array<byte>, ghost data: seq<byte>, at: nat, bytes: seq<byte>)
    requires Filled(buf, data) && at == |data| && at + |bytes| <= buf.Length
    modifies buf
    ensures Filled(buf, data + bytes)
  {
    forall i | 0 <= i < |bytes| {
      buf[at + i] := bytes[i];
    }
  }

  /** The words that follow a base address, one per operation. */
  method StoreWords(buf: array<byte>, ghost data: seq<byte>, at: nat, ws: seq<nat>, align: nat) returns (wptr: nat)
    requires Filled(buf, data) && at == |data| && at + Span(|ws|, align) <= buf.Length
    modifies buf
    ensures Filled(buf, data + WordBytes(ws, align)) && wptr == at + Span(|ws|, align)
  {
    hide Filled, ToBytes;
    wptr := at;
    var i := 0;
    ghost var now, all := data, data + WordBytes(ws, align);
    assert ws[0..] == ws;
    while i < |ws|
      invariant 0 <= i <= |ws| && wptr == |now| && Filled(buf, now)
      invariant wptr + Span(|ws| - i, align) == at + Span(|ws|, align)
      invariant now + WordBytes(ws[i..], align) == all
    {
      WordsStep(now, ws, i, align);
      Append(buf, now, wptr, ToBytes(ws[i], align));
      now := now + ToBytes(ws[i], align);
      wptr := wptr + align;
      i := i + 1;
    }
    assert ws[i..] == [] && now + [] == now;
  }

  lemma WordsStep(now: seq<byte>, ws: seq<nat>, i: nat, align: nat)
    requires i < |ws|
    ensures now + WordBytes(ws[i..], align) == (now + ToBytes(ws[i], align)) + WordBytes(ws[i + 1..], align)
    ensures Span(|ws| - i, align) == align + Span(|ws| - i - 1, align)
  {
    assert ws[i..][1..] == ws[i + 1..];
    Regroup(now, ToBytes(ws[i], align), WordBytes(ws[i + 1..], align));
  }

  /** A base address and its words, if there are any. */
  method StoreBlock(buf: array<byte>, ghost data: seq<byte>, at: nat, base: nat, ws: seq<nat>, align: nat) returns (wptr: nat)
    requires Filled(buf, data) && at == |data| && at + Span(BlockWords(|ws|), align) <= buf.Length
    modifies buf
    ensures Filled(buf, data + Block(base, ws, align)) && wptr == at + Span(BlockWords(|ws|), align)
  {
    hide Filled, ToBytes, WordBytes;
    wptr := at;
    if |ws| > 0 {
      Append(buf, data, at, ToBytes(base, align));
      wptr := StoreWords(buf, data + ToBytes(base, align), at + align, ws, align);
      Regroup(data, ToBytes(base, align), WordBytes(ws, align));
    } else {
      assert data + [] == data;
    }
  }

  /** Write the record of a plan behind what the buffer holds. */
  method StoreRecord(buf: array<byte>, ghost data: seq<byte>, at: nat, port: Port, r: Record) returns (wptr: nat)
    requires port.Valid() && RecordFits(port, r)
    requires Filled(buf, data) && at == |data| && at + RecordLength(port, |r.values|, |r.addrs|) <= buf.Length
    modifies buf
    ensures Filled(buf, data + Encode(port, r)) && wptr == at + RecordLength(port, |r.values|, |r.addrs|)
  {
    hide Filled, Header, Block, Span, Flags;
    var align := port.Alignment();
    var header := Header(port, Flags(r), r.select, |r.values|, |r.addrs|);
    Append(buf, data, at, header);
    wptr := StoreBlock(buf, data + header, at + port.RecordAlignment(), r.bwa, r.values, align);
    wptr := StoreBlock(buf, data + header + Block(r.bwa, r.values, align), wptr, r.bra, r.addrs, align);
    assert data + header + Block(r.bwa, r.values, align) + Block(r.bra, r.addrs, align) == data + Encode(port, r);
  }

  /** Validate a cycle, operation by operation. */
  method CheckCycle(port: Port, reqs: seq<Request>) returns (v: Verdict)
    requires port.Valid()
    ensures v == Validate(port, reqs, 0)
  {
    hide Check, Validate;
    var ops, i := [], 0;
    PrependNothing(Validate(port, reqs, 0));
    while i < |reqs|
      invariant 0 <= i <= |reqs|
      invariant Validate(port, reqs, 0) == Prepend(ops, Validate(port, reqs, i))
    {
      ValidateStep(port, reqs, i);
      match Check(port, reqs[i]) {
        case Rejected(status) =>
          return Bad(i, status);
        case Accepted(op) =>
          PrependTwice(ops, [op], Validate(port, reqs, i + 1));
          ops := ops + [op];
          i := i + 1;
      }
    }
    ValidateStep(port, reqs, i);
    assert ops + [] == ops;
    return Valid(ops);
  }

  lemma ValidateStep(port: Port, reqs: seq<Request>, i: nat)
    requires port.Valid() && i <= |reqs|
    ensures i == |reqs| ==> Validate(port, reqs, i) == Valid([])
    ensures i < |reqs| && Check(port, reqs[i]).Rejected? ==> Validate(port, reqs, i) == Bad(i, Check(port, reqs[i]).status)
    ensures i < |reqs| && Check(port, reqs[i]).Accepted?
      ==> Validate(port, reqs, i) == Prepend([Check(port, reqs[i]).op], Validate(port, reqs, i + 1))
  {
    hide Check;
  }

  lemma PrependNothing(v: Verdict)
    ensures Prepend([], v) == v
  {
  }

  lemma PrependTwice(a: seq<Operation>, b: seq<Operation>, v: Verdict)
    ensures Prepend(a, Prepend(b, v)) == Prepend(a + b, v)
  {
    if v.Valid? {
      Regroup(a, b, v.ops);
    }
  }

  function Prepend(ops: seq<Operation>, v: Verdict): Verdict {
    match v
    case Bad(i, status) => v
    case Valid(rest) => Valid(ops + rest)
  }

  /** The buffer mirrors the sender: prefix, whole cycles, then the cycle being packed. On datagrams
      `cptr` ends the whole cycles; a stream does not use it. */
  ghost predicate Mirrors(buf: array<byte>, t: Transport, s: Sender, cptr: nat, wptr: nat)
    requires t.Ok()
    reads buf
    ensures Mirrors(buf, t, s, cptr, wptr) ==> SenderOk(t, s)
  {
    && buf.Length == BUFFER_SIZE && SenderOk(t, s)
    && Filled(buf, t.Prefix() + s.done + s.cur)
    && wptr == |t.Prefix()| + |s.done| + |s.cur|
    && (t.mtu != 0 ==> cptr == |t.Prefix()| + |s.done|)
  }

  class Master {
    const t: Transport
    const device: nat
    /** Closed cycles, newest first. */
    var ready: seq<QueuedCycle>
    var queue: Queue
    var rba: nat
    var timeCache: nat
    var sent: seq<seq<byte>>

    /** The sender, given what the buffer holds. */
    function State(done: seq<byte>, cur: seq<byte>): Sender
      reads this
    {
      Sender(sent, done, cur, queue, rba)
    }

    lemma StateIs(done: seq<byte>, cur: seq<byte>)
      ensures State(done, cur) == Sender(sent, done, cur, queue, rba)
    {}

    constructor (t: Transport, device: nat)
      requires t.Ok()
      ensures this.t == t && this.device == device
      ensures SenderOk(t, State([], [])) && queue == Queue([], [], []) && ready == [] && sent == []
    {
      this.t, this.device := t, device;
      ready, queue, rba, timeCache, sent := [], Queue([], [], []), 0x8000, 0, [];
    }

    /** A stream spills its buffer; datagrams send the whole cycles and move the current one to the
        front of the buffer. */
    method MakeRoom(buf: array<byte>, ghost s: Sender, cptr: nat, wptr: nat, length: nat)
      returns (ok: bool, cptr': nat, wptr': nat)
      requires t.Ok() && Mirrors(buf, t, s, cptr, wptr) && s.sent == sent
      requires t.mtu == 0 ==> length <= BUFFER_SIZE
      modifies this`sent, buf
      ensures var room := MakeSpace(t, s, length);
              ok == room.1 && sent == room.0.sent && Mirrors(buf, t, room.0, cptr', wptr')
    {
      ok, cptr', wptr' := true, cptr, wptr;
      var prefix := |t.Prefix()|;
      var eob := if t.mtu == 0 then BUFFER_SIZE else t.mtu;
      if length > eob - wptr {
        if t.mtu == 0 {
          Spilled(buf, t, s, cptr, wptr);
          sent := sent + [buf[..wptr]];
          wptr' := 0;
        } else {
          if cptr != prefix {
            Spilled(buf, t, s, cptr, wptr);
            sent := sent + [buf[..cptr]];
            var keep := buf[cptr..wptr];
            Append(buf, t.Prefix(), prefix, keep);
            cptr', wptr' := prefix, prefix + |keep|;
            assert t.Prefix() + [] + s.cur == t.Prefix() + s.cur;
          }
          ok := length <= eob - wptr';
        }
      }
    }

    /** Pack one cycle, record by record. `at` is where the record that did not fit begins. */
    method PackCycle(buf: array<byte>, ghost s: Sender, cptr0: nat, wptr0: nat, ops: seq<Operation>, checked: bool)
      returns (overflow: bool, at: nat, readback: bool, cptr: nat, wptr: nat)
      requires t.Ok() && Mirrors(buf, t, s, cptr0, wptr0) && s.sent == sent && s.rba == rba
      requires ValidOperations(t.port, ops) && Pending(t.port, ops, 0, checked)
      modifies this`sent, buf
      ensures ops[0..] == ops
      ensures var packed := Pack(t, s, ops, 0, 0, checked, false);
              && overflow == packed.overflow && at == packed.at && readback == packed.readback
              && sent == packed.s.sent && Mirrors(buf, t, packed.s, cptr, wptr)
    {
      hide *;
      assert ops[0..] == ops;
      PackingStart(t, s, ops, checked);
      var count, last := 0, false;
      ghost var now := s;
      overflow, at, readback, cptr, wptr := false, 0, false, cptr0, wptr0;
      ghost var packed := Pack(t, s, ops, 0, 0, checked, false);
      while !last
        invariant t.Ok() && Mirrors(buf, t, now, cptr, wptr) && now.sent == sent && now.rba == rba
        invariant at <= |ops|
        invariant !last ==> Packing(t, now, ops, at, count, checked)
        invariant !last ==> packed == Pack(t, now, ops, at, count, checked, readback)
        invariant last ==> packed == Packed(now, false, at, readback)
        decreases !last, |ops| - at, count
      {
        TurnFacts(t, now, ops, at, count, checked);
        PackUnfold(t, now, ops, at, count, checked, readback);
        ghost var turn := TakeTurn(t, now, ops, at, count, checked);
        var p, fifo := ScanRecord(t.port, ops[at..], count, checked);
        var record := MakeRecord(t.port, ops[at..], p, rba);
        var length := RecordLength(t.port, |record.values|, |record.addrs|);
        var ok;
        ok, cptr, wptr := MakeRoom(buf, now, cptr, wptr, length);
        readback := readback || p.status || p.r > 0;
        if !ok {
          return true, at, readback, cptr, wptr;
        }
        MirrorsRoom(buf, t, turn.room, cptr, wptr, length);
        wptr := StoreRecord(buf, t.Prefix() + turn.room.done + turn.room.cur, wptr, t.port, record);
        now := turn.next;
        MirrorsAppended(buf, t, turn.room, turn.bytes, cptr, wptr);
        if p.last {
          last, at := true, |ops|;
        } else {
          at, count := at + p.w + p.r, p.count;
        }
      }
    }

    /** The sender's registers are the state of this object. */
    ghost predicate InState(s: Sender)
      reads this
    {
      s.sent == sent && s.queue == queue && s.rba == rba
    }

    /** Flush one cycle. `oom` says whether memory for its response runs out. */
    method FlushOne(buf: array<byte>, ghost s: Sender, cptr0: nat, wptr0: nat, c: QueuedCycle, oom: bool)
      returns (cptr: nat, wptr: nat)
      requires t.Ok() && Mirrors(buf, t, s, cptr0, wptr0) && InState(s) && |s.cur| == 0 && |c.requests| < NO_LIMIT
      modifies this`sent, this`queue, this`rba, buf
      ensures var out := FlushCycle(t, device, timeCache, s, c, oom);
              InState(out) && Mirrors(buf, t, out, cptr, wptr)
    {
      hide Mirrors, Pack, Validate, MakeSpace, Transport.Prefix, Transport.Room;
      cptr, wptr := cptr0, wptr0;
      if c.dead {
        MirrorsRegisters(buf, t, s, cptr, wptr);
        queue := queue.(log := queue.log + [Done(c.id, device, OOM, NoOperations)]);
        return;
      }
      if |c.requests| == 0 {
        MirrorsRegisters(buf, t, s, cptr, wptr);
        queue := queue.(log := queue.log + [Done(c.id, device, OK, NoOperations)]);
        return;
      }
      var v := CheckCycle(t.port, c.requests);
      if v.Bad? {
        MirrorsRegisters(buf, t, s, cptr, wptr);
        queue := queue.(log := queue.log + [Done(c.id, device, v.status, Offending(v.index))]);
        return;
      }
      if oom {
        MirrorsRegisters(buf, t, s, cptr, wptr);
        queue := queue.(log := queue.log + [Done(c.id, device, OOM, NoOperations)]);
        return;
      }
      var overflow, at, readback;
      overflow, at, readback, cptr, wptr := PackCycle(buf, s, cptr, wptr, v.ops, c.checked);
      ghost var packed := Pack(t, s, v.ops, 0, 0, c.checked, false);
      MirrorsRegisters(buf, t, packed.s, cptr, wptr);
      if overflow {
        if t.mtu == 0 {
          PackOnStream(t, s, v.ops, 0, 0, c.checked, false);
        }
        queue := queue.(log := queue.log + [Done(c.id, device, OVERFLOW, if at < |v.ops| then Offending(at) else NoOperations)]);
        DropCurrent(buf, t, packed.s, cptr, wptr);
        wptr := cptr;
        MirrorsRegisters(buf, t, packed.s.(cur := []), cptr, wptr);
      } else {
        if readback {
          var response := NewResponse(Cycle(c.id, device, v.ops), rba, Deadline(timeCache), c.checked);
          queue := queue.(last := [response] + queue.last);
          rba := NextRba(rba);
        } else {
          queue := queue.(log := queue.log + [Done(c.id, device, OK, Operations(v.ops))]);
        }
        KeepCurrent(buf, t, packed.s, cptr, wptr);
        cptr := wptr;
        MirrorsRegisters(buf, t, Keep(packed.s), cptr, wptr);
      }
    }

    /** The buffer as a flush starts with it. */
    method NewBuffer(ghost s: Sender) returns (buf: array<byte>, cptr: nat, wptr: nat)
      requires t.Ok() && SenderOk(t, s) && |s.cur| == 0 && |s.done| == 0
      ensures fresh(buf) && Mirrors(buf, t, s, cptr, wptr)
    {
      hide Transport.Prefix;
      buf := new byte[BUFFER_SIZE];
      assert buf[..0] == [];
      Append(buf, [], 0, t.Prefix());
      cptr, wptr := |t.Prefix()|, |t.Prefix()|;
      assert [] + t.Prefix() == t.Prefix() + s.done + s.cur;
    }

    /** Send everything that is queued on the device. */
    method Flush(oom: nat -> bool)
      requires t.Ok() && SenderOk(t, State([], [])) && Short(ready)
      modifies this`ready, this`sent, this`queue, this`rba
      ensures ready == []
      ensures (
        ShortReverse(old(ready));
        var out := Finish(t, FlushCycles(t, device, timeCache, old(State([], [])), Reverse(old(ready)), oom));
        sent == out.sent && queue == out.queue && rba == out.rba)
    {
      hide *;
      StateIs([], []);
      ghost var s := State([], []);
      InStateIs(s);
      ShortReverse(ready);
      var buf, cptr, wptr := NewBuffer(s);
      var queued := ReverseCycles(ready);
      ghost var all := FlushCycles(t, device, timeCache, s, queued, oom);
      var i := 0;
      assert queued[0..] == queued;
      while i < |queued|
        invariant 0 <= i <= |queued| && t.Ok() && Mirrors(buf, t, s, cptr, wptr) && InState(s)
        invariant fresh(buf) && timeCache == old(timeCache)
        invariant |s.cur| == 0 && SenderOk(t, s) && Short(queued[i..])
        invariant all == FlushCycles(t, device, timeCache, s, queued[i..], oom)
      {
        FlushStep(t, device, timeCache, s, queued[i..], oom);
        assert queued[i..][0] == queued[i] && queued[i..][1..] == queued[i + 1..];
        ghost var next := FlushCycle(t, device, timeCache, s, queued[i], oom(queued[i].id));
        cptr, wptr := FlushOne(buf, s, cptr, wptr, queued[i], oom(queued[i].id));
        s := next;
        i := i + 1;
      }
      FlushNone(t, device, timeCache, s, queued[i..], oom);
      InStateIs(s);
      Unsent(buf, t, s, cptr, wptr);
      if wptr != |t.Prefix()| {
        sent := sent + [buf[..wptr]];
      }
      ready := [];
    }

    lemma InStateIs(s: Sender)
      ensures InState(s) <==> s.sent == sent && s.queue == queue && s.rba == rba
    {}
  }

  /** Cycles are pushed as they are closed, so the list is turned round before it is sent. */
  method ReverseCycles(ready: seq<QueuedCycle>) returns (queued: seq<QueuedCycle>)
    ensures queued == Reverse(ready)
  {
    queued := [];
    var left := ready;
    assert Reverse(left) + queued == Reverse(ready);
    while |left| > 0
      invariant Reverse(left) + queued == Reverse(ready)
    {
      assert Reverse(left) == Reverse(left[1..]) + [left[0]];
      Regroup(Reverse(left[1..]), [left[0]], queued);
      queued := [left[0]] + queued;
      left := left[1..];
    }
    assert [] + queued == queued;
  }

  lemma FlushStep(t: Transport, device: nat, time: nat, s: Sender, cs: seq<QueuedCycle>, oom: nat -> bool)
    requires t.Ok() && SenderOk(t, s) && |s.cur| == 0 && Short(cs) && |cs| > 0
    ensures |cs[0].requests| < NO_LIMIT && Short(cs[1..])
    ensures FlushCycles(t, device, time, s, cs, oom)
         == FlushCycles(t, device, time, FlushCycle(t, device, time, s, cs[0], oom(cs[0].id)), cs[1..], oom)
  {
    hide FlushCycle;
  }

  lemma FlushNone(t: Transport, device: nat, time: nat, s: Sender, cs: seq<QueuedCycle>, oom: nat -> bool)
    requires t.Ok() && SenderOk(t, s) && |s.cur| == 0 && Short(cs) && |cs| == 0
    ensures FlushCycles(t, device, time, s, cs, oom) == s
  {}

  /** What the buffer holds does not depend on the socket's registers. */
  lemma MirrorsRegisters(buf: array<byte>, t: Transport, s: Sender, cptr: nat, wptr: nat)
    requires t.Ok() && Mirrors(buf, t, s, cptr, wptr)
    ensures forall q: Queue :: Mirrors(buf, t, s.(queue := q), cptr, wptr)
    ensures forall q: Queue, rba: nat | rba % 2 == 0 && 0x8000 <= rba < 0x1_0000 :: Mirrors(buf, t, s.(queue := q, rba := rba), cptr, wptr)
  {}

  lemma DropCurrent(buf: array<byte>, t: Transport, s: Sender, cptr: nat, wptr: nat)
    requires t.Ok() && t.mtu != 0 && Mirrors(buf, t, s, cptr, wptr)
    ensures Mirrors(buf, t, s.(cur := []), cptr, cptr)
  {
    var data := t.Prefix() + s.done + s.cur;
    assert buf[..cptr] == data[..cptr] == t.Prefix() + s.done + [];
  }

  lemma KeepCurrent(buf: array<byte>, t: Transport, s: Sender, cptr: nat, wptr: nat)
    requires t.Ok() && Mirrors(buf, t, s, cptr, wptr)
    ensures Mirrors(buf, t, Keep(s), wptr, wptr)
  {
    assert t.Prefix() + s.done + s.cur == t.Prefix() + (s.done + s.cur) + [];
  }

  lemma Unsent(buf: array<byte>, t: Transport, s: Sender, cptr: nat, wptr: nat)
    requires t.Ok() && Mirrors(buf, t, s, cptr, wptr) && |s.cur| == 0
    ensures wptr <= buf.Length
    ensures wptr == |t.Prefix()| <==> |s.done| == 0
    ensures Finish(t, s) == if wptr == |t.Prefix()| then s else s.(sent := s.sent + [buf[..wptr]], done := [])
  {
    assert t.Prefix() + s.done + [] == t.Prefix() + s.done;
  }

  lemma PackingStart(t: Transport, s: Sender, ops: seq<Operation>, checked: bool)
    requires t.Ok() && SenderOk(t, s) && ValidOperations(t.port, ops) && Pending(t.port, ops, 0, checked)
    ensures Packing(t, s, ops, 0, 0, checked)
  {
    assert ops[0..] == ops;
  }

  /** What one turn of the packing loop decides: the plan, its record, the sender once there is room,
      whether there is, and the sender with the record in the buffer. */
  datatype Turn = Turn(p: Plan, record: Record, bytes: seq<byte>, room: Sender, ok: bool, next: Sender)

  /** A point in the packing loop. */
  predicate Packing(t: Transport, s: Sender, ops: seq<Operation>, pos: nat, count: nat, checked: bool)
    ensures Packing(t, s, ops, pos, count, checked) ==>
      t.Ok() && SenderOk(t, s) && pos <= |ops| && ValidOperations(t.port, ops[pos..]) && Pending(t.port, ops[pos..], count, checked)
  {
    t.Ok() && SenderOk(t, s) && pos <= |ops| && ValidOperations(t.port, ops[pos..]) && Pending(t.port, ops[pos..], count, checked)
  }

  function TakeTurn(t: Transport, s: Sender, ops: seq<Operation>, pos: nat, count: nat, checked: bool): (turn: Turn)
    requires Packing(t, s, ops, pos, count, checked)
    ensures turn.p == PlanRecord(t.port, ops[pos..], count, checked)
    ensures turn.record == MakeRecord(t.port, ops[pos..], turn.p, s.rba) && RecordFits(t.port, turn.record)
    ensures turn.bytes == Encode(t.port, turn.record) && |turn.bytes| <= BUFFER_SIZE
    ensures (turn.room, turn.ok) == MakeSpace(t, s, |turn.bytes|) && turn.next == turn.room.(cur := turn.room.cur + turn.bytes)
  {
    hide PlanRecord, MakeRecord, ValidOperation, PlanRuns, Encode, RecordFits, MakeSpace, Pending, Transport.Room, RecordLength;
    PendingCount(t.port, ops[pos..], count, checked);
    PlanRunsCorrect(t.port, ops[pos..], count, checked);
    PlanCountsCorrect(t.port, ops[pos..], count, checked);
    var p := PlanRecord(t.port, ops[pos..], count, checked);
    PackedFits(t.port, ops[pos..], p, s.rba);
    var r := MakeRecord(t.port, ops[pos..], p, s.rba);
    RecordBound(t.port, r);
    var bytes := Encode(t.port, r);
    var room := MakeSpace(t, s, |bytes|);
    Turn(p, r, bytes, room.0, room.1, room.0.(cur := room.0.cur + bytes))
  }

  lemma TurnFacts(t: Transport, s: Sender, ops: seq<Operation>, pos: nat, count: nat, checked: bool)
    requires Packing(t, s, ops, pos, count, checked)
    ensures var turn := TakeTurn(t, s, ops, pos, count, checked);
            var next := pos + turn.p.w + turn.p.r;
            && next <= |ops| && (pos < next || turn.p.count < count)
            && |turn.bytes| == RecordLength(t.port, |turn.record.values|, |turn.record.addrs|)
            && SenderOk(t, turn.room) && turn.room.rba == s.rba
            && (turn.ok ==> |turn.room.done| + |turn.room.cur| + |turn.bytes| <= t.Room() && SenderOk(t, turn.next))
            && (turn.ok && !turn.p.last ==> Packing(t, turn.next, ops, next, turn.p.count, checked))
  {
    hide PlanRecord, MakeRecord, ValidOperation, Encode, RecordFits, MakeSpace, Pending, TakeTurn;
    PackStep(t.port, ops, pos, count, checked);
  }

  lemma PendingCount(port: Port, ops: seq<Operation>, count: nat, checked: bool)
    requires port.Valid() && Pending(port, ops, count, checked)
    ensures count <= MaxOps(port, checked)
  {}

  /** The packing loop turn by turn. */
  lemma PackUnfold(t: Transport, s: Sender, ops: seq<Operation>, pos: nat, count: nat, checked: bool, readback: bool)
    requires Packing(t, s, ops, pos, count, checked)
    ensures (
      TurnFacts(t, s, ops, pos, count, checked);
      var turn := TakeTurn(t, s, ops, pos, count, checked);
      var asks := readback || turn.p.status || turn.p.r > 0;
      Pack(t, s, ops, pos, count, checked, readback)
        == if !turn.ok then Packed(turn.room, true, pos, asks)
           else if turn.p.last then Packed(turn.next, false, |ops|, asks)
           else Pack(t, turn.next, ops, pos + turn.p.w + turn.p.r, turn.p.count, checked, asks))
  {
    hide PlanRecord, MakeRecord, ValidOperation, Encode, RecordFits, MakeSpace, Pending, TakeTurn, RecordLength;
    TurnFacts(t, s, ops, pos, count, checked);
    var e := Emit(t, s, RecordBytes(t.port, ops[pos..], count, checked, s.rba));
  }

  lemma MirrorsRoom(buf: array<byte>, t: Transport, s: Sender, cptr: nat, wptr: nat, length: nat)
    requires t.Ok() && Mirrors(buf, t, s, cptr, wptr) && |s.done| + |s.cur| + length <= t.Room()
    ensures buf.Length == BUFFER_SIZE && Filled(buf, t.Prefix() + s.done + s.cur)
    ensures wptr == |t.Prefix() + s.done + s.cur| && wptr + length <= buf.Length
    ensures t.mtu != 0 ==> cptr == |t.Prefix()| + |s.done|
  {}

  lemma MirrorsAppended(buf: array<byte>, t: Transport, s: Sender, bytes: seq<byte>, cptr: nat, wptr: nat)
    requires t.Ok() && buf.Length == BUFFER_SIZE && SenderOk(t, s.(cur := s.cur + bytes))
    requires Filled(buf, t.Prefix() + s.done + s.cur + bytes) && wptr == |t.Prefix() + s.done + s.cur| + |bytes|
    requires t.mtu != 0 ==> cptr == |t.Prefix()| + |s.done|
    ensures Mirrors(buf, t, s.(cur := s.cur + bytes), cptr, wptr)
  {
    Regroup(t.Prefix() + s.done, s.cur, bytes);
  }

  lemma Spilled(buf: array<byte>, t: Transport, s: Sender, cptr: nat, wptr: nat)
    requires t.Ok() && Mirrors(buf, t, s, cptr, wptr)
    ensures Filled(buf, t.Prefix()) && Filled(buf, [])
    ensures t.mtu == 0 ==> buf[..wptr] == s.done + s.cur && t.Prefix() + [] + [] == []
    ensures t.mtu != 0 ==> buf[..cptr] == t.PacketHeader() + s.done && buf[cptr..wptr] == s.cur
  {
    var data := t.Prefix() + s.done + s.cur;
    assert buf[..|t.Prefix()|] == data[..|t.Prefix()|];
    assert t.mtu != 0 ==> buf[..cptr] == data[..cptr] && buf[cptr..wptr] == data[cptr..];
  }
}
