/**
 From records to bytes: packed cycles fit the wire, and serving their bytes is executing their
 records. The end-to-end theorem on byte strings.
 */
module Wire {
  import opened Words
  import opened Lanes
  import opened Records
  import opened Operations
  import opened Bus
  import opened Interpreter
  import opened Packer
  import opened Meaning
  import opened Responses
  import opened Delivery
  import opened EndToEnd

  predicate RecordsFit(port: Port, rs: seq<Record>)
    requires port.Valid()
  {
    forall i :: 0 <= i < |rs| ==> RecordFits(port, rs[i])
  }

  lemma {:induction false} LaneValuesFit(port: Port, ops: seq<Operation>, lane: Lane)
    requires port.Valid() && ValidOperations(port, ops) && lane.size + lane.shift <= port.data
    requires forall i | 0 <= i < |ops| :: ops[i].write && ops[i].size == lane.size
    ensures WordsFit(LaneValues(ops, lane.shift), port.Alignment())
    decreases |ops|
  {
    if |ops| > 0 {
      LaneValuesFit(port, ops[1..], lane);
      LaneShift(ops[0].value, lane.size, lane.shift);
      Pow256Monotone(lane.size + lane.shift, port.Alignment());
    }
  }

  lemma {:induction false} AddressesFit(port: Port, ops: seq<Operation>)
    requires port.Valid() && ValidOperations(port, ops)
    ensures WordsFit(Addresses(ops), port.Alignment())
    decreases |ops|
  {
    hide ValidOperation, Pow256;
    if |ops| > 0 {
      AddressesFit(port, ops[1..]);
      AddressBound(port, ops[0]);
    }
  }

  lemma SmallFitsWire(port: Port, v: nat)
    requires port.Valid() && v < 0x1_0000
    ensures v < Pow256(port.Alignment())
  {
    Pow256Values();
    Pow256Monotone(2, port.Alignment());
  }

  lemma PackedWritesFit(port: Port, ops: seq<Operation>, p: Plan)
    requires port.Valid() && Planned(port, ops, p)
    ensures BlockFits(if p.w > 0 then ops[0].address else 0, LaneValues(ops[..p.w], PlanLane(port, ops, p).shift), port.Alignment())
  {
    PlanLaneShared(port, ops, p);
    hide DecodeSelect, SelectByte, Pow256, ValidOperation, PlanShape, LaneOf, PlanLane, ReadRun;
    var ws := ops[..p.w];
    if p.w > 0 {
      AddressBound(port, ops[0]);
      assert ws[0] == ops[0];
    }
    LaneValuesFit(port, ws, PlanLane(port, ops, p));
  }

  lemma PackedReadsFit(port: Port, ops: seq<Operation>, p: Plan, rba: nat)
    requires port.Valid() && p.w + p.r <= |ops| && p.r <= MAX_COUNT && rba < 0xFFFF && ValidOperations(port, ops)
    ensures BlockFits(if p.status then rba + 1 else if p.r > 0 then rba else 0,
                      if p.status then [StatusAddress(port)] else Addresses(ops[p.w..p.w + p.r]), port.Alignment())
  {
    hide Pow256, ValidOperation, Addresses;
    SmallFitsWire(port, rba);
    SmallFitsWire(port, rba + 1);
    SmallFitsWire(port, StatusAddress(port));
    AddressesFit(port, ops[p.w..p.w + p.r]);
  }

  /** Every packed record can be represented on the port. */
  lemma PackedFits(port: Port, ops: seq<Operation>, p: Plan, rba: nat)
    requires port.Valid() && Planned(port, ops, p) && rba < 0xFFFF
    ensures RecordFits(port, MakeRecord(port, ops, p, rba))
  {
    PackedWritesFit(port, ops, p);
    PackedReadsFit(port, ops, p, rba);
    hide BlockFits, PlanShape, LaneOf, DecodeSelect, SelectByte, Planned, LaneValues, Addresses, StatusAddress;
  }

  lemma {:induction false} CompileFits(port: Port, ops: seq<Operation>, count: nat, checked: bool, rba: nat)
    requires port.Valid() && ValidOperations(port, ops) && Pending(port, ops, count, checked) && rba < 0xFFFF
    ensures RecordsFit(port, Compile(port, ops, count, checked, rba))
    decreases |ops|, count
  {
    hide PlanRecord, MakeRecord, RecordFits, PlanRuns, ValidOperation, ChargeAll;
    var p := PlanRecord(port, ops, count, checked);
    PlanRunsCorrect(port, ops, count, checked);
    PlanCountsCorrect(port, ops, count, checked);
    PackedFits(port, ops, p, rba);
    if !p.last {
      ChargeBounds(count, ops[..p.w + p.r]);
      CompileFits(port, ops[p.w + p.r..], p.count, checked, rba);
    }
  }

  lemma {:induction false} RepliesFit<S>(env: Env<S>, port: Port, ss: Session<S>, rs: seq<Record>)
    requires port.Valid() && RecordsFit(port, rs)
    ensures RecordsFit(port, ExecRecords(env, port, ss, rs).1)
    decreases |rs|
  {
    hide ExecRecord, RecordFits;
    if |rs| > 0 {
      ReplyFits(env, port, ss, rs[0]);
      RepliesFit(env, port, ExecRecord(env, port, ss, rs[0]).0, rs[1..]);
    }
  }

  lemma {:induction false} EncodeConcat(port: Port, a: seq<Record>, b: seq<Record>)
    requires port.Valid() && RecordsFit(port, a) && RecordsFit(port, b)
    ensures RecordsFit(port, a + b) && EncodeAll(port, a + b) == EncodeAll(port, a) + EncodeAll(port, b)
    decreases |a|
  {
    hide RecordFits, Encode;
    if |a| == 0 {
      assert a + b == b;
    } else {
      EncodeConcat(port, a[1..], b);
      assert (a + b)[1..] == a[1..] + b;
    }
  }

  /** Serving the bytes of one record is executing the record. */
  lemma ServeOne<S>(env: Env<S>, port: Port, ss: Session<S>, r: Record, rest: seq<byte>)
    requires port.Valid() && RecordFits(port, r)
    ensures var out := ExecRecord(env, port, ss, r);
            var more := Serve(env, port, out.0, rest);
            RecordsFit(port, out.1)
            && Serve(env, port, ss, Encode(port, r) + rest) == Served(more.ss, EncodeAll(port, out.1) + more.output, more.rest)
  {
    RecordRoundTrip(port, r, rest);
    ReplyFits(env, port, ss, r);
    hide ExecRecord, Encode, EncodeAll, ParseRecord, RecordLength, RecordFits;
    RecordCounts(port, r, rest);
  }

  lemma RecordCounts(port: Port, r: Record, rest: seq<byte>)
    requires port.Valid() && RecordFits(port, r)
    ensures var bytes := Encode(port, r) + rest; |bytes| >= 4 && bytes[2] == |r.values| && bytes[3] == |r.addrs|
  {
    hide Block, Port.RecordAlignment;
  }

  /** Serving the bytes of records is executing the records, and the reply is their encoding. */
  lemma {:induction false} ServeEncoded<S>(env: Env<S>, port: Port, ss: Session<S>, rs: seq<Record>, rest: seq<byte>)
    requires port.Valid() && RecordsFit(port, rs)
    ensures var out := ExecRecords(env, port, ss, rs);
            var more := Serve(env, port, out.0, rest);
            RecordsFit(port, out.1)
            && Serve(env, port, ss, EncodeAll(port, rs) + rest) == Served(more.ss, EncodeAll(port, out.1) + more.output, more.rest)
    decreases |rs|
  {
    hide ExecRecord, Encode, RecordFits, ServeRecord, Complete;
    RepliesFit(env, port, ss, rs);
    if |rs| == 0 {
      assert EncodeAll(port, rs) + rest == rest;
      var more := Serve(env, port, ss, rest);
      assert [] + more.output == more.output;
    } else {
      var first := ExecRecord(env, port, ss, rs[0]);
      Regroup(Encode(port, rs[0]), EncodeAll(port, rs[1..]), rest);
      ServeOne(env, port, ss, rs[0], EncodeAll(port, rs[1..]) + rest);
      ServeEncoded(env, port, first.0, rs[1..], rest);
      RepliesFit(env, port, first.0, rs[1..]);
      var later := ExecRecords(env, port, first.0, rs[1..]);
      EncodeConcat(port, first.1, later.1);
      Regroup(EncodeAll(port, first.1), EncodeAll(port, later.1), Serve(env, port, later.0, rest).output);
    }
  }

  /** A cycle the master can pack. */
  ghost predicate Packable(port: Port, ops: seq<Operation>, checked: bool, rba: nat) {
    && port.Valid() && ValidOperations(port, ops) && 0 < |ops| < NO_LIMIT
    && rba % 2 == 0 && rba < 0x1_0000
  }

  /** The request bytes of one cycle. */
  function CycleBytes(port: Port, ops: seq<Operation>, checked: bool, rba: nat): seq<byte>
    requires Packable(port, ops, checked, rba)
  {
    CompileFits(port, ops, 0, checked, rba);
    EncodeAll(port, Compile(port, ops, 0, checked, rba))
  }

  /** A cycle is answered when it reads something, or when its bus operations are checked. */
  predicate NeedsReply(ops: seq<Operation>, checked: bool) {
    (exists i | 0 <= i < |ops| :: !ops[i].write) || (checked && exists i | 0 <= i < |ops| :: !ops[i].config)
  }

  lemma NeedsReplyIff(ops: seq<Operation>, checked: bool)
    ensures NeedsReply(ops, checked) <==> Waiting(ops, checked, 0, 0)
  {}

  /** End to end, on bytes: the slave, in whatever session state, leaves the bus as direct in-order
      execution would, and its reply bytes complete the response with the outcomes of direct
      execution, leaving every other response in its place. */
  lemma EndToEndOnBytes<S>(env: Env<S>, menv: Env<Queue>, port: Port, ss: Session<S>, q: Queue,
    before: seq<Response>, after: seq<Response>, cycle: Cycle, deadline: nat, checked: bool, rba: nat)
    requires TakesReplies(menv) && Packable(port, cycle.ops, checked, rba)
    requires Untouched(cycle.ops) && NeedsReply(cycle.ops, checked)
    requires QueueOk(q) && Fifo(q) == before + [NewResponse(cycle, rba, deadline, checked)] + after
    requires AllOk(before) && AllOk(after) && forall k | 0 <= k < |before| :: before[k].address != rba
    ensures var direct := Run(env, port, ss.m, cycle.ops);
            var served := Serve(env, port, ss, CycleBytes(port, cycle.ops, checked, rba));
            var back := Serve(menv, port, Fresh(q), served.output);
            && served.ss.m == direct.0 && served.ss.closed && served.rest == []
            && back.rest == [] && QueueOk(back.ss.m.s) && Fifo(back.ss.m.s) == before + after
            && back.ss.m.s.log == q.log + [Done(cycle.id, cycle.device, ResultStatus(cycle.ops, direct.1, checked),
                                                Operations(Results(cycle.ops, direct.1, checked)))]
  {
    hide Run, ValidOperation, Compile, Serve, ExecRecords, EncodeAll, RecordFits, Progress, NewResponse;
    var ops := cycle.ops;
    var f := Flight(before, after, q.log, cycle.id, cycle.device, rba, checked, ops, Run(env, port, ss.m, ops).1);
    CompileFits(port, ops, 0, checked, rba);
    var recs := Compile(port, ops, 0, checked, rba);
    NeedsReplyIff(ops, checked);
    NewResponseProgress(cycle, rba, deadline, checked, f.outs);
    NewResponseFields(cycle, rba, deadline, checked);
    assert InQueue(q, f, NewResponse(cycle, rba, deadline, checked), 0, 0);
    assert Stands(q, f, 0, 0);
    assert ops[0..] == ops;
    BetweenStart(env, port, f, ss.m);
    CycleServed(env, menv, port, f, ss.m, 0, 0, 0, ss, Fresh(q));
    var out := ExecRecords(env, port, ss, recs);
    ServeAll(env, port, ss, recs);
    ServeAll(menv, port, Fresh(q), out.1);
  }

  lemma NewResponseFields(cycle: Cycle, rba: nat, deadline: nat, checked: bool)
    ensures var r := NewResponse(cycle, rba, deadline, checked); r.address == rba && r.cycle == cycle
  {}

  lemma BetweenStart<S>(env: Env<S>, port: Port, f: Flight, m: Machine<S>)
    requires Executes(env, port, f, m)
    ensures Between(env, port, f, m, 0, 0, 0, m)
  {
    NoFaultsIn(f.ops, f.outs, 0);
  }

  lemma ServeAll<S>(env: Env<S>, port: Port, ss: Session<S>, rs: seq<Record>)
    requires port.Valid() && RecordsFit(port, rs)
    ensures var out := ExecRecords(env, port, ss, rs);
            RecordsFit(port, out.1) && Serve(env, port, ss, EncodeAll(port, rs)) == Served(out.0, EncodeAll(port, out.1), [])
  {
    hide ExecRecords, EncodeAll, RecordFits, ServeRecord;
    ServeEncoded(env, port, ss, rs, []);
    var out := ExecRecords(env, port, ss, rs);
    assert EncodeAll(port, rs) + [] == EncodeAll(port, rs);
    assert EncodeAll(port, out.1) + [] == EncodeAll(port, out.1);
  }

  /** A packed cycle means its operations to every slave, answered or not. */
  lemma {:induction false} CycleExecuted<S>(env: Env<S>, port: Port, ss: Session<S>, ops: seq<Operation>, count: nat, checked: bool, rba: nat)
    requires port.Valid() && ValidOperations(port, ops) && Pending(port, ops, count, checked)
    ensures var out := ExecRecords(env, port, ss, Compile(port, ops, count, checked, rba));
            out.0.m == Run(env, port, ss.m, ops).0 && out.0.closed
    decreases |ops|, count
  {
    hide Run, ExecRecord, MakeRecord, PlanRecord, PlanRuns, ChargeAll, ValidOperation;
    var p := PlanRecord(port, ops, count, checked);
    PlanRunsCorrect(port, ops, count, checked);
    PlanCountsCorrect(port, ops, count, checked);
    RecordMeaning(env, port, ss, ops, p, rba);
    var n := p.w + p.r;
    var rec := MakeRecord(port, ops, p, rba);
    RunConcat(env, port, ss.m, ops[..n], ops[n..]);
    assert ops[..n] + ops[n..] == ops;
    if p.last {
      RunNothing(env, port, Run(env, port, ss.m, ops[..n]).0);
      LastRecord(env, port, ss, rec);
    } else {
      ChargeBounds(count, ops[..n]);
      CycleExecuted(env, port, ExecRecord(env, port, ss, rec).0, ops[n..], p.count, checked, rba);
      FirstRecord(env, port, ss, rec, Compile(port, ops[n..], p.count, checked, rba));
    }
  }

  /** An access of the slave: to the bus or to configuration space. */
  datatype Access = Access(write: bool, config: bool, size: nat, big: nat, little: nat, value: nat)

  /** What the operations ask for. */
  function Accesses(port: Port, ops: seq<Operation>): seq<Access>
    requires port.Valid() && ValidOperations(port, ops)
    decreases |ops|
  {
    if |ops| == 0 then [] else [AccessOf(port, ops[0])] + Accesses(port, ops[1..])
  }

  function AccessOf(port: Port, op: Operation): Access
    requires port.Valid() && ValidOperation(port, op)
  {
    if op.config then
      if op.write then Access(true, true, op.size, op.address, op.address, op.value)
      else Access(false, true, op.size, ConfigAddress(port, op), ConfigAddress(port, op), 0)
    else
      Access(op.write, false, op.size, BigAddress(port, op), LittleAddress(port, op), if op.write then op.value else 0)
  }

  /** A slave that only records what it is asked to do. Its device never sees a read of configuration space. */
  function Recorder(): Env<seq<Access>> {
    Env((s: seq<Access>, size: nat, b: nat, l: nat) => BusReply(s + [Access(false, false, size, b, l, 0)], 0, false),
        (s: seq<Access>, size: nat, b: nat, l: nat, v: nat) => BusReply(s + [Access(true, false, size, b, l, v)], 0, false),
        (s: seq<Access>, size: nat, a: nat, v: nat) => s + [Access(true, true, size, a, a, v)])
  }

  /** The accesses that a device sees. */
  function Seen(accesses: seq<Access>): seq<Access> {
    if |accesses| == 0 then [] else
      (if accesses[0].config && !accesses[0].write then [] else [accesses[0]]) + Seen(accesses[1..])
  }

  lemma {:induction false} RunRecords(port: Port, m: Machine<seq<Access>>, ops: seq<Operation>)
    requires port.Valid() && ValidOperations(port, ops)
    ensures Run(Recorder(), port, m, ops).0.s == m.s + Seen(Accesses(port, ops))
    decreases |ops|
  {
    hide ValidOperation, BigAddress, LittleAddress, ConfigAddress, ReadConfig;
    if |ops| == 0 {
      assert m.s + [] == m.s;
    } else {
      var first := ExecOperation(Recorder(), port, m, ops[0]).0;
      RunRecords(port, first, ops[1..]);
      assert first.s == m.s + Seen([AccessOf(port, ops[0])]) by { assert [AccessOf(port, ops[0])][1..] == []; }
      assert Accesses(port, ops)[1..] == Accesses(port, ops[1..]);
      Regroup(m.s, Seen([AccessOf(port, ops[0])]), Seen(Accesses(port, ops[1..])));
    }
  }

  lemma {:induction false} AllSeen(port: Port, ops: seq<Operation>)
    requires port.Valid() && ValidOperations(port, ops) && forall i | 0 <= i < |ops| :: ops[i].write
    ensures Seen(Accesses(port, ops)) == Accesses(port, ops)
    decreases |ops|
  {
    hide ValidOperation;
    if |ops| > 0 {
      AllSeen(port, ops[1..]);
      assert Accesses(port, ops)[1..] == Accesses(port, ops[1..]);
    }
  }

  lemma {:induction false} AccessesConcat(port: Port, a: seq<Operation>, b: seq<Operation>)
    requires port.Valid() && ValidOperations(port, a) && ValidOperations(port, b)
    ensures ValidOperations(port, a + b) && Accesses(port, a + b) == Accesses(port, a) + Accesses(port, b)
    decreases |a|
  {
    hide ValidOperation, AccessOf;
    if |a| == 0 {
      assert a + b == b;
    } else {
      AccessesConcat(port, a[1..], b);
      assert (a + b)[1..] == a[1..] + b;
    }
  }

  /** The reads that the read addresses of a record ask for. */
  function AskedReads(port: Port, lane: Lane, config: bool, ras: seq<nat>): seq<Access>
    requires port.Valid()
    decreases |ras|
  {
    if |ras| == 0 || !lane.ok then [] else
      var word := WordAddress(port, ras[0]);
      var big, little := word + LowBig(port, lane), word + lane.shift;
      [Access(false, config, lane.size, big, if config then big else little, 0)] + AskedReads(port, lane, config, ras[1..])
  }

  /** What a record asks for: its writes, then its reads. Reads that are returned to an odd address ask for the
      error status instead. */
  function RequestOf(port: Port, r: Record): seq<Access>
    requires port.Valid()
  {
    AfterWrites(Recorder(), port, Machine([], 0), r).s
    + if r.bra % 2 == 1 then [] else AskedReads(port, DecodeSelect(r.select, port.data), r.rca, r.addrs)
  }

  function Requested(port: Port, rs: seq<Record>): seq<Access>
    requires port.Valid()
  {
    if |rs| == 0 then [] else RequestOf(port, rs[0]) + Requested(port, rs[1..])
  }

  lemma {:induction false} ReadsAsked(port: Port, lane: Lane, config: bool, ops: seq<Operation>)
    requires port.Valid() && ValidOperations(port, ops)
    requires forall i | 0 <= i < |ops| :: !ops[i].write && ops[i].config == config && OpLane(port, ops[i]) == lane
    ensures AskedReads(port, lane, config, Addresses(ops)) == Accesses(port, ops)
    decreases |ops|
  {
    if |ops| > 0 {
      ReadTargetRecovers(port, ops[0]);
      hide ValidOperation, WordAddress, BigAddress, LittleAddress, ConfigAddress, LowBig;
      ReadsAsked(port, lane, config, ops[1..]);
    }
  }

  lemma NoAccesses(port: Port)
    requires port.Valid()
    ensures Accesses(port, []) == []
  {}

  lemma PlannedWrites(port: Port, ops: seq<Operation>, p: Plan)
    requires port.Valid() && Planned(port, ops, p)
    ensures forall i | 0 <= i < p.w :: ops[i].write
  {
    hide ValidOperation, PlanShape;
  }

  lemma RecordRequests(port: Port, ops: seq<Operation>, p: Plan, rba: nat)
    requires port.Valid() && Planned(port, ops, p) && rba % 2 == 0
    ensures RequestOf(port, MakeRecord(port, ops, p, rba)) == Accesses(port, ops[..p.w + p.r])
  {
    hide AfterWrites, AskedReads, Accesses, Addresses, PlanRuns, PlanShape, LaneOf, DecodeSelect, SelectByte, LaneValues, ValidOperation, Recorder, Run;
    var ws, rs := ops[..p.w], ops[p.w..p.w + p.r];
    assert ws + rs == ops[..p.w + p.r];
    AccessesConcat(port, ws, rs);
    RecordWrites(Recorder(), port, Machine([], 0), ops, p, rba);
    RunRecords(port, Machine([], 0), ws);
    PlannedWrites(port, ops, p);
    AllSeen(port, ws);
    assert [] + Accesses(port, ws) == Accesses(port, ws);
    PlanLaneShared(port, ops, p);
    PlannedReads(port, ops, p);
    NoAccesses(port);
    ReadsAsked(port, PlanLane(port, ops, p), p.r > 0 && ops[p.w].config, rs);
  }

  lemma {:induction false} CompileRequests(port: Port, ops: seq<Operation>, count: nat, checked: bool, rba: nat)
    requires port.Valid() && ValidOperations(port, ops) && Pending(port, ops, count, checked) && rba % 2 == 0
    ensures Requested(port, Compile(port, ops, count, checked, rba)) == Accesses(port, ops)
    decreases |ops|, count
  {
    hide RequestOf, Accesses, MakeRecord, PlanRecord, PlanRuns, ChargeAll, ValidOperation;
    var p := PlanRecord(port, ops, count, checked);
    PlanRunsCorrect(port, ops, count, checked);
    PlanCountsCorrect(port, ops, count, checked);
    RecordRequests(port, ops, p, rba);
    var n := p.w + p.r;
    var rec := MakeRecord(port, ops, p, rba);
    assert ops[..n] + ops[n..] == ops;
    AccessesConcat(port, ops[..n], ops[n..]);
    if p.last {
      assert Compile(port, ops, count, checked, rba) == [rec] && [rec][1..] == [] && ops[..n] == ops;
      assert Accesses(port, ops) + [] == Accesses(port, ops);
    } else {
      ChargeBounds(count, ops[..n]);
      var rest := Compile(port, ops[n..], p.count, checked, rba);
      CompileRequests(port, ops[n..], p.count, checked, rba);
      assert ([rec] + rest)[1..] == rest;
    }
  }

  /** The complete records at the front of some bytes. */
  function ParseAll(port: Port, bytes: seq<byte>): seq<Record>
    requires port.Valid()
    decreases |bytes|
  {
    if !Complete(port, bytes) then [] else
      [ParseRecord(port, bytes)] + ParseAll(port, bytes[RecordLength(port, bytes[2], bytes[3])..])
  }

  lemma {:induction false} ParseEncoded(port: Port, rs: seq<Record>)
    requires port.Valid() && RecordsFit(port, rs)
    ensures ParseAll(port, EncodeAll(port, rs)) == rs
    decreases |rs|
  {
    hide Encode, RecordFits, ParseRecord, RecordLength;
    if |rs| > 0 {
      RecordRoundTrip(port, rs[0], EncodeAll(port, rs[1..]));
      RecordCounts(port, rs[0], EncodeAll(port, rs[1..]));
      ParseEncoded(port, rs[1..]);
    }
  }

  /** Decoding the request yields the same operations in the same order: same kind, address, size
      and value, through chaining, lane shifts and endian; and these are what a slave does to its device. */
  lemma RequestRoundTrip(port: Port, ops: seq<Operation>, checked: bool, rba: nat)
    requires Packable(port, ops, checked, rba)
    ensures Requested(port, ParseAll(port, CycleBytes(port, ops, checked, rba))) == Accesses(port, ops)
    ensures var served := Serve(Recorder(), port, Fresh([]), CycleBytes(port, ops, checked, rba));
            served.ss.m.s == Seen(Accesses(port, ops)) && served.rest == []
  {
    hide Run, ValidOperation, Compile, Serve, ExecRecords, EncodeAll, RecordFits, Accesses, Recorder, Seen, Requested, ParseAll;
    CompileFits(port, ops, 0, checked, rba);
    CycleExecuted(Recorder(), port, Fresh([]), ops, 0, checked, rba);
    ServeAll(Recorder(), port, Fresh([]), Compile(port, ops, 0, checked, rba));
    RunRecords(port, Machine([], 0), ops);
    assert [] + Seen(Accesses(port, ops)) == Seen(Accesses(port, ops));
    ParseEncoded(port, Compile(port, ops, 0, checked, rba));
    CompileRequests(port, ops, 0, checked, rba);
  }
}
