/**
 What packed records mean to the slave: executing the record made for a run of operations is
 executing those operations one by one.
 */
module Meaning {
  import opened Words
  import opened Lanes
  import opened Records
  import opened Operations
  import opened Bus
  import opened Interpreter
  import opened Packer

  function TargetOf(port: Port, op: Operation): Target
    requires port.Valid() && ValidOperation(port, op)
  {
    if op.config then ConfigTarget(op.address) else BusTarget(BigAddress(port, op), LittleAddress(port, op))
  }

  /** The lane of a valid operation. */
  function OpLane(port: Port, op: Operation): (lane: Lane)
    requires port.Valid() && ValidOperation(port, op)
    ensures lane == LaneOf(port, ShapeOf(port, op))
    ensures lane.ok && lane.size == op.size && LaneFits(lane.size, lane.shift, port.data)
  {
    LowAddressFits(port, op);
    LaneOf(port, ShapeOf(port, op))
  }

  /** The select byte of a record recovers the operation's lane. */
  lemma OpLaneDecodes(port: Port, op: Operation)
    requires port.Valid() && ValidOperation(port, op)
    ensures var lane := OpLane(port, op);
            lane.size <= 8 && lane.shift <= 8 && DecodeSelect(SelectByte(lane.size, lane.shift), port.data) == lane
  {
    var lane := OpLane(port, op);
    hide DecodeSelect, SelectByte;
    SelectRoundTrip(lane.size, lane.shift, port.data);
  }

  /** The slave rebuilds both byte addresses of a write, whatever its endian. */
  lemma WriteTargetRecovers(port: Port, op: Operation)
    requires port.Valid() && ValidOperation(port, op)
    ensures WriteTarget(port, OpLane(port, op), op.config, op.address) == TargetOf(port, op)
  {
    WordOfAddress(port, op.address);
    LowAddressFits(port, op);
  }

  lemma NextWord(data: nat, a: nat, x: nat)
    requires IsWidth(data) && a < WORD64 && x < data
    ensures ((a + data) % WORD64) % data == a % data
    ensures (a - a % data + x + data) % WORD64 == (a + data) % WORD64 - a % data + x
  {
    var low := a % data;
    var word := a - low;
    RoundDown(data, a);
    WordFits(data, word, low);
    if word + data < WORD64 {
      WordFits(data, word + data, low);
      assert a + data == (word + data) + low;
      Wrap(a + data, 0);
      Wrap(word + x + data, 0);
    } else {
      Wrap(a + data, 1);
      Wrap(word + x + data, 1);
    }
  }

  lemma WordFits(data: nat, word: nat, low: nat)
    requires IsWidth(data) && low < data && word < WORD64 && word % data == 0
    ensures (word + low) % data == low && (word + data) % data == 0 && word + data <= WORD64
  {}

  lemma RoundDown(data: nat, a: nat)
    requires IsWidth(data)
    ensures (a - a % data) % data == 0
  {}

  lemma Wrap(a: nat, k: nat)
    requires k * WORD64 <= a < (k + 1) * WORD64
    ensures a % WORD64 == a - k * WORD64
  {}

  /** Moving the slave's address registers follows the chain of writes. */
  lemma AdvanceFollows(port: Port, fifo: bool, a: Operation, b: Operation)
    requires port.Valid() && ValidOperation(port, a) && ValidOperation(port, b)
    requires SameKind(a, b) && b.address == NextAddress(port, fifo, a.address) && a.address < WORD64
    ensures OpLane(port, b) == OpLane(port, a)
    ensures TargetOf(port, b) == if fifo then TargetOf(port, a) else Advance(port, TargetOf(port, a))
  {
    NextLow(port, fifo, a, b);
    LowAddressFits(port, a);
    LowAddressFits(port, b);
    if !a.config {
      NextTarget(port, fifo, a, b);
    }
  }

  lemma NextLow(port: Port, fifo: bool, a: Operation, b: Operation)
    requires port.Valid() && b.address == NextAddress(port, fifo, a.address) && a.address < WORD64
    ensures LowAddress(port, b) == LowAddress(port, a)
  {
    if !fifo {
      NextWord(port.data, a.address, LowAddress(port, a));
    }
  }

  lemma NextTarget(port: Port, fifo: bool, a: Operation, b: Operation)
    requires port.Valid() && ValidOperation(port, a) && ValidOperation(port, b)
    requires SameKind(a, b) && b.address == NextAddress(port, fifo, a.address) && a.address < WORD64
    ensures BigAddress(port, b) == if fifo then BigAddress(port, a) else (BigAddress(port, a) + port.data) % WORD64
    ensures LittleAddress(port, b) == if fifo then LittleAddress(port, a) else (LittleAddress(port, a) + port.data) % WORD64
  {
    hide *;
    NextLow(port, fifo, a, b);
    Places(port, a);
    Places(port, b);
    NextIs(port, fifo, a, b);
    if !fifo {
      NextPlace(port.data, a.address, b.address, BigLane(port, a));
      NextPlace(port.data, a.address, b.address, LittleLane(port, a));
    }
  }

  /** Where in its bus word an operation begins, counted from either end. */
  function BigLane(port: Port, op: Operation): int
    requires port.Valid()
  {
    if op.endian == Little then port.data - (LowAddress(port, op) + op.size) else LowAddress(port, op)
  }

  function LittleLane(port: Port, op: Operation): int
    requires port.Valid()
  {
    if op.endian == Big then port.data - (LowAddress(port, op) + op.size) else LowAddress(port, op)
  }

  lemma Places(port: Port, op: Operation)
    requires port.Valid() && ValidOperation(port, op)
    ensures IsWidth(port.data) && LowAddress(port, op) == op.address % port.data
    ensures 0 <= BigLane(port, op) < port.data && BigAddress(port, op) == op.address - LowAddress(port, op) + BigLane(port, op)
    ensures 0 <= LittleLane(port, op) < port.data && LittleAddress(port, op) == op.address - LowAddress(port, op) + LittleLane(port, op)
  {
    LowAddressFits(port, op);
    hide LowAddress;
    assert op.size > 0;
    assert LowAddress(port, op) == op.address % port.data by { LowIs(port, op); }
  }

  lemma LowIs(port: Port, op: Operation)
    requires port.Valid()
    ensures LowAddress(port, op) == op.address % port.data
  {}

  lemma NextIs(port: Port, fifo: bool, a: Operation, b: Operation)
    requires port.Valid() && SameKind(a, b) && b.address == NextAddress(port, fifo, a.address) && LowAddress(port, b) == LowAddress(port, a)
    ensures b.address == if fifo then a.address else (a.address + port.data) % WORD64
    ensures BigLane(port, b) == BigLane(port, a) && LittleLane(port, b) == LittleLane(port, a)
  {
    hide LowAddress;
  }

  lemma NextPlace(data: nat, a: nat, b: nat, x: nat)
    requires IsWidth(data) && a < WORD64 && x < data && b == (a + data) % WORD64
    ensures b - a % data + x == (a - a % data + x + data) % WORD64 && b % data == a % data
  {
    NextWord(data, a, x);
  }

  lemma AddressBound(port: Port, op: Operation)
    requires port.Valid() && ValidOperation(port, op)
    ensures op.address < Pow256(port.Alignment()) && op.address < WORD64
  {
    Pow256Values();
    Pow256Monotone(port.addr, port.Alignment());
    Pow256Monotone(2, port.Alignment());
    Pow256Monotone(port.addr, 8);
  }

  lemma WriteMeaning<S>(env: Env<S>, port: Port, m: Machine<S>, op: Operation)
    requires port.Valid() && ValidOperation(port, op) && op.write
    ensures ExecWrite(env, OpLane(port, op), TargetOf(port, op), m, ShiftUp(op.value, OpLane(port, op).shift))
         == ExecOperation(env, port, m, op).0
  {
    LaneShift(op.value, op.size, OpLane(port, op).shift);
  }

  lemma {:induction false} WritesMeaning<S>(env: Env<S>, port: Port, fifo: bool, m: Machine<S>, ops: seq<Operation>)
    requires port.Valid() && ValidOperations(port, ops) && WriteRun(port, ops, fifo) && |ops| > 0
    ensures ExecWrites(env, port, OpLane(port, ops[0]), fifo, TargetOf(port, ops[0]), m,
                       LaneValues(ops, OpLane(port, ops[0]).shift))
         == Run(env, port, m, ops).0
    decreases |ops|
  {
    hide ExecWrite, ExecOperation, TargetOf, OpLane, Advance, Pow256, ValidOperation;
    var rest := ops[1..];
    var first := ExecOperation(env, port, m, ops[0]);
    WriteMeaning(env, port, m, ops[0]);
    if |rest| > 0 {
      assert rest[0] == ops[1];
      AddressBound(port, ops[0]);
      AdvanceFollows(port, fifo, ops[0], ops[1]);
      assert WriteRun(port, rest, fifo) by {
        assert forall i | 0 < i < |rest| :: rest[i].address == ops[i + 1].address && rest[i - 1] == ops[i];
      }
      WritesMeaning(env, port, fifo, first.0, rest);
    }
  }

  /** The words a run of reads puts on the wire. */
  function WireValues(outs: seq<Outcome>, lane: Lane): (vs: seq<nat>)
    ensures |vs| == |outs|
  {
    if |outs| == 0 then [] else [ToLanes(outs[0].value, lane)] + WireValues(outs[1..], lane)
  }

  lemma ReadTargetRecovers(port: Port, op: Operation)
    requires port.Valid() && ValidOperation(port, op)
    ensures var lane, word := OpLane(port, op), WordAddress(port, op.address);
            && word + LowBig(port, lane) == (if op.config then ConfigAddress(port, op) else BigAddress(port, op))
            && (!op.config ==> word + lane.shift == LittleAddress(port, op))
  {
    WordOfAddress(port, op.address);
    LowAddressFits(port, op);
  }

  lemma LanesOnce(v: nat, lane: Lane)
    ensures ToLanes(v % Pow256(lane.size), lane) == ToLanes(v, lane)
  {
    ModTwice(v, Pow256(lane.size));
    hide Pow256;
  }

  lemma ReadMeaning<S>(env: Env<S>, port: Port, m: Machine<S>, op: Operation)
    requires port.Valid() && ValidOperation(port, op) && !op.write
    ensures var out := ExecOperation(env, port, m, op);
            ExecRead(env, port, OpLane(port, op), op.config, m, op.address) == (out.0, ToLanes(out.1.value, OpLane(port, op)))
  {
    ReadTargetRecovers(port, op);
    var lane, word := OpLane(port, op), WordAddress(port, op.address);
    LaneRead(env, port, lane, op.config, m, op.address);
    DirectRead(env, port, m, op);
    hide *;
    if !op.config {
      LanesOnce(env.read(m.s, op.size, BigAddress(port, op), LittleAddress(port, op)).value, lane);
    }
  }

  /** One read of the slave on accepted lanes. */
  lemma LaneRead<S>(env: Env<S>, port: Port, lane: Lane, config: bool, m: Machine<S>, ra: nat)
    requires port.Valid() && lane.ok && lane.size <= 8
    ensures var word := WordAddress(port, ra);
            && (config ==> ExecRead(env, port, lane, config, m, ra) == (m, ToLanes(ReadConfig(lane.size, word + LowBig(port, lane), m.err), lane)))
            && (!config ==> var reply := env.read(m.s, lane.size, word + LowBig(port, lane), word + lane.shift);
                            ExecRead(env, port, lane, config, m, ra) == (Machine(reply.s, ShiftIn(m.err, reply.fail)), ToLanes(reply.value, lane)))
  {
    hide WordAddress, ReadConfig, LowBig, ToLanes, ShiftIn;
  }

  /** One read executed directly. */
  lemma DirectRead<S>(env: Env<S>, port: Port, m: Machine<S>, op: Operation)
    requires port.Valid() && ValidOperation(port, op) && !op.write
    ensures OpLane(port, op).ok && OpLane(port, op).size == op.size <= 8
    ensures op.config ==> ExecOperation(env, port, m, op) == (m, Outcome(ReadConfig(op.size, ConfigAddress(port, op), m.err), false))
    ensures !op.config ==> var reply := env.read(m.s, op.size, BigAddress(port, op), LittleAddress(port, op));
                           ExecOperation(env, port, m, op) == (Machine(reply.s, ShiftIn(m.err, reply.fail)), Outcome(reply.value % Pow256(op.size), reply.fail))
  {
    hide BigAddress, LittleAddress, ConfigAddress, ReadConfig, Pow256, ShiftIn;
  }

  lemma {:induction false} ReadsMeaning<S>(env: Env<S>, port: Port, lane: Lane, config: bool, m: Machine<S>, ops: seq<Operation>)
    requires port.Valid() && ValidOperations(port, ops) && lane.size <= 8
    requires forall i | 0 <= i < |ops| :: !ops[i].write && ops[i].config == config && OpLane(port, ops[i]) == lane
    ensures var out := Run(env, port, m, ops);
            ExecReads(env, port, lane, config, m, Addresses(ops)) == (out.0, WireValues(out.1, lane))
    decreases |ops|
  {
    hide ExecRead, ExecOperation, OpLane, ToLanes, ValidOperation;
    if |ops| > 0 {
      var first := ExecOperation(env, port, m, ops[0]);
      ReadMeaning(env, port, m, ops[0]);
      ReadsMeaning(env, port, lane, config, first.0, ops[1..]);
    }
  }

  /** A plan ready to be turned into a record. */
  predicate Planned(port: Port, ops: seq<Operation>, p: Plan)
    requires port.Valid()
  {
    && ValidOperations(port, ops) && p.w + p.r <= |ops| && p.w <= MAX_COUNT && p.r <= MAX_COUNT
    && p.w + p.r + (if p.status then 1 else 0) > 0 && (p.status ==> p.r == 0)
    && PlanRuns(port, ops, p)
  }

  function PlanLane(port: Port, ops: seq<Operation>, p: Plan): Lane
    requires port.Valid() && Planned(port, ops, p)
  {
    LaneOf(port, PlanShape(port, ops, p))
  }

  /** All operations of a record, and a status read in it, share the record's lane. */
  lemma PlanLaneShared(port: Port, ops: seq<Operation>, p: Plan)
    requires port.Valid() && Planned(port, ops, p)
    ensures p.w > 0 ==> PlanLane(port, ops, p) == OpLane(port, ops[0])
    ensures p.r > 0 ==> PlanLane(port, ops, p) == OpLane(port, ops[p.w])
    ensures p.status ==> PlanLane(port, ops, p) == Lane(true, port.data, 0)
    ensures var lane := PlanLane(port, ops, p);
            && LaneFits(lane.size, lane.shift, port.data)
            && DecodeSelect(SelectByte(lane.size, lane.shift), port.data) == lane
  {
    hide DecodeSelect, SelectByte, ValidOperation, WriteRun;
    if p.w > 0 {
      OpLaneDecodes(port, ops[0]);
    } else if p.r > 0 {
      assert ops[p.w..p.w + p.r][0] == ops[p.w];
      OpLaneDecodes(port, ops[0]);
    } else {
      SelectRoundTrip(port.data, 0, port.data);
    }
    if p.r > 0 {
      assert ops[p.w..p.w + p.r][0] == ops[p.w];
    }
  }

  /** The newest error bits, which the status register of the port shows. */
  function StatusValue(port: Port, err: nat): nat {
    err % Pow256(port.data)
  }

  lemma StatusConfig(port: Port, err: nat)
    requires port.Valid()
    ensures ReadConfig(port.data, StatusAddress(port), err) == StatusValue(port, err)
  {
    var d := port.data;
    hide FromBytes, ToBytes, Pow256;
    assert ErrorBytes(err)[8 - d..8 - d + d] == ToBytes(err, 8)[8 - d..];
    TailBytes(err, 8, d);
  }

  lemma WholePort(port: Port, err: nat)
    ensures ToLanes(StatusValue(port, err), Lane(true, port.data, 0)) == StatusValue(port, err)
  {
    ModTwice(err, Pow256(port.data));
    assert Pow256(0) == 1;
  }

  lemma StatusRead<S>(env: Env<S>, port: Port, m: Machine<S>)
    requires port.Valid()
    ensures ExecReads(env, port, Lane(true, port.data, 0), true, m, [StatusAddress(port)]) == (m, [StatusValue(port, m.err)])
  {
    hide ReadConfig, ToLanes, WordAddress, LowBig, Pow256, StatusValue, StatusAddress;
    var lane := Lane(true, port.data, 0);
    StatusWord(port);
    StatusConfig(port, m.err);
    WholePort(port, m.err);
    StatusAddressIs(port);
    assert ExecRead(env, port, lane, true, m, StatusAddress(port)) == (m, StatusValue(port, m.err));
    assert [StatusAddress(port)][1..] == [];
    assert [StatusValue(port, m.err)] + [] == [StatusValue(port, m.err)];
  }

  lemma StatusAddressIs(port: Port)
    requires port.Valid()
    ensures StatusAddress(port) == 8 - port.data
  {
  }

  lemma StatusWord(port: Port)
    requires port.Valid()
    ensures WordAddress(port, StatusAddress(port)) + LowBig(port, Lane(true, port.data, 0)) == 8 - port.data
  {
    var a := StatusAddress(port);
    WordOfAddress(port, a);
    assert Pow256(1) == 256;
    Pow256Monotone(1, port.addr);
    hide WordAddress, Pow256;
    assert a % port.data == 0;
  }

  /** The writes of a packed record do what the operations do. */
  lemma RecordWrites<S>(env: Env<S>, port: Port, m: Machine<S>, ops: seq<Operation>, p: Plan, rba: nat)
    requires port.Valid() && Planned(port, ops, p)
    ensures AfterWrites(env, port, m, MakeRecord(port, ops, p, rba)) == Run(env, port, m, ops[..p.w]).0
  {
    PlanLaneShared(port, ops, p);
    hide DecodeSelect, SelectByte, ValidOperation, ExecWrites, LaneValues;
    if p.w > 0 {
      WritesMeaning(env, port, p.w > 1 && IsFifo(ops), m, ops[..p.w]);
      WriteTargetRecovers(port, ops[0]);
    }
  }

  lemma PlannedReads(port: Port, ops: seq<Operation>, p: Plan)
    requires port.Valid() && Planned(port, ops, p)
    ensures var rs := ops[p.w..p.w + p.r];
            && ValidOperations(port, rs)
            && forall i | 0 <= i < |rs| :: !rs[i].write && rs[i].config == (p.r > 0 && ops[p.w].config)
                                           && OpLane(port, rs[i]) == PlanLane(port, ops, p)
  {
    hide ValidOperation, WriteRun, PlanShape;
  }

  /** The reads of a packed record answer what the operations answer, or the error status. */
  lemma RecordReads<S>(env: Env<S>, port: Port, m: Machine<S>, ops: seq<Operation>, p: Plan, rba: nat)
    requires port.Valid() && Planned(port, ops, p)
    ensures var run := Run(env, port, m, ops[p.w..p.w + p.r]);
            AfterReads(env, port, m, MakeRecord(port, ops, p, rba))
              == if p.status then (m, [StatusValue(port, m.err)]) else (run.0, WireValues(run.1, PlanLane(port, ops, p)))
  {
    hide DecodeSelect, SelectByte, ValidOperation, ExecReads;
    hide Run, WireValues, Addresses, LaneValues, StatusValue, StatusAddress, PlanRuns, PlanShape, LaneOf, ValidOperations;
    PlanLaneShared(port, ops, p);
    if p.status {
      StatusRead(env, port, m);
    } else {
      PlannedReads(port, ops, p);
      ReadsMeaning(env, port, PlanLane(port, ops, p), p.r > 0 && ops[p.w].config, m, ops[p.w..p.w + p.r]);
    }
  }
}
