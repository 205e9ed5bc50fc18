/**
 The whole path of a cycle: packed by the master, executed by the slave, and its reply fed back. The
 bus ends up as if the operations had been executed directly, and every operation gets its own
 read value and error flag.
 */
module EndToEnd {
  import opened Words
  import opened Lanes
  import opened Records
  import opened Operations
  import opened Bus
  import opened Interpreter
  import opened Packer
  import opened Meaning
  import opened Responses
  import opened Delivery

  /** What the record of a plan is answered with: the status, its read values, or at most a cycle end. */
  function Replies(port: Port, ops: seq<Operation>, p: Plan, rec: Record, open: bool, err: nat, shown: seq<Outcome>): seq<Record>
    requires port.Valid() && Planned(port, ops, p)
  {
    if p.status then [ReplyRecord(rec, [StatusValue(port, err)])]
    else if p.r > 0 then [ReplyRecord(rec, WireValues(shown, PlanLane(port, ops, p)))]
    else if open && p.last then [TERMINATOR] else []
  }

  /** Executing the record of a plan: the operations' effect, and what is replied. */
  lemma RecordMeaning<S>(env: Env<S>, port: Port, ss: Session<S>, ops: seq<Operation>, p: Plan, rba: nat)
    requires port.Valid() && Planned(port, ops, p)
    ensures var rec := MakeRecord(port, ops, p, rba);
            var out := ExecRecord(env, port, ss, rec);
            var run := Run(env, port, ss.m, ops[..p.w + p.r]);
            && out.0.m == run.0 && out.0.closed == p.last
            && out.1 == Replies(port, ops, p, rec, ss.open, run.0.err, run.1[p.w..])
  {
    hide Run, AfterWrites, AfterReads, PlanLane, WireValues, StatusValue, PlanRuns, DecodeSelect, SelectByte;
    hide LaneValues, Addresses, PlanShape, LaneOf, StatusAddress, ValidOperation;
    var ws, rs := ops[..p.w], ops[p.w..p.w + p.r];
    RecordWrites(env, port, ss.m, ops, p, rba);
    RecordReads(env, port, Run(env, port, ss.m, ws).0, ops, p, rba);
    RunConcat(env, port, ss.m, ws, rs);
    assert ws + rs == ops[..p.w + p.r];
    var rest := Run(env, port, Run(env, port, ss.m, ws).0, rs);
    assert (Run(env, port, ss.m, ws).1 + rest.1)[p.w..] == rest.1;
    if p.status {
      assert rs == [];
      RunNothing(env, port, Run(env, port, ss.m, ws).0);
    } else if p.r == 0 {
      assert rs == [];
      RunNothing(env, port, Run(env, port, ss.m, ws).0);
    }
  }

  lemma RunNothing<S>(env: Env<S>, port: Port, m: Machine<S>)
    requires port.Valid()
    ensures Run(env, port, m, []) == (m, [])
  {}

  /** The master's own configuration space: writes to it are replies. */
  ghost predicate TakesReplies(menv: Env<Queue>) {
    forall q: Queue, size: nat, a: nat, v: nat | QueueOk(q) :: menv.config(q, size, a, v) == WriteConfig(q, size, a, v)
  }

  /** Running a flight: its outcomes are those of direct execution from `m0`. */
  ghost predicate Executes<S>(env: Env<S>, port: Port, f: Flight, m0: Machine<S>) {
    && port.Valid() && ValidOperations(port, f.ops) && FlightOk(f)
    && f.outs == Run(env, port, m0, f.ops).1
  }

  lemma {:induction false} RunPrefix<S>(env: Env<S>, port: Port, m0: Machine<S>, ops: seq<Operation>, i: nat, j: nat)
    requires port.Valid() && ValidOperations(port, ops) && i <= j <= |ops|
    ensures var at := Run(env, port, m0, ops[..i]).0;
            && Run(env, port, m0, ops[..j]).0 == Run(env, port, at, ops[i..j]).0
            && Run(env, port, at, ops[i..j]).1 == Run(env, port, m0, ops).1[i..j]
  {
    hide Run, ValidOperation;
    RunConcat(env, port, m0, ops[..i], ops[i..j]);
    assert ops[..i] + ops[i..j] == ops[..j];
    RunConcat(env, port, m0, ops[..j], ops[j..]);
    assert ops[..j] + ops[j..] == ops;
  }

  /** Read outcomes fit the operation's size. */
  lemma OutcomeFits<S>(env: Env<S>, port: Port, m: Machine<S>, op: Operation)
    requires port.Valid() && ValidOperation(port, op) && !op.write
    ensures ExecOperation(env, port, m, op).1.value < Pow256(op.size)
  {
    if op.config {
      ConfigFits(op.size, ConfigAddress(port, op), m.err);
    }
  }

  lemma ConfigFits(size: nat, address: nat, err: nat)
    requires size <= 8
    ensures ReadConfig(size, address, err) < Pow256(size)
  {
    if address < 8 {
      FromBytesBound(ErrorBytes(err)[address..address + size]);
    }
  }

  lemma {:induction false} OutcomesFit<S>(env: Env<S>, port: Port, m: Machine<S>, ops: seq<Operation>, k: nat)
    requires port.Valid() && ValidOperations(port, ops) && k < |ops| && !ops[k].write
    ensures Run(env, port, m, ops).1[k].value < Pow256(ops[k].size)
    decreases |ops|
  {
    hide ExecOperation, ValidOperation;
    if k == 0 {
      OutcomeFits(env, port, m, ops[0]);
    } else {
      OutcomesFit(env, port, ExecOperation(env, port, m, ops[0]).0, ops[1..], k - 1);
    }
  }

  lemma LanesBack(v: nat, lane: Lane)
    requires v < Pow256(lane.size)
    ensures FromLanes(ToLanes(v, lane), lane) == v
  {
    LaneShift(v, lane.size, lane.shift);
  }

  /** Values coming back reach the next reads in order. */
  lemma {:induction false} ReadsDelivered(menv: Env<Queue>, port: Port, lane: Lane, q: Queue, err: nat, f: Flight,
    pos: nat, n: nat, spos: nat)
    requires TakesReplies(menv) && FlightOk(f) && lane.ok && spos <= pos && pos + n <= |f.ops| && Stands(q, f, pos, spos)
    requires forall k | pos <= k < pos + n :: !f.ops[k].write && f.outs[k].value < Pow256(lane.size)
    ensures var m := ExecWrites(menv, port, lane, true, ConfigTarget(f.address), Machine(q, err), WireValues(f.outs[pos..pos + n], lane));
            Stands(m.s, f, pos + n, spos)
    decreases n
  {
    hide Stands, WriteConfig, FromLanes, ToLanes, Pow256;
    if n > 0 {
      var outs := f.outs[pos..pos + n];
      assert outs[1..] == f.outs[pos + 1..pos + n];
      LanesBack(f.outs[pos].value, lane);
      StandsRead(q, f, pos, spos, lane.size);
      StandsOk(q, f, pos, spos);
      var q' := menv.config(q, lane.size, f.address, f.outs[pos].value);
      ReadsDelivered(menv, port, lane, q', err, f, pos + 1, n - 1, spos);
    }
  }

  lemma StandsOk(q: Queue, f: Flight, pos: nat, spos: nat)
    requires FlightOk(f) && spos <= pos <= |f.ops| && Stands(q, f, pos, spos)
    ensures QueueOk(q)
  {}

  /** A reply record is executed by the master as writes of its values to the return address. */
  lemma ReplyExecuted(menv: Env<Queue>, port: Port, mss: Session<Queue>, rec: Record, values: seq<nat>, bra: nat, lane: Lane)
    requires port.Valid() && |values| > 0 && rec.bca && rec.rff && rec.bra == bra
    requires DecodeSelect(rec.select, port.data) == lane
    ensures ExecRecord(menv, port, mss, ReplyRecord(rec, values)).0.m
         == ExecWrites(menv, port, lane, true, ConfigTarget(bra), mss.m, values)
  {
    hide DecodeSelect, ExecWrites;
  }

  /** The status register shows the faults of the group it closes. */
  lemma StatusShows<S>(env: Env<S>, port: Port, f: Flight, m0: Machine<S>, spos: nat, pos: nat)
    requires Executes(env, port, f, m0) && spos <= pos <= |f.ops|
    requires |FaultsIn(f.ops, f.outs, spos, pos)| <= 8 * port.data
    ensures ShowsFaults(StatusValue(port, Run(env, port, m0, f.ops[..pos]).0.err), FaultsIn(f.ops, f.outs, spos, pos))
  {
    var err := Run(env, port, m0, f.ops[..pos]).0.err;
    var fs := FaultsIn(f.ops, f.outs, spos, pos);
    var at := Run(env, port, m0, f.ops[..spos]).0;
    RunPrefix(env, port, m0, f.ops, spos, pos);
    Pow2IsPow256(port.data);
    hide Run, Faults, Bit, Pow2, Pow256, ValidOperation;
    assert ValidOperations(port, f.ops[spos..pos]);
    forall j | 0 <= j < |fs| ensures Bit(StatusValue(port, err), j) == fs[|fs| - 1 - j] {
      BitOfMod(err, 8 * port.data, j);
      ErrorHistory(env, port, at, f.ops[spos..pos], j);
    }
  }

  /** Where a plan leaves the flight: how far it is executed, and how far its faults are reported. */
  function NextStatus(p: Plan, pos: nat, spos: nat): nat {
    if p.status then pos + p.w + p.r else spos
  }

  /** The reply to a status record delivers the faults of its group. */
  lemma StatusDelivered<S>(env: Env<S>, menv: Env<Queue>, port: Port, f: Flight, m0: Machine<S>,
    pos: nat, spos: nat, mss: Session<Queue>, rec: Record)
    requires Executes(env, port, f, m0) && TakesReplies(menv) && f.checked && spos <= pos <= |f.ops|
    requires rec.bca && rec.rff && rec.bra == f.address + 1
    requires DecodeSelect(rec.select, port.data) == Lane(true, port.data, 0)
    requires var n := |FaultsIn(f.ops, f.outs, spos, pos)|; 0 < n <= 8 * port.data && (n == 8 * port.data || pos == |f.ops|)
    requires Stands(mss.m.s, f, pos, spos)
    ensures var value := StatusValue(port, Run(env, port, m0, f.ops[..pos]).0.err);
            Stands(ExecRecord(menv, port, mss, ReplyRecord(rec, [value])).0.m.s, f, pos, pos)
  {
    var value := StatusValue(port, Run(env, port, m0, f.ops[..pos]).0.err);
    StatusShows(env, port, f, m0, spos, pos);
    StandsOk(mss.m.s, f, pos, spos);
    StandsStatus(mss.m.s, f, pos, spos, port.data, value);
    hide Run, StatusValue, FaultsIn, ShowsFaults, Stands, ValidOperations;
    ReplyExecuted(menv, port, mss, rec, [value], rec.bra, Lane(true, port.data, 0));
    hide DecodeSelect, WriteConfig;
    StatusLanes(port, Run(env, port, m0, f.ops[..pos]).0.err);
    assert [value][1..] == [];
  }

  lemma StatusLanes(port: Port, err: nat)
    ensures FromLanes(StatusValue(port, err), Lane(true, port.data, 0)) == StatusValue(port, err)
  {
    ModTwice(err, Pow256(port.data));
    assert Pow256(0) == 1;
  }

  /** Replies to a record with reads deliver its read values. */
  lemma ValuesDelivered<S>(env: Env<S>, menv: Env<Queue>, port: Port, f: Flight, m0: Machine<S>,
    pos: nat, n: nat, spos: nat, mss: Session<Queue>, rec: Record, lane: Lane)
    requires Executes(env, port, f, m0) && TakesReplies(menv) && spos <= pos && pos + n <= |f.ops| && n > 0
    requires rec.bca && rec.rff && rec.bra == f.address
    requires DecodeSelect(rec.select, port.data) == lane && lane.ok
    requires forall k | pos <= k < pos + n :: !f.ops[k].write && f.ops[k].size == lane.size
    requires Stands(mss.m.s, f, pos, spos)
    ensures Stands(ExecRecord(menv, port, mss, ReplyRecord(rec, WireValues(f.outs[pos..pos + n], lane))).0.m.s, f, pos + n, spos)
  {
    hide Run, Stands, DecodeSelect, ExecWrites, WireValues, Pow256, ValidOperation;
    forall k | pos <= k < pos + n ensures f.outs[k].value < Pow256(lane.size) {
      OutcomesFit(env, port, m0, f.ops, k);
    }
    ReadsDelivered(menv, port, lane, mss.m.s, mss.m.err, f, pos, n, spos);
    ReplyExecuted(menv, port, mss, rec, WireValues(f.outs[pos..pos + n], lane), rec.bra, lane);
  }

  /** The state between two records of a cycle: the slave has executed exactly the operations before
      `pos`, and `count` bus operations since `spos` await a status read. */
  ghost predicate Between<S>(env: Env<S>, port: Port, f: Flight, m0: Machine<S>, pos: nat, spos: nat, count: nat, m: Machine<S>) {
    && Executes(env, port, f, m0) && spos <= pos <= |f.ops| && m == Run(env, port, m0, f.ops[..pos]).0
    && count == |FaultsIn(f.ops, f.outs, spos, pos)|
  }

  /** Executing one record carries the slave from `pos` to the end of the record's operations. */
  lemma RecordExecuted<S>(env: Env<S>, port: Port, f: Flight, m0: Machine<S>,
    pos: nat, spos: nat, count: nat, ss: Session<S>, p: Plan)
    requires Between(env, port, f, m0, pos, spos, count, ss.m)
    requires Planned(port, f.ops[pos..], p) && PlanCounts(port, f.ops[pos..], count, f.checked, p)
    ensures var rec := MakeRecord(port, f.ops[pos..], p, f.address);
            var out := ExecRecord(env, port, ss, rec);
            var next := pos + p.w + p.r;
            && Between(env, port, f, m0, next, NextStatus(p, pos, spos), p.count, out.0.m) && out.0.closed == p.last
            && |FaultsIn(f.ops, f.outs, spos, next)| == ChargeAll(count, f.ops[pos..next])
            && out.1 == (
              if p.status then [ReplyRecord(rec, [StatusValue(port, out.0.m.err)])]
              else if p.r > 0 then [ReplyRecord(rec, WireValues(f.outs[pos + p.w..next], PlanLane(port, f.ops[pos..], p)))]
              else if ss.open && p.last then [TERMINATOR] else [])
  {
    hide Run, FaultsIn, ExecRecord, MakeRecord, WireValues, StatusValue, ValidOperation, PlanRuns, ChargeAll, PlanLane, PlanShape;
    var ops, next := f.ops[pos..], pos + p.w + p.r;
    Subrange(f.ops, pos, next);
    Subrange(f.outs[..next], pos, pos + p.w);
    RecordMeaning(env, port, ss, ops, p, f.address);
    RunPrefix(env, port, m0, f.ops, pos, next);
    CountAdvances(f.ops, f.outs, spos, pos, next, count);
    NoFaultsIn(f.ops, f.outs, next);
    assert f.outs[pos..next][p.w..] == f.outs[pos + p.w..next];
  }

  /** One record's reply carries the response as far as the slave has come. */
  lemma RecordAnswered<S>(env: Env<S>, menv: Env<Queue>, port: Port, f: Flight, m0: Machine<S>,
    pos: nat, spos: nat, count: nat, ss: Session<S>, mss: Session<Queue>, p: Plan)
    requires Between(env, port, f, m0, pos, spos, count, ss.m) && TakesReplies(menv)
    requires Planned(port, f.ops[pos..], p) && PlanCounts(port, f.ops[pos..], count, f.checked, p)
    requires Stands(mss.m.s, f, pos, spos)
    ensures var out := ExecRecord(env, port, ss, MakeRecord(port, f.ops[pos..], p, f.address));
            Stands(ExecRecords(menv, port, mss, out.1).0.m.s, f, pos + p.w + p.r, NextStatus(p, pos, spos))
  {
    hide Run, FaultsIn, Stands, ExecRecord, MakeRecord, DecodeSelect, WireValues, StatusValue, ValidOperation, PlanRuns, ChargeAll;
    hide PlanLane, PlanShape;
    var ops, next := f.ops[pos..], pos + p.w + p.r;
    var rec := MakeRecord(port, ops, p, f.address);
    Subrange(f.ops, pos, next);
    RecordExecuted(env, port, f, m0, pos, spos, count, ss, p);
    RecordFields(port, ops, p, f.address);
    PlanSpans(port, f.ops, pos, p);
    if p.status {
      StandsSkip(mss.m.s, f, pos, next, spos);
      StatusDelivered(env, menv, port, f, m0, next, spos, mss, rec);
      OneReply(menv, port, mss, ReplyRecord(rec, [StatusValue(port, Run(env, port, m0, f.ops[..next]).0.err)]));
    } else if p.r > 0 {
      var mid, lane := pos + p.w, PlanLane(port, ops, p);
      StandsSkip(mss.m.s, f, pos, mid, spos);
      ValuesDelivered(env, menv, port, f, m0, mid, p.r, spos, mss, rec, lane);
      OneReply(menv, port, mss, ReplyRecord(rec, WireValues(f.outs[mid..mid + p.r], lane)));
    } else {
      StandsSkip(mss.m.s, f, pos, next, spos);
      Terminator(menv, port, mss);
    }
  }

  lemma Subrange<T>(s: seq<T>, i: nat, j: nat)
    requires i <= j <= |s|
    ensures s[i..][..j - i] == s[i..j]
  {}

  lemma RecordFields(port: Port, ops: seq<Operation>, p: Plan, rba: nat)
    requires port.Valid() && Planned(port, ops, p)
    ensures var rec, lane := MakeRecord(port, ops, p, rba), PlanLane(port, ops, p);
            && rec.bca && rec.rff && DecodeSelect(rec.select, port.data) == lane && lane.ok
            && (p.status ==> rec.bra == rba + 1 && lane == Lane(true, port.data, 0))
            && (p.r > 0 ==> rec.bra == rba)
  {
    PlanLaneShared(port, ops, p);
    hide DecodeSelect, SelectByte, ValidOperation, PlanRuns, PlanShape, LaneValues, Addresses;
  }

  /** The operations a plan takes, seen from the whole cycle. */
  lemma PlanSpans(port: Port, ops: seq<Operation>, pos: nat, p: Plan)
    requires port.Valid() && pos <= |ops| && Planned(port, ops[pos..], p)
    ensures forall k | pos <= k < pos + p.w :: ops[k].write
    ensures forall k | pos + p.w <= k < pos + p.w + p.r :: !ops[k].write && ops[k].size == PlanLane(port, ops[pos..], p).size
  {
    hide ValidOperation, PlanShape;
    var rest := ops[pos..];
    forall k | pos <= k < pos + p.w ensures ops[k].write {
      assert ops[k] == rest[..p.w][k - pos];
    }
    forall k | pos + p.w <= k < pos + p.w + p.r ensures !ops[k].write && ops[k].size == PlanShape(port, rest, p).size {
      assert ops[k] == rest[p.w..p.w + p.r][k - pos - p.w];
    }
  }

  lemma CountAdvances(ops: seq<Operation>, outs: seq<Outcome>, spos: nat, pos: nat, next: nat, count: nat)
    requires |outs| == |ops| && spos <= pos <= next <= |ops| && count == |FaultsIn(ops, outs, spos, pos)|
    ensures |FaultsIn(ops, outs, spos, next)| == ChargeAll(count, ops[pos..next])
  {
    FaultsCount(ops[spos..pos], outs[spos..pos], 0);
    FaultsCount(ops[spos..next], outs[spos..next], 0);
    assert ops[spos..pos] + ops[pos..next] == ops[spos..next];
    ChargeSplit(0, ops[spos..pos], ops[pos..next]);
  }

  lemma OneReply(menv: Env<Queue>, port: Port, mss: Session<Queue>, r: Record)
    requires port.Valid()
    ensures ExecRecords(menv, port, mss, [r]).0 == ExecRecord(menv, port, mss, r).0
  {
    hide ExecRecord;
    assert [r][1..] == [];
  }

  /** An end-of-cycle record alone changes nothing on the master. */
  lemma Terminator(menv: Env<Queue>, port: Port, mss: Session<Queue>)
    requires port.Valid()
    ensures ExecRecords(menv, port, mss, [TERMINATOR]).0.m == mss.m
    ensures ExecRecords(menv, port, mss, []).0 == mss
  {
    OneReply(menv, port, mss, TERMINATOR);
  }

  lemma {:induction false} ExecConcat<S>(env: Env<S>, port: Port, ss: Session<S>, a: seq<Record>, b: seq<Record>)
    requires port.Valid()
    ensures var ra := ExecRecords(env, port, ss, a);
            var rb := ExecRecords(env, port, ra.0, b);
            ExecRecords(env, port, ss, a + b) == (rb.0, ra.1 + rb.1)
    decreases |a|
  {
    hide ExecRecord;
    if |a| == 0 {
      assert a + b == b;
      assert [] + ExecRecords(env, port, ss, b).1 == ExecRecords(env, port, ss, b).1;
    } else {
      var first := ExecRecord(env, port, ss, a[0]);
      ExecConcat(env, port, first.0, a[1..], b);
      assert (a + b)[1..] == a[1..] + b;
      var ra := ExecRecords(env, port, first.0, a[1..]);
      assert first.1 + (ra.1 + ExecRecords(env, port, ra.0, b).1) == (first.1 + ra.1) + ExecRecords(env, port, ra.0, b).1;
    }
  }

  /** The flight has landed: its response left the queue, the others kept their places, and its
      callback ran once with the outcomes of direct execution. */
  ghost predicate Landed(q: Queue, f: Flight)
    requires FlightOk(f)
  {
    QueueOk(q) && Fifo(q) == f.before + f.after && q.log == f.log + [Outcomes(f)]
  }

  lemma LandedAtEnd<S>(env: Env<S>, port: Port, f: Flight, m0: Machine<S>, spos: nat, count: nat, m: Machine<S>, q: Queue)
    requires Between(env, port, f, m0, |f.ops|, spos, count, m) && !(f.checked && count > 0)
    requires Stands(q, f, |f.ops|, spos)
    ensures Landed(q, f) && m == Run(env, port, m0, f.ops).0
  {
    hide Run, ValidOperation, Outcomes;
    assert f.ops[..|f.ops|] == f.ops;
    if f.checked {
      NoFaultsAllConfig(f.ops, f.outs, spos, |f.ops|);
    }
  }

  /** From any point between two records, packing and serving the rest of a cycle and feeding the
      replies back completes it. */
  lemma {:induction false} CycleServed<S>(env: Env<S>, menv: Env<Queue>, port: Port, f: Flight, m0: Machine<S>,
    pos: nat, spos: nat, count: nat, ss: Session<S>, mss: Session<Queue>)
    requires Between(env, port, f, m0, pos, spos, count, ss.m) && TakesReplies(menv)
    requires ValidOperations(port, f.ops[pos..]) && Pending(port, f.ops[pos..], count, f.checked)
    requires Stands(mss.m.s, f, pos, spos)
    ensures var served := ExecRecords(env, port, ss, Compile(port, f.ops[pos..], count, f.checked, f.address));
            && served.0.m == Run(env, port, m0, f.ops).0 && served.0.closed
            && Landed(ExecRecords(menv, port, mss, served.1).0.m.s, f)
    decreases |f.ops| - pos, count
  {
    hide *;
    BetweenIs(env, port, f, m0, pos, spos, count, ss.m);
    var ops := f.ops[pos..];
    CompileStep(port, ops, count, f.checked, f.address);
    OneRecord(env, menv, port, f, m0, pos, spos, count, ss, mss);
    var p := PlanRecord(port, ops, count, f.checked);
    var rec := MakeRecord(port, ops, p, f.address);
    var out := ExecRecord(env, port, ss, rec);
    var got := ExecRecords(menv, port, mss, out.1);
    var next, snext := pos + p.w + p.r, NextStatus(p, pos, spos);
    if p.last {
      LandedAtEnd(env, port, f, m0, snext, p.count, out.0.m, got.0.m.s);
      LastRecord(env, port, ss, rec);
    } else {
      assert ops[p.w + p.r..] == f.ops[next..];
      CycleServed(env, menv, port, f, m0, next, snext, p.count, out.0, got.0);
      var rest := Compile(port, f.ops[next..], p.count, f.checked, f.address);
      ExecConcat(menv, port, mss, out.1, ExecRecords(env, port, out.0, rest).1);
      FirstRecord(env, port, ss, rec, rest);
    }
  }

  lemma BetweenIs<S>(env: Env<S>, port: Port, f: Flight, m0: Machine<S>, pos: nat, spos: nat, count: nat, m: Machine<S>)
    requires Between(env, port, f, m0, pos, spos, count, m)
    ensures port.Valid() && FlightOk(f) && pos <= |f.ops| && ValidOperations(port, f.ops)
  {
  }

  lemma CompileStep(port: Port, ops: seq<Operation>, count: nat, checked: bool, rba: nat)
    requires port.Valid() && ValidOperations(port, ops) && Pending(port, ops, count, checked)
    ensures var p := PlanRecord(port, ops, count, checked);
            && (p.last ==> Compile(port, ops, count, checked, rba) == [MakeRecord(port, ops, p, rba)])
            && (!p.last ==> Pending(port, ops[p.w + p.r..], p.count, checked))
            && (!p.last ==> Compile(port, ops, count, checked, rba)
                            == [MakeRecord(port, ops, p, rba)] + Compile(port, ops[p.w + p.r..], p.count, checked, rba))
  {
    hide PlanRecord, MakeRecord, ChargeAll, ValidOperation;
    PlanCountsCorrect(port, ops, count, checked);
    ChargeBounds(count, ops[..PlanRecord(port, ops, count, checked).w + PlanRecord(port, ops, count, checked).r]);
  }

  /** One turn of the packing loop, served and answered. */
  lemma OneRecord<S>(env: Env<S>, menv: Env<Queue>, port: Port, f: Flight, m0: Machine<S>,
    pos: nat, spos: nat, count: nat, ss: Session<S>, mss: Session<Queue>)
    requires Between(env, port, f, m0, pos, spos, count, ss.m) && TakesReplies(menv)
    requires ValidOperations(port, f.ops[pos..]) && Pending(port, f.ops[pos..], count, f.checked)
    requires Stands(mss.m.s, f, pos, spos)
    ensures var ops := f.ops[pos..];
            var p := PlanRecord(port, ops, count, f.checked);
            var out := ExecRecord(env, port, ss, MakeRecord(port, ops, p, f.address));
            var next, snext := pos + p.w + p.r, NextStatus(p, pos, spos);
            && Between(env, port, f, m0, next, snext, p.count, out.0.m) && out.0.closed == p.last
            && Stands(ExecRecords(menv, port, mss, out.1).0.m.s, f, next, snext)
            && (p.last ==> next == |f.ops| && !(f.checked && p.count > 0))
            && (next > pos || p.count < count) && ValidOperations(port, f.ops[next..])
  {
    hide Run, FaultsIn, Stands, ExecRecord, MakeRecord, PlanRecord, PlanRuns, ChargeAll, ValidOperation, TakesReplies, ExecRecords;
    var ops := f.ops[pos..];
    var p := PlanRecord(port, ops, count, f.checked);
    PlanRunsCorrect(port, ops, count, f.checked);
    PlanCountsCorrect(port, ops, count, f.checked);
    RecordExecuted(env, port, f, m0, pos, spos, count, ss, p);
    RecordAnswered(env, menv, port, f, m0, pos, spos, count, ss, mss, p);
    ChargeBounds(count, ops[..p.w + p.r]);
  }

  lemma FirstRecord<S>(env: Env<S>, port: Port, ss: Session<S>, r: Record, rest: seq<Record>)
    requires port.Valid()
    ensures var first := ExecRecord(env, port, ss, r);
            var more := ExecRecords(env, port, first.0, rest);
            ExecRecords(env, port, ss, [r] + rest) == (more.0, first.1 + more.1)
  {
    hide ExecRecord;
    assert ([r] + rest)[1..] == rest;
  }

  lemma LastRecord<S>(env: Env<S>, port: Port, ss: Session<S>, r: Record)
    requires port.Valid()
    ensures ExecRecords(env, port, ss, [r]) == ExecRecord(env, port, ss, r)
  {
    FirstRecord(env, port, ss, r, []);
    hide ExecRecord;
    var out := ExecRecord(env, port, ss, r);
    assert [r] + [] == [r] && out.1 + [] == out.1;
  }
}
