/**
 Replies find their way back: what the master knows about a cycle after part of its reply has
 arrived, and why every read value and every error bit lands on its own operation.
 */
module Delivery {
  import opened Words
  import opened Lanes
  import opened Records
  import opened Operations
  import opened Bus
  import opened Packer
  import opened Responses

  /** An operation with what has been delivered to it. */
  function Delivered(op: Operation, out: Outcome, read: bool, checked: bool): Operation {
    op.(value := if read && !op.write then out.value else op.value,
        error := checked && !op.config && out.fault)
  }

  /** A cycle as queued: nothing delivered yet. */
  predicate Untouched(ops: seq<Operation>) {
    forall i | 0 <= i < |ops| :: !ops[i].error
  }

  /** Reads before `pos` have their value, bus operations before `spos` their error flag. */
  ghost predicate Progress(r: Response, ops: seq<Operation>, outs: seq<Outcome>, checked: bool, pos: nat, spos: nat) {
    && |outs| == |ops| == |r.cycle.ops| && spos <= pos <= |ops|
    && (forall i | 0 <= i < |ops| :: r.cycle.ops[i] == Delivered(ops[i], outs[i], i < pos, checked && i < spos))
    && r.wc == FindRead(ops, pos)
    && r.sc == (if checked then FindBus(ops, spos) else |ops|)
  }

  /** The response the master sets up for a cycle it has sent. */
  function NewResponse(cycle: Cycle, address: nat, deadline: nat, checked: bool): (r: Response)
    ensures ResponseOk(r)
  {
    Response(address, deadline, cycle, FindRead(cycle.ops, 0), if checked then FindBus(cycle.ops, 0) else |cycle.ops|)
  }

  lemma NewResponseProgress(cycle: Cycle, address: nat, deadline: nat, checked: bool, outs: seq<Outcome>)
    requires Untouched(cycle.ops) && |outs| == |cycle.ops|
    ensures Progress(NewResponse(cycle, address, deadline, checked), cycle.ops, outs, checked, 0, 0)
  {}

  /** What is left to deliver after `pos` and `spos`. */
  predicate Waiting(ops: seq<Operation>, checked: bool, pos: nat, spos: nat)
    requires pos <= |ops| && spos <= |ops|
  {
    FindRead(ops, pos) < |ops| || (checked && FindBus(ops, spos) < |ops|)
  }

  /** The finished cycle: every outcome where it belongs. */
  function Results(ops: seq<Operation>, outs: seq<Outcome>, checked: bool): (rs: seq<Operation>)
    requires |outs| == |ops|
    ensures |rs| == |ops| && forall i | 0 <= i < |ops| :: rs[i] == Delivered(ops[i], outs[i], true, checked)
    decreases |ops|
  {
    if |ops| == 0 then [] else
      [Delivered(ops[0], outs[0], true, checked)] + Results(ops[1..], outs[1..], checked)
  }

  /** Success unless a checked bus operation failed. */
  function ResultStatus(ops: seq<Operation>, outs: seq<Outcome>, checked: bool): Status
    requires |outs| == |ops|
  {
    if checked && exists i | 0 <= i < |ops| :: !ops[i].config && outs[i].fault then SEGFAULT else OK
  }

  lemma {:induction false} FindReadSame(a: seq<Operation>, b: seq<Operation>, i: nat)
    requires i <= |a| == |b| && forall k | 0 <= k < |a| :: a[k].write == b[k].write
    ensures FindRead(a, i) == FindRead(b, i)
    decreases |a| - i
  {
    if i < |a| && a[i].write {
      FindReadSame(a, b, i + 1);
    }
  }

  lemma {:induction false} FindBusSame(a: seq<Operation>, b: seq<Operation>, i: nat)
    requires i <= |a| == |b| && forall k | 0 <= k < |a| :: a[k].config == b[k].config
    ensures FindBus(a, i) == FindBus(b, i)
    decreases |a| - i
  {
    if i < |a| && a[i].config {
      FindBusSame(a, b, i + 1);
    }
  }

  lemma {:induction false} FindReadSkips(ops: seq<Operation>, i: nat, j: nat)
    requires i <= j <= |ops| && forall k | i <= k < j :: ops[k].write
    ensures FindRead(ops, i) == FindRead(ops, j)
    decreases j - i
  {
    if i < j {
      FindReadSkips(ops, i + 1, j);
    }
  }

  lemma {:induction false} FindBusSkips(ops: seq<Operation>, i: nat, j: nat)
    requires i <= j <= |ops| && forall k | i <= k < j :: ops[k].config
    ensures FindBus(ops, i) == FindBus(ops, j)
    decreases j - i
  {
    if i < j {
      FindBusSkips(ops, i + 1, j);
    }
  }

  /** Writes need no read-back. */
  lemma SkipWrites(r: Response, ops: seq<Operation>, outs: seq<Outcome>, checked: bool, pos: nat, pos': nat, spos: nat)
    requires Progress(r, ops, outs, checked, pos, spos) && pos <= pos' <= |ops|
    requires forall k | pos <= k < pos' :: ops[k].write
    ensures Progress(r, ops, outs, checked, pos', spos)
  {
    FindReadSkips(ops, pos, pos');
  }

  /** A read-back goes to the read it belongs to. */
  lemma DeliverRead(r: Response, ops: seq<Operation>, outs: seq<Outcome>, checked: bool, pos: nat, spos: nat)
    requires Progress(r, ops, outs, checked, pos, spos) && pos < |ops| && !ops[pos].write && ResponseOk(r)
    ensures var out := ReadBack(r, outs[pos].value);
            !out.1 && Progress(out.0, ops, outs, checked, pos + 1, spos)
            && out.0.address == r.address && out.0.cycle.id == r.cycle.id && out.0.cycle.device == r.cycle.device
  {
    var out := ReadBack(r, outs[pos].value).0;
    FindReadSame(r.cycle.ops[pos := r.cycle.ops[pos].(value := outs[pos].value)], ops, pos + 1);
  }

  /** The faults of the bus operations in a run, oldest first. */
  function Faults(ops: seq<Operation>, outs: seq<Outcome>): (fs: seq<bool>)
    requires |outs| == |ops|
    decreases |ops|
  {
    if |ops| == 0 then []
    else (if ops[0].config then [] else [outs[0].fault]) + Faults(ops[1..], outs[1..])
  }

  lemma {:induction false} FaultsCount(ops: seq<Operation>, outs: seq<Outcome>, count: nat)
    requires |outs| == |ops|
    ensures ChargeAll(count, ops) == count + |Faults(ops, outs)|
    decreases |ops|
  {
    if |ops| > 0 {
      FaultsCount(ops[1..], outs[1..], Charge(count, ops[0]));
    }
  }

  lemma ShiftInBit(err: nat, fail: bool, j: nat)
    requires j < 64
    ensures Bit(ShiftIn(err, fail), j) == if j == 0 then fail else Bit(err, j - 1)
  {
    var v := 2 * err + (if fail then 1 else 0);
    assert Pow2(64) == WORD64 by { Pow2IsPow256(8); Pow256Values(); }
    BitOfMod(v, 64, j);
    assert v / 2 == err && v % 2 == (if fail then 1 else 0);
  }

  /** The error register after a run: its faults, newest in bit 0, in front of what was there. */
  lemma {:induction false} ErrorHistory<S>(env: Env<S>, port: Port, m: Machine<S>, ops: seq<Operation>, j: nat)
    requires port.Valid() && ValidOperations(port, ops) && j < 64
    ensures var run := Run(env, port, m, ops);
            var fs := Faults(ops, run.1);
            Bit(run.0.err, j) == if j < |fs| then fs[|fs| - 1 - j] else Bit(m.err, j - |fs|)
    decreases |ops|
  {
    if |ops| > 0 {
      var first := ExecOperation(env, port, m, ops[0]);
      var run := Run(env, port, m, ops);
      assert run.1[1..] == Run(env, port, first.0, ops[1..]).1;
      ErrorHistory(env, port, first.0, ops[1..], j);
      var fs := Faults(ops[1..], run.1[1..]);
      StepError(env, port, m, ops[0]);
      hide ExecOperation, Run, Bit;
      if j >= |fs| && !ops[0].config {
        ShiftInBit(m.err, first.1.fault, j - |fs|);
      }
    }
  }

  lemma StepError<S>(env: Env<S>, port: Port, m: Machine<S>, op: Operation)
    requires port.Valid() && ValidOperation(port, op)
    ensures var out := ExecOperation(env, port, m, op);
            out.0.err == if op.config then m.err else ShiftIn(m.err, out.1.fault)
  {}

  /** The faults of ops[i..pos]. */
  function FaultsIn(ops: seq<Operation>, outs: seq<Outcome>, i: nat, pos: nat): (fs: seq<bool>)
    requires |outs| == |ops| && i <= pos <= |ops|
  {
    Faults(ops[i..pos], outs[i..pos])
  }

  lemma FaultsStep(ops: seq<Operation>, outs: seq<Outcome>, i: nat, pos: nat)
    requires |outs| == |ops| && i < pos <= |ops|
    ensures FaultsIn(ops, outs, i, pos)
         == (if ops[i].config then [] else [outs[i].fault]) + FaultsIn(ops, outs, i + 1, pos)
  {
    assert ops[i..pos][1..] == ops[i + 1..pos] && outs[i..pos][1..] == outs[i + 1..pos];
  }

  /** The response side recounts the group that the master closed with a status read. */
  lemma {:induction false} GroupRecounted(rops: seq<Operation>, ops: seq<Operation>, outs: seq<Outcome>,
    i: nat, pos: nat, maxops: nat)
    requires |outs| == |ops| == |rops| && i <= pos <= |ops|
    requires forall k | 0 <= k < |ops| :: rops[k].config == ops[k].config
    requires var n := |FaultsIn(ops, outs, i, pos)|; n <= maxops && (n == maxops || pos == |ops|)
    ensures CountBus(rops, i, maxops) == |FaultsIn(ops, outs, i, pos)|
    decreases pos - i
  {
    if i < pos {
      FaultsStep(ops, outs, i, pos);
      if ops[i].config {
        GroupRecounted(rops, ops, outs, i + 1, pos, maxops);
      } else {
        GroupRecounted(rops, ops, outs, i + 1, pos, maxops - 1);
      }
    }
  }

  /** A status word whose bit n-1-k is the k-th fault of the group. */
  predicate ShowsFaults(value: nat, fs: seq<bool>) {
    forall j | 0 <= j < |fs| :: Bit(value, j) == fs[|fs| - 1 - j]
  }

  /** `now` is `was` with the error flags of the bus operations in i..pos set from their outcomes. */
  ghost predicate Marks(now: seq<Operation>, was: seq<Operation>, outs: seq<Outcome>, i: nat, pos: nat) {
    && |now| == |was| == |outs| && i <= pos <= |was|
    && forall k | 0 <= k < |was| :: now[k]
         == if i <= k < pos && !was[k].config then was[k].(error := was[k].error || outs[k].fault) else was[k]
  }

  lemma {:induction false} NoFaultsAllConfig(ops: seq<Operation>, outs: seq<Outcome>, i: nat, pos: nat)
    requires |outs| == |ops| && i <= pos <= |ops| && |FaultsIn(ops, outs, i, pos)| == 0
    ensures forall k | i <= k < pos :: ops[k].config
    decreases pos - i
  {
    if i < pos {
      FaultsStep(ops, outs, i, pos);
      NoFaultsAllConfig(ops, outs, i + 1, pos);
    }
  }

  lemma {:induction false} FaultsInSame(a: seq<Operation>, b: seq<Operation>, outs: seq<Outcome>, i: nat, pos: nat)
    requires |outs| == |a| == |b| && i <= pos <= |a| && forall k | 0 <= k < |a| :: a[k].config == b[k].config
    ensures FaultsIn(a, outs, i, pos) == FaultsIn(b, outs, i, pos)
    decreases pos - i
  {
    if i < pos {
      FaultsStep(a, outs, i, pos);
      FaultsStep(b, outs, i, pos);
      FaultsInSame(a, b, outs, i + 1, pos);
    } else {
      assert a[i..pos] == [] && b[i..pos] == [];
    }
  }

  /** Error bits go to the bus operations of the group, in order, and to nothing else. */
  lemma {:induction false} GroupAssigned(ops: seq<Operation>, outs: seq<Outcome>, i: nat, pos: nat, value: nat)
    requires |outs| == |ops| && i <= pos <= |ops|
    requires ShowsFaults(value, FaultsIn(ops, outs, i, pos))
    ensures var out := AssignErrors(ops, i, |FaultsIn(ops, outs, i, pos)|, value);
            && out.1 <= pos && (forall k | out.1 <= k < pos :: ops[k].config)
            && Marks(out.0, ops, outs, i, pos)
    decreases pos - i
  {
    hide *;
    var fs := FaultsIn(ops, outs, i, pos);
    if |fs| == 0 {
      NoFaultsAllConfig(ops, outs, i, pos);
      NothingMarked(ops, outs, i, pos, value);
    } else {
      NoFaultsAtEnd(ops, outs, i, pos);
      FaultsStep(ops, outs, i, pos);
      AssignStep(ops, i, |fs|, value);
      if ops[i].config {
        assert [] + FaultsIn(ops, outs, i + 1, pos) == FaultsIn(ops, outs, i + 1, pos);
        GroupAssigned(ops, outs, i + 1, pos, value);
        MarksConfig(AssignErrors(ops, i + 1, |fs|, value).0, ops, outs, i, pos);
      } else {
        var rest := FaultsIn(ops, outs, i + 1, pos);
        FirstShown(value, outs[i].fault, rest);
        var ops' := ops[i := ops[i].(error := ops[i].error || outs[i].fault)];
        FaultsInSame(ops', ops, outs, i + 1, pos);
        ShowsRest(value, outs[i].fault, rest);
        GroupAssigned(ops', outs, i + 1, pos, value);
        MarksStep(AssignErrors(ops', i + 1, |rest|, value).0, ops, outs, i, pos);
      }
    }
  }

  lemma NoFaultsAtEnd(ops: seq<Operation>, outs: seq<Outcome>, i: nat, pos: nat)
    requires |outs| == |ops| && i <= pos <= |ops| && |FaultsIn(ops, outs, i, pos)| > 0
    ensures i < pos
  {
    assert ops[pos..pos] == [];
  }

  lemma NothingMarked(ops: seq<Operation>, outs: seq<Outcome>, i: nat, pos: nat, value: nat)
    requires |outs| == |ops| && i <= pos <= |ops| && forall k | i <= k < pos :: ops[k].config
    ensures AssignErrors(ops, i, 0, value) == (ops, i) && Marks(ops, ops, outs, i, pos)
  {}

  lemma AssignStep(ops: seq<Operation>, i: nat, n: nat, value: nat)
    requires i < |ops| && n > 0
    ensures AssignErrors(ops, i, n, value)
         == if ops[i].config then AssignErrors(ops, i + 1, n, value)
            else AssignErrors(ops[i := ops[i].(error := ops[i].error || Bit(value, n - 1))], i + 1, n - 1, value)
  {
    hide Bit;
  }

  lemma MarksConfig(now: seq<Operation>, ops: seq<Operation>, outs: seq<Outcome>, i: nat, pos: nat)
    requires |outs| == |ops| && i < pos <= |ops| && ops[i].config && Marks(now, ops, outs, i + 1, pos)
    ensures Marks(now, ops, outs, i, pos)
  {}

  lemma FirstShown(value: nat, f: bool, rest: seq<bool>)
    requires ShowsFaults(value, [f] + rest)
    ensures Bit(value, |rest|) == f
  {
    hide Bit;
    assert ([f] + rest)[|[f] + rest| - 1 - |rest|] == f;
  }

  lemma ShowsRest(value: nat, f: bool, rest: seq<bool>)
    requires ShowsFaults(value, [f] + rest)
    ensures ShowsFaults(value, rest)
  {
    hide Bit;
    var fs := [f] + rest;
    forall j | 0 <= j < |rest| ensures Bit(value, j) == rest[|rest| - 1 - j] {
      assert fs[|fs| - 1 - j] == rest[|rest| - 1 - j];
    }
  }

  lemma MarksStep(now: seq<Operation>, ops: seq<Operation>, outs: seq<Outcome>, i: nat, pos: nat)
    requires i < pos <= |ops| == |outs| && !ops[i].config
    requires Marks(now, ops[i := ops[i].(error := ops[i].error || outs[i].fault)], outs, i + 1, pos)
    ensures Marks(now, ops, outs, i, pos)
  {}

  lemma {:induction false} FaultsInSkips(ops: seq<Operation>, outs: seq<Outcome>, i: nat, j: nat, pos: nat)
    requires |outs| == |ops| && i <= j <= pos <= |ops| && forall k | i <= k < j :: ops[k].config
    ensures FaultsIn(ops, outs, i, pos) == FaultsIn(ops, outs, j, pos)
    decreases j - i
  {
    if i < j {
      FaultsStep(ops, outs, i, pos);
      FaultsInSkips(ops, outs, i + 1, j, pos);
    }
  }

  lemma NoFaultsIn(ops: seq<Operation>, outs: seq<Outcome>, pos: nat)
    requires |outs| == |ops| && pos <= |ops|
    ensures FaultsIn(ops, outs, pos, pos) == []
  {}

  /** With faults to report, the status cursor stands before `pos`. */
  lemma CursorBefore(ops: seq<Operation>, outs: seq<Outcome>, spos: nat, pos: nat)
    requires |outs| == |ops| && spos <= pos <= |ops| && |FaultsIn(ops, outs, spos, pos)| > 0
    ensures FindBus(ops, spos) < pos
    ensures FaultsIn(ops, outs, FindBus(ops, spos), pos) == FaultsIn(ops, outs, spos, pos)
  {
    NoFaultsIn(ops, outs, pos);
    if FindBus(ops, spos) >= pos {
      FaultsInSkips(ops, outs, spos, pos, pos);
      assert false;
    }
    FaultsInSkips(ops, outs, spos, FindBus(ops, spos), pos);
  }

  /** A status word gives each bus operation of its group its own error flag. */
  lemma DeliverStatus(r: Response, ops: seq<Operation>, outs: seq<Outcome>, pos: nat, spos: nat, maxops: nat, value: nat)
    requires Progress(r, ops, outs, true, pos, spos) && ResponseOk(r)
    requires var fs := FaultsIn(ops, outs, spos, pos);
             0 < |fs| <= maxops && (|fs| == maxops || pos == |ops|) && ShowsFaults(value, fs)
    ensures var out := StatusBack(r, maxops, value);
            !out.1 && Progress(out.0, ops, outs, true, pos, pos)
            && out.0.address == r.address && out.0.cycle.id == r.cycle.id && out.0.cycle.device == r.cycle.device
  {
    var rops, i := r.cycle.ops, r.sc;
    CursorBefore(ops, outs, spos, pos);
    GroupRecounted(rops, ops, outs, i, pos, maxops);
    FaultsInSame(rops, ops, outs, i, pos);
    GroupAssigned(rops, outs, i, pos, value);
    var n := |FaultsIn(ops, outs, i, pos)|;
    var out := AssignErrors(rops, i, n, value);
    hide FaultsIn, ShowsFaults, AssignErrors, CountBus;
    FindReadSame(out.0, ops, pos);
    FindBusSame(out.0, ops, out.1);
    FindBusSkips(ops, out.1, pos);
    MarksDeliver(out.0, rops, ops, outs, i, spos, pos);
  }

  lemma MarksDeliver(now: seq<Operation>, rops: seq<Operation>, ops: seq<Operation>, outs: seq<Outcome>,
    i: nat, spos: nat, pos: nat)
    requires |outs| == |ops| == |rops| && spos <= i <= pos <= |ops| && Marks(now, rops, outs, i, pos)
    requires forall k | spos <= k < i :: ops[k].config
    requires forall k | 0 <= k < |ops| :: rops[k] == Delivered(ops[k], outs[k], k < pos, k < spos)
    ensures forall k | 0 <= k < |ops| :: now[k] == Delivered(ops[k], outs[k], k < pos, k < pos)
  {}

  /** A cycle in flight: where its response stands in the queue, and what it is waiting for. */
  datatype Flight = Flight(before: seq<Response>, after: seq<Response>, log: seq<Done>,
    id: nat, device: nat, address: nat, checked: bool, ops: seq<Operation>, outs: seq<Outcome>)

  ghost predicate FlightOk(f: Flight) {
    && |f.outs| == |f.ops| && f.address % 2 == 0 && f.address < 0x1_0000
    && AllOk(f.before) && AllOk(f.after)
    && forall k | 0 <= k < |f.before| :: f.before[k].address != f.address
  }

  ghost predicate InQueue(q: Queue, f: Flight, r: Response, pos: nat, spos: nat) {
    && Fifo(q) == f.before + [r] + f.after && q.log == f.log
    && ResponseOk(r) && Progress(r, f.ops, f.outs, f.checked, pos, spos)
    && r.address == f.address && r.cycle.id == f.id && r.cycle.device == f.device
  }

  /** The callback a cycle deserves. */
  function Outcomes(f: Flight): Done
    requires |f.outs| == |f.ops|
  {
    Done(f.id, f.device, ResultStatus(f.ops, f.outs, f.checked), Operations(Results(f.ops, f.outs, f.checked)))
  }

  /** Reply delivered up to `pos` and `spos`: while something is missing the response keeps its place
      in the queue; as soon as nothing is, it is gone and the callback has run with the results. */
  ghost predicate Stands(q: Queue, f: Flight, pos: nat, spos: nat)
    requires FlightOk(f) && spos <= pos <= |f.ops|
  {
    && QueueOk(q)
    && (Waiting(f.ops, f.checked, pos, spos) ==> exists r :: InQueue(q, f, r, pos, spos))
    && (!Waiting(f.ops, f.checked, pos, spos) ==> Fifo(q) == f.before + f.after && q.log == f.log + [Outcomes(f)])
  }

  lemma StandsSkip(q: Queue, f: Flight, pos: nat, pos': nat, spos: nat)
    requires FlightOk(f) && spos <= pos <= pos' <= |f.ops| && Stands(q, f, pos, spos)
    requires forall k | pos <= k < pos' :: f.ops[k].write
    ensures Stands(q, f, pos', spos)
  {
    FindReadSkips(f.ops, pos, pos');
    if Waiting(f.ops, f.checked, pos, spos) {
      var r :| InQueue(q, f, r, pos, spos);
      SkipWrites(r, f.ops, f.outs, f.checked, pos, pos', spos);
      assert InQueue(q, f, r, pos', spos);
    }
  }

  /** A reply word that finds its response: it stays, or it completes and leaves the queue. */
  lemma AnswerInQueue(q: Queue, f: Flight, r: Response, size: nat, address: nat, value: nat)
    requires FlightOk(f) && QueueOk(q) && Fifo(q) == f.before + [r] + f.after && q.log == f.log
    requires ResponseOk(r) && r.address == f.address
    requires address == f.address || address == f.address + 1
    ensures var out := Answer(r, size, address, value);
            var q' := WriteConfig(q, size, address, value);
            && QueueOk(q')
            && (if Finished(out.0, out.1) then Fifo(q') == f.before + f.after && q'.log == f.log + [DoneBy(out.0, out.1)]
                else Fifo(q') == f.before + [out.0] + f.after && q'.log == f.log)
  {
    assert ReturnAddress(address) == f.address;
    hide Answer, WriteConfig, ReturnAddress, Finished, DoneBy, Find, Fifo;
    WriteConfigRefines(q, size, address, value);
    var a := Answer(r, size, address, value);
    Located(f.before, r, f.after, f.address, a.0);
    var rs := Fifo(q);
    assert AnswerList(rs, size, address, value)
        == if Finished(a.0, a.1) then (f.before + f.after, [DoneBy(a.0, a.1)]) else (f.before + [a.0] + f.after, []);
    hide AnswerList;
  }

  /** The response that waits at an address none before it waits at. */
  lemma Located(before: seq<Response>, r: Response, after: seq<Response>, address: nat, x: Response)
    requires r.address == address && forall k | 0 <= k < |before| :: before[k].address != address
    ensures var rs, i := before + [r] + after, |before|;
            && Find(rs, address) == i && rs[i] == r && rs[..i] == before && rs[i + 1..] == after
            && rs[i := x] == before + [x] + after
  {
    FindAppend(before, [r] + after, address);
    assert Find([r] + after, address) == 0 && Find(before, address) == |before|;
    hide Find;
    assert before + [r] + after == before + ([r] + after);
    Slices(before, r, after, x);
  }

  lemma Slices<T>(before: seq<T>, r: T, after: seq<T>, x: T)
    ensures var rs, i := before + [r] + after, |before|;
            rs[i] == r && rs[..i] == before && rs[i + 1..] == after && rs[i := x] == before + [x] + after
  {
  }

  /** Once nothing is missing the callback sees exactly the results. */
  lemma DoneSees(r: Response, f: Flight, pos: nat, spos: nat)
    requires FlightOk(f) && spos <= pos <= |f.ops| && ResponseOk(r)
    requires Progress(r, f.ops, f.outs, f.checked, pos, spos)
    requires r.cycle.id == f.id && r.cycle.device == f.device
    ensures Finished(r, false) <==> !Waiting(f.ops, f.checked, pos, spos)
    ensures !Waiting(f.ops, f.checked, pos, spos) ==>
              DoneBy(r, false) == Outcomes(f)
  {
    if !Waiting(f.ops, f.checked, pos, spos) {
      var rs := Results(f.ops, f.outs, f.checked);
      assert r.cycle.ops == rs;
      if i :| 0 <= i < |f.ops| && !f.ops[i].config && f.outs[i].fault && f.checked {
        assert rs[i].error;
      }
    }
  }

  lemma StandsRead(q: Queue, f: Flight, pos: nat, spos: nat, size: nat)
    requires FlightOk(f) && spos <= pos < |f.ops| && Stands(q, f, pos, spos) && !f.ops[pos].write
    ensures Stands(WriteConfig(q, size, f.address, f.outs[pos].value), f, pos + 1, spos)
  {
    var r :| InQueue(q, f, r, pos, spos);
    DeliverRead(r, f.ops, f.outs, f.checked, pos, spos);
    AnswerInQueue(q, f, r, size, f.address, f.outs[pos].value);
    var out := ReadBack(r, f.outs[pos].value);
    DoneSees(out.0, f, pos + 1, spos);
    var q' := WriteConfig(q, size, f.address, f.outs[pos].value);
    hide WriteConfig, ReadBack, Progress, Outcomes, DoneBy, AnswerList;
    if Waiting(f.ops, f.checked, pos + 1, spos) {
      assert InQueue(q', f, out.0, pos + 1, spos);
    }
  }

  lemma StandsStatus(q: Queue, f: Flight, pos: nat, spos: nat, size: nat, value: nat)
    requires FlightOk(f) && spos <= pos <= |f.ops| && Stands(q, f, pos, spos) && f.checked
    requires var fs := FaultsIn(f.ops, f.outs, spos, pos);
             0 < |fs| <= 8 * size && (|fs| == 8 * size || pos == |f.ops|) && ShowsFaults(value, fs)
    ensures Stands(WriteConfig(q, size, f.address + 1, value), f, pos, pos)
  {
    CursorBefore(f.ops, f.outs, spos, pos);
    hide FaultsIn, ShowsFaults, InQueue, WriteConfig, FindRead, FindBus;
    assert Waiting(f.ops, f.checked, pos, spos);
    var r :| InQueue(q, f, r, pos, spos);
    ResponseStatus(q, f, r, pos, spos, size, value);
  }

  /** The status word reaches the response that waits for it. */
  lemma ResponseStatus(q: Queue, f: Flight, r: Response, pos: nat, spos: nat, size: nat, value: nat)
    requires FlightOk(f) && spos <= pos <= |f.ops| && QueueOk(q) && InQueue(q, f, r, pos, spos) && f.checked
    requires var fs := FaultsIn(f.ops, f.outs, spos, pos);
             0 < |fs| <= 8 * size && (|fs| == 8 * size || pos == |f.ops|) && ShowsFaults(value, fs)
    ensures Stands(WriteConfig(q, size, f.address + 1, value), f, pos, pos)
  {
    hide FaultsIn, ShowsFaults, WriteConfig, StatusBack, Progress, Outcomes, DoneBy, FindRead, FindBus, Waiting;
    DeliverStatus(r, f.ops, f.outs, pos, spos, 8 * size, value);
    AnswerInQueue(q, f, r, size, f.address + 1, value);
    var out := StatusBack(r, 8 * size, value);
    DoneSees(out.0, f, pos, pos);
    var q' := WriteConfig(q, size, f.address + 1, value);
    if Waiting(f.ops, f.checked, pos, pos) {
      assert InQueue(q', f, out.0, pos, pos);
    }
  }

  /** A reply word that its response does not wait for: a value when all reads have theirs, or a status word that
      covers no operation. */
  predicate Unexpected(r: Response, size: nat, address: nat) {
    if address % 2 == 0 then r.wc == |r.cycle.ops|
    else size == 0 || forall k | r.sc <= k < |r.cycle.ops| :: r.cycle.ops[k].config
  }

  /** A callback that completes a cycle: SEGFAULT exactly if one of its operations has its error flag. */
  predicate Completes(r: Response, d: Done) {
    && d.id == r.cycle.id && d.device == r.cycle.device && d.view.Operations?
    && d.status == if exists k | 0 <= k < |d.view.ops| :: d.view.ops[k].error then SEGFAULT else OK
  }

  /** What a reply word calls back: the first response at its address with FAIL, exactly if it is unexpected there;
      or none, or the same response when it is complete. */
  lemma ReplyCalls(q: Queue, size: nat, address: nat, value: nat, i: nat)
    requires QueueOk(q) && i < |Fifo(q)| && Fifo(q)[i].address == address % 0x1_0000 / 2 * 2
    requires forall k | 0 <= k < i :: Fifo(q)[k].address != address % 0x1_0000 / 2 * 2
    ensures var r, q' := Fifo(q)[i], WriteConfig(q, size, address, value);
            if Unexpected(r, size, address) then
              && q'.log == q.log + [Done(r.cycle.id, r.cycle.device, FAIL, Operations(r.cycle.ops))]
              && Fifo(q') == Fifo(q)[..i] + Fifo(q)[i + 1..]
            else
              || (q'.log == q.log && |Fifo(q')| == |Fifo(q)|)
              || (exists d :: q'.log == q.log + [d] && Completes(r, d) && Fifo(q') == Fifo(q)[..i] + Fifo(q)[i + 1..])
  {
    WriteConfigRefines(q, size, address, value);
    var rs, r := Fifo(q), Fifo(q)[i];
    EvenAddress(address);
    assert Find(rs, ReturnAddress(address)) == i;
    var a := Answer(r, size, address, value);
    UnexpectedFails(r, size, address, value);
    hide WriteConfig, Answer, Find, ReturnAddress, Fifo, Unexpected;
    if Finished(a.0, a.1) {
      assert a.1 || Completes(r, DoneBy(a.0, a.1));
    }
  }

  lemma EvenAddress(address: nat)
    ensures ReturnAddress(address) == address % 0x1_0000 / 2 * 2
  {}

  lemma UnexpectedFails(r: Response, size: nat, address: nat, value: nat)
    requires ResponseOk(r)
    ensures var a := Answer(r, size, address, value);
            && (a.1 <==> Unexpected(r, size, address)) && (a.1 ==> a.0.cycle == r.cycle)
            && a.0.cycle.id == r.cycle.id && a.0.cycle.device == r.cycle.device
  {
    if address % 2 != 0 {
      NothingCovered(r.cycle.ops, r.sc, 8 * size);
      NothingAssigned(r.cycle.ops, r.sc, value);
    }
    hide CountBus, AssignErrors, FindRead, FindBus;
  }

  lemma {:induction false} NothingCovered(ops: seq<Operation>, i: nat, maxops: nat)
    requires i <= |ops|
    ensures CountBus(ops, i, maxops) == 0 <==> maxops == 0 || forall k | i <= k < |ops| :: ops[k].config
    decreases |ops| - i
  {
    if i < |ops| && maxops > 0 && ops[i].config {
      NothingCovered(ops, i + 1, maxops);
    }
  }

  lemma NothingAssigned(ops: seq<Operation>, i: nat, value: nat)
    requires i <= |ops|
    ensures AssignErrors(ops, i, 0, value) == (ops, i)
  {}
}
