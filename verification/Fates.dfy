/**
 What becomes of a cycle: over every run it holds what it was filled with, in order, up to its callback; and
 whether it was sent can be read off the status, the operations shown and the calls that were made.
 */
module Fates {
  import opened Words
  import opened Lanes
  import opened Operations
  import opened Packer
  import opened Responses
  import opened Delivery
  import opened Wire
  import opened Flush
  import opened Packets
  import opened SocketDevice
  import opened Lifecycle

  /** The cycles that a flush puts on the line. */
  function FlushSends(t: Transport, device: nat, time: nat, s: Sender, cs: seq<QueuedCycle>, oom: nat -> bool): (ids: set<nat>)
    requires t.Ok() && SenderOk(t, s) && |s.cur| == 0 && Short(cs)
    decreases |cs|
  {
    if |cs| == 0 then {} else
      (if Accepts(t, s.rba, cs[0], oom(cs[0].id)) then {cs[0].id} else {})
      + FlushSends(t, device, time, FlushCycle(t, device, time, s, cs[0], oom(cs[0].id)), cs[1..], oom)
  }

  function StepSends(l: Library, step: Step): (ids: set<nat>)
    requires LibraryOk(l) && Possible(l, step)
  {
    if step.FlushDevice? then
      var d := l.devices[step.device];
      ShortReverse(d.ready);
      assert SenderOk(d.t, SenderOf(l));
      FlushSends(d.t, step.device, l.clock, SenderOf(l), Reverse(d.ready), step.noMemory)
    else {}
  }

  /** The cycles that a run puts on the line. */
  function RunSends(l: Library, steps: seq<Step>): (ids: set<nat>)
    requires LibraryOk(l) && Runs(l, steps)
    decreases |steps|
  {
    if |steps| == 0 then {} else StepSends(l, steps[0]) + RunSends(Next(l, steps[0]), steps[1..])
  }

  // What the caller did.

  ghost predicate ClosedIn(p: seq<Step>, id: nat) {
    exists i | 0 <= i < |p| :: p[i].Close? && p[i].id == id
  }

  /** Memory ran out while the cycle was filled. */
  ghost predicate RanOut(p: seq<Step>, id: nat) {
    exists i | 0 <= i < |p| :: p[i].Fill? && p[i].id == id && p[i].oom
  }

  /** The device was flushed after the cycle was closed. */
  ghost predicate FlushedAfter(p: seq<Step>, id: nat, device: nat) {
    exists j | 0 <= j < |p| :: p[j].FlushDevice? && p[j].device == device && ClosedIn(p[..j], id)
  }

  /** What was queued into the cycle, in the order of the calls. */
  function Fills(p: seq<Step>, id: nat): seq<Request> {
    if |p| == 0 then [] else (if p[0].Fill? && p[0].id == id then [p[0].request] else []) + Fills(p[1..], id)
  }

  /** What the cycle is for: if memory ran out, nothing. */
  ghost function AskedFor(p: seq<Step>, id: nat): seq<Request> {
    if RanOut(p, id) then [] else Fills(p, id)
  }

  /** The cycle was closed with a check for errors. */
  ghost predicate CheckedIn(p: seq<Step>, id: nat) {
    exists i | 0 <= i < |p| :: p[i].Close? && p[i].id == id && p[i].checked
  }

  /** The devices that were opened. */
  function Devices(p: seq<Step>): (ds: seq<Step>)
    ensures forall i | 0 <= i < |ds| :: ds[i].OpenDevice?
  {
    if |p| == 0 then [] else (if p[0].OpenDevice? then [p[0]] else []) + Devices(p[1..])
  }

  /** The devices on which cycles were opened: those that take cycles, when there was memory. */
  function Openers(p: seq<Step>): seq<nat> {
    if |p| == 0 then [] else
      var q, step := p[..|p| - 1], p[|p| - 1];
      Openers(q) + if step.Open? && !step.oom && step.device < |Devices(q)| && !Devices(q)[step.device].passive then [step.device] else []
  }

  /** Cycles are numbered as they are opened; this one was opened on the device. */
  ghost predicate OpenedOn(p: seq<Step>, id: nat, device: nat) {
    id < |Openers(p)| && Openers(p)[id] == device
  }

  lemma {:induction false} FillsMore(p: seq<Step>, step: Step, id: nat)
    ensures Fills(p + [step], id) == Fills(p, id) + if step.Fill? && step.id == id then [step.request] else []
    decreases |p|
  {
    var p' := p + [step];
    if |p| == 0 {
      assert p'[1..] == [] && p'[0] == step;
    } else {
      assert p'[1..] == p[1..] + [step] && p'[0] == p[0];
      FillsMore(p[1..], step, id);
      Regroup(if p[0].Fill? && p[0].id == id then [p[0].request] else [], Fills(p[1..], id),
        if step.Fill? && step.id == id then [step.request] else []);
    }
  }

  lemma {:induction false} DevicesMore(p: seq<Step>, step: Step)
    ensures Devices(p + [step]) == Devices(p) + if step.OpenDevice? then [step] else []
    decreases |p|
  {
    var p' := p + [step];
    if |p| == 0 {
      assert p'[1..] == [] && p'[0] == step;
    } else {
      assert p'[1..] == p[1..] + [step] && p'[0] == p[0];
      DevicesMore(p[1..], step);
      Regroup(if p[0].OpenDevice? then [p[0]] else [], Devices(p[1..]), if step.OpenDevice? then [step] else []);
    }
  }

  /** A call that is not about the cycle. */
  lemma SameAsked(p: seq<Step>, step: Step, id: nat, device: nat)
    ensures !(step.Fill? && step.id == id) ==> AskedFor(p + [step], id) == AskedFor(p, id)
    ensures !(step.Close? && step.id == id) ==> (CheckedIn(p + [step], id) <==> CheckedIn(p, id))
    ensures OpenedOn(p, id, device) ==> OpenedOn(p + [step], id, device)
  {
    var p' := p + [step];
    FillsMore(p, step, id);
    OneMore(p, step, id, device);
    assert p'[..|p|] == p && p'[|p|] == step;
    hide RanOut, Fills, ClosedIn, FlushedAfter;
    forall i | 0 <= i < |p| ensures p'[i] == p[i] {}
  }

  lemma OneMore(p: seq<Step>, step: Step, id: nat, device: nat)
    ensures ClosedIn(p + [step], id) <==> ClosedIn(p, id) || (step.Close? && step.id == id)
    ensures RanOut(p + [step], id) <==> RanOut(p, id) || (step.Fill? && step.id == id && step.oom)
    ensures FlushedAfter(p + [step], id, device)
       <==> FlushedAfter(p, id, device) || (step.FlushDevice? && step.device == device && ClosedIn(p, id))
    ensures FlushedAfter(p, id, device) ==> ClosedIn(p, id)
  {
    var p' := p + [step];
    assert p'[|p|] == step && p'[..|p|] == p;
    forall i | 0 <= i < |p| ensures p'[i] == p[i] && p'[..i] == p[..i] {}
    forall j | 0 <= j < |p| && ClosedIn(p[..j], id) ensures ClosedIn(p, id) {
      var i :| 0 <= i < j && p[..j][i].Close? && p[..j][i].id == id;
      assert p[i].Close? && p[i].id == id;
    }
  }

  // What a callback tells.

  predicate ShowsOperations(view: View) {
    view.Operations? && |view.ops| > 0
  }

  /** The cycle was sent, as its callback and the calls made tell it: `flushed` says whether the device was
      flushed after the cycle was closed. */
  predicate Tells(d: Done, flushed: bool) {
    || d.status == SEGFAULT || d.status == FAIL
    || (d.status == OK && ShowsOperations(d.view))
    || (d.status == TIMEOUT && flushed)
  }

  /** The operations are those that were asked for, in order; reads have values by now. */
  predicate Alike(ops: seq<Operation>, reqs: seq<Request>) {
    && |ops| == |reqs|
    && forall i | 0 <= i < |ops| ::
         ops[i].write == reqs[i].write && ops[i].config == reqs[i].config && ops[i].address == reqs[i].address
         && (ops[i].write ==> ops[i].value == reqs[i].value)
  }

  predicate ShowsAll(view: View, reqs: seq<Request>) {
    view.Operations? && Alike(view.ops, reqs)
  }

  /** What a callback is shown of a cycle that was flushed: its operations, with an error flag exactly if the
      status says so, or the one that was refused. */
  predicate Shows(status: Status, view: View, reqs: seq<Request>) {
    match status
    case OK => if reqs == [] then view == NoOperations else ShowsAll(view, reqs) && !HasError(view.ops)
    case SEGFAULT => ShowsAll(view, reqs) && HasError(view.ops)
    case FAIL => ShowsAll(view, reqs)
    case TIMEOUT => ShowsAll(view, reqs)
    case OOM => view == NoOperations
    case OVERFLOW => view == NoOperations || (view.Offending? && view.index < |reqs|)
    case BUSY => false
    case _ => view.Offending? && view.index < |reqs|
  }

  /** The next value goes to a read. */
  predicate ReadIsNext(r: Response) {
    r.wc < |r.cycle.ops| ==> !r.cycle.ops[r.wc].write
  }

  /** A callback that ran, with what was sent and done so far. */
  ghost predicate DoneTold(p: seq<Step>, l: Library, sent: set<nat>, d: Done) {
    && (d.id in sent <==> Tells(d, FlushedAfter(p, d.id, d.device)))
    && (d.status == TIMEOUT && !FlushedAfter(p, d.id, d.device) ==> Gone(l, d.device))
    && (d.view == OwnIndex <==> d.status == TIMEOUT && !FlushedAfter(p, d.id, d.device) && RanOut(p, d.id))
    && (if d.status == TIMEOUT && !FlushedAfter(p, d.id, d.device) then d.view == OwnIndex || d.view == Queued(AskedFor(p, d.id))
        else Shows(d.status, d.view, AskedFor(p, d.id)))
    && OpenedOn(p, d.id, d.device)
  }

  ghost predicate WaitTold(p: seq<Step>, sent: set<nat>, r: Response) {
    && r.cycle.id in sent && FlushedAfter(p, r.cycle.id, r.cycle.device) && |r.cycle.ops| > 0
    && Alike(r.cycle.ops, AskedFor(p, r.cycle.id)) && OpenedOn(p, r.cycle.id, r.cycle.device) && ReadIsNext(r)
  }

  ghost predicate ReadyTold(p: seq<Step>, sent: set<nat>, device: nat, c: QueuedCycle) {
    && c.id !in sent && ClosedIn(p, c.id) && !FlushedAfter(p, c.id, device) && (c.dead <==> RanOut(p, c.id))
    && c.requests == AskedFor(p, c.id) && (c.checked <==> CheckedIn(p, c.id) && |c.requests| > 0) && OpenedOn(p, c.id, device)
  }

  ghost predicate OpenTold(p: seq<Step>, sent: set<nat>, id: nat, c: OpenCycle) {
    && id !in sent && !ClosedIn(p, id) && !CheckedIn(p, id) && (c.dead <==> RanOut(p, id))
    && Reverse(c.requests) == AskedFor(p, id)
  }

  const UNOPENED := OpenCycle(0, [], false)

  ghost predicate LogTold(p: seq<Step>, l: Library, sent: set<nat>, ds: seq<Done>) {
    forall k | 0 <= k < |ds| :: DoneTold(p, l, sent, ds[k])
  }

  ghost predicate WaitsTold(p: seq<Step>, sent: set<nat>, rs: seq<Response>) {
    forall k | 0 <= k < |rs| :: WaitTold(p, sent, rs[k])
  }

  ghost predicate ReadyAllTold(p: seq<Step>, sent: set<nat>, device: nat, cs: seq<QueuedCycle>) {
    forall k | 0 <= k < |cs| :: ReadyTold(p, sent, device, cs[k])
  }

  ghost predicate DevicesTold(p: seq<Step>, sent: set<nat>, devices: seq<Device>) {
    forall i: nat | i < |devices| :: ReadyAllTold(p, sent, i, devices[i].ready)
  }

  ghost predicate CyclesTold(p: seq<Step>, sent: set<nat>, open: map<nat, OpenCycle>, nextId: nat) {
    && (forall id | id in open :: id < nextId && OpenTold(p, sent, id, open[id]) && OpenedOn(p, id, open[id].device))
    && (forall id: nat | id >= nextId :: OpenTold(p, sent, id, UNOPENED))
  }

  /** The devices are those that were opened, and so many cycles were opened on them. */
  ghost predicate DevicesAre(p: seq<Step>, l: Library) {
    && |Devices(p)| == |l.devices| && |Openers(p)| == l.nextId
    && forall i | 0 <= i < |l.devices| :: l.devices[i].t == Devices(p)[i].t
         && (!l.devices[i].gone ==> l.devices[i].passive == Devices(p)[i].passive)
  }

  /** The library after the calls `p`, which put `sent` on the line. */
  ghost predicate Told(p: seq<Step>, l: Library, sent: set<nat>) {
    && LogTold(p, l, sent, l.queue.log) && WaitsTold(p, sent, Fifo(l.queue))
    && DevicesTold(p, sent, l.devices) && CyclesTold(p, sent, l.open, l.nextId) && DevicesAre(p, l)
  }

  // Every id is in one place.

  lemma {:induction false} CountedCall(ds: seq<Done>, k: nat)
    requires k < |ds|
    ensures Called(ds, ds[k].id) > 0
    decreases k
  {
    if k > 0 {
      CountedCall(ds[1..], k - 1);
    }
  }

  lemma {:induction false} CountedCycle(cs: seq<QueuedCycle>, k: nat)
    requires k < |cs|
    ensures InCycles(cs, cs[k].id) > 0
    decreases k
  {
    if k > 0 {
      CountedCycle(cs[1..], k - 1);
    }
  }

  lemma {:induction false} CountedReady(devices: seq<Device>, i: nat, id: nat)
    requires i < |devices|
    ensures InReady(devices, id) >= InCycles(devices[i].ready, id)
    decreases i
  {
    if i > 0 {
      CountedReady(devices[1..], i - 1, id);
    }
  }

  lemma {:induction false} CountedTwice(devices: seq<Device>, i: nat, j: nat, id: nat)
    requires i < j < |devices|
    ensures InReady(devices, id) >= InCycles(devices[i].ready, id) + InCycles(devices[j].ready, id)
    decreases i
  {
    if i == 0 {
      CountedReady(devices[1..], j - 1, id);
    } else {
      CountedTwice(devices[1..], i - 1, j - 1, id);
    }
  }

  ghost predicate Distinct(cs: seq<QueuedCycle>) {
    forall i, j | 0 <= i < j < |cs| :: cs[i].id != cs[j].id
  }

  lemma {:induction false} OnceDistinct(cs: seq<QueuedCycle>)
    requires forall id: nat :: InCycles(cs, id) <= 1
    ensures Distinct(cs)
    decreases |cs|
  {
    if |cs| > 0 {
      forall id: nat ensures InCycles(cs[1..], id) <= 1 {
        assert InCycles(cs, id) <= 1;
      }
      OnceDistinct(cs[1..]);
      forall j | 0 < j < |cs| ensures cs[0].id != cs[j].id {
        CountedCycle(cs[1..], j - 1);
        assert InCycles(cs, cs[0].id) <= 1;
      }
      forall i, j | 0 <= i < j < |cs| ensures cs[i].id != cs[j].id {
        if i > 0 {
          assert cs[1..][i - 1].id != cs[1..][j - 1].id;
        }
      }
    }
  }

  /** Where an id is, it is not anywhere else. */
  lemma Apart(l: Library, id: nat)
    requires OnePlaceEach(l)
    ensures InReady(l.devices, id) + InResponses(Fifo(l.queue), id) + Called(l.queue.log, id) <= 1
    ensures id in l.open ==> InReady(l.devices, id) + InResponses(Fifo(l.queue), id) + Called(l.queue.log, id) == 0
    ensures id in l.open ==> id < l.nextId
  {
    hide InReady, InResponses, Called, InAborted, Fifo;
    assert Places(l, id) == if id < l.nextId then 1 else 0;
  }

  // What a flush makes of the ready cycles.

  ghost predicate HasId(cs: seq<QueuedCycle>, id: nat) {
    exists k | 0 <= k < |cs| :: cs[k].id == id
  }

  ghost predicate HasShown(cs: seq<QueuedCycle>, id: nat, status: Status, view: View) {
    exists k | 0 <= k < |cs| :: cs[k].id == id && Shows(status, view, cs[k].requests)
  }

  ghost predicate HasAlike(cs: seq<QueuedCycle>, id: nat, ops: seq<Operation>) {
    exists k | 0 <= k < |cs| :: cs[k].id == id && Alike(ops, cs[k].requests)
  }

  /** A callback that a flush runs. */
  ghost predicate FlushedDone(device: nat, cs: seq<QueuedCycle>, sent: set<nat>, d: Done) {
    && d.device == device && HasId(cs, d.id) && HasShown(cs, d.id, d.status, d.view) && d.status != TIMEOUT && d.view != OwnIndex
    && (d.id in sent <==> Tells(d, true))
  }

  /** A response that a flush sets up. */
  ghost predicate FlushedWait(device: nat, cs: seq<QueuedCycle>, sent: set<nat>, r: Response) {
    && r.cycle.device == device && HasId(cs, r.cycle.id) && r.cycle.id in sent && |r.cycle.ops| > 0
    && HasAlike(cs, r.cycle.id, r.cycle.ops) && ReadIsNext(r)
  }

  ghost predicate AllFlushed(device: nat, cs: seq<QueuedCycle>, sent: set<nat>, ds: seq<Done>, rs: seq<Response>) {
    && (forall k | 0 <= k < |ds| :: FlushedDone(device, cs, sent, ds[k]))
    && (forall k | 0 <= k < |rs| :: FlushedWait(device, cs, sent, rs[k]))
    && (forall id | id in sent :: HasId(cs, id))
  }

  /** One cycle of a flush: it is called back, or a response is set up for it. */
  lemma FateTold(t: Transport, device: nat, time: nat, s: Sender, out: Sender, c: QueuedCycle, oom: bool) returns (ds: seq<Done>, rs: seq<Response>)
    requires t.Ok() && |c.requests| < NO_LIMIT && s.rba % 2 == 0 && s.rba < 0x1_0000 && FateOf(t, device, time, s, out, c, oom)
    ensures out.queue.log == s.queue.log + ds && Fifo(out.queue) == Fifo(s.queue) + rs
    ensures AllFlushed(device, [c], if Accepts(t, s.rba, c, oom) then {c.id} else {}, ds, rs)
  {
    hide NewResponse, Accepts, NeedsReply, Validate, Fifo, FlushShows, Shows, Alike, ReadIsNext;
    assert [c][0] == c;
    assert HasId([c], c.id);
    if Accepts(t, s.rba, c, oom) && NeedsReply(CycleOf(t, c), c.checked) {
      var r := NewResponse(Cycle(c.id, device, CycleOf(t, c)), s.rba, Deadline(time), c.checked);
      ResponseCycle(Cycle(c.id, device, CycleOf(t, c)), s.rba, Deadline(time), c.checked);
      EnqueueIsLast(s.queue, r);
      ds, rs := [], [r];
      SentSome(t, s.rba, c, oom);
      CycleAlike(t, c);
      NewReads(Cycle(c.id, device, CycleOf(t, c)), s.rba, Deadline(time), c.checked);
      assert Alike(CycleOf(t, c), [c][0].requests);
    } else {
      var view :| CallsBack(s.queue, out.queue, Done(c.id, device, FlushStatus(t, s.rba, c, oom), view)) && FlushShows(t, s.rba, c, oom, view);
      ds, rs := [Done(c.id, device, FlushStatus(t, s.rba, c, oom), view)], [];
      SameLists(s.queue, out.queue);
      CallbackTells(t, s.rba, c, oom, ds[0]);
      assert Shows(ds[0].status, view, [c][0].requests);
    }
  }

  /** Validation keeps what was asked for. */
  lemma CycleAlike(t: Transport, c: QueuedCycle)
    requires t.Ok() && Validate(t.port, c.requests, 0).Valid?
    ensures Alike(CycleOf(t, c), c.requests) && !HasError(CycleOf(t, c))
  {
    ValidateExact(t.port, c.requests, 0);
    hide Validate, Check;
    forall i | 0 <= i < |c.requests| ensures Check(t.port, c.requests[i]) == Accepted(CycleOf(t, c)[i]) {
      CheckCorrect(t.port, c.requests[i]);
    }
    forall i | 0 <= i < |c.requests|
      ensures var op, r := CycleOf(t, c)[i], c.requests[i]; op.write == r.write && op.config == r.config && op.address == r.address && op.value == r.value
    {
      CheckCorrect(t.port, c.requests[i]);
    }
  }

  lemma NewReads(cycle: Cycle, address: nat, deadline: nat, checked: bool)
    ensures ReadIsNext(NewResponse(cycle, address, deadline, checked))
  {}

  lemma SameLists(q: Queue, q': Queue)
    requires q'.first == q.first && q'.last == q.last
    ensures Fifo(q') == Fifo(q) + []
  {}

  lemma SentSome(t: Transport, rba: nat, c: QueuedCycle, oom: bool)
    requires t.Ok() && |c.requests| < NO_LIMIT && rba % 2 == 0 && rba < 0x1_0000 && Accepts(t, rba, c, oom)
    ensures |c.requests| > 0 && !c.dead && !oom && Validate(t.port, c.requests, 0).Valid?
  {
    hide Packets.Request;
  }

  lemma CallbackTells(t: Transport, rba: nat, c: QueuedCycle, oom: bool, d: Done)
    requires t.Ok() && |c.requests| < NO_LIMIT && rba % 2 == 0 && rba < 0x1_0000
    requires d.status == FlushStatus(t, rba, c, oom) && FlushShows(t, rba, c, oom, d.view)
    ensures Accepts(t, rba, c, oom) <==> Tells(d, true)
    ensures d.status != TIMEOUT && d.view != OwnIndex && Shows(d.status, d.view, c.requests)
  {
    hide Accepts, Validate, Alike, HasError, ShowsStop, Check;
    if Accepts(t, rba, c, oom) {
      SentSome(t, rba, c, oom);
      CycleAlike(t, c);
    } else if c.dead || |c.requests| == 0 {
    } else if Validate(t.port, c.requests, 0).Bad? {
      RefusedStatus(t.port, c.requests, 0);
      BadIndex(t.port, c.requests);
    } else if !oom {
      StopShows(t, rba, c, d.view);
    }
  }

  lemma BadIndex(port: Port, reqs: seq<Request>)
    requires port.Valid() && Validate(port, reqs, 0).Bad?
    ensures Validate(port, reqs, 0).index < |reqs|
  {}

  lemma StopShows(t: Transport, rba: nat, c: QueuedCycle, view: View)
    requires t.Ok() && Packs(t, c, false) && |c.requests| < NO_LIMIT && rba % 2 == 0 && rba < 0x1_0000 && ShowsStop(t, rba, c, view)
    ensures view == NoOperations || (view.Offending? && view.index < |c.requests|)
  {
    hide RecordsOf, NoRoomFor, Validate;
  }

  lemma {:induction false} FlushTold(t: Transport, device: nat, time: nat, s: Sender, cs: seq<QueuedCycle>, oom: nat -> bool)
    returns (ds: seq<Done>, rs: seq<Response>)
    requires t.Ok() && SenderOk(t, s) && |s.cur| == 0 && Short(cs) && Distinct(cs)
    ensures var out := FlushCycles(t, device, time, s, cs, oom);
            out.queue.log == s.queue.log + ds && Fifo(out.queue) == Fifo(s.queue) + rs
    ensures AllFlushed(device, cs, FlushSends(t, device, time, s, cs, oom), ds, rs)
    decreases |cs|
  {
    hide FlushCycle, SentBy, FateOf, Accepts, Fifo, AllFlushed;
    if |cs| == 0 {
      ds, rs := [], [];
      assert s.queue.log + [] == s.queue.log && Fifo(s.queue) + [] == Fifo(s.queue);
      NothingFlushed(device, cs);
    } else {
      var c, o := cs[0], oom(cs[0].id);
      var s1 := FlushCycle(t, device, time, s, c, o);
      FlushCycleCorrect(t, device, time, s, c, o);
      var ds1, rs1 := FateTold(t, device, time, s, s1, c, o);
      DistinctRest(cs);
      var ds2, rs2 := FlushTold(t, device, time, s1, cs[1..], oom);
      ds, rs := ds1 + ds2, rs1 + rs2;
      Regroup(s.queue.log, ds1, ds2);
      Regroup(Fifo(s.queue), rs1, rs2);
      FlushedCons(device, cs, if Accepts(t, s.rba, c, o) then {c.id} else {}, FlushSends(t, device, time, s1, cs[1..], oom), ds1, rs1, ds2, rs2);
    }
  }

  lemma NothingFlushed(device: nat, cs: seq<QueuedCycle>)
    ensures AllFlushed(device, cs, {}, [], [])
  {}

  lemma DistinctRest(cs: seq<QueuedCycle>)
    requires Distinct(cs) && |cs| > 0
    ensures Distinct(cs[1..])
  {
    forall i, j | 0 <= i < j < |cs[1..]| ensures cs[1..][i].id != cs[1..][j].id {
      assert cs[i + 1].id != cs[j + 1].id;
    }
  }

  /** The first cycle and the others, which have other ids. */
  lemma FlushedCons(device: nat, cs: seq<QueuedCycle>, own: set<nat>, rest: set<nat>,
    ds1: seq<Done>, rs1: seq<Response>, ds2: seq<Done>, rs2: seq<Response>)
    requires Distinct(cs) && |cs| > 0
    requires AllFlushed(device, [cs[0]], own, ds1, rs1) && AllFlushed(device, cs[1..], rest, ds2, rs2)
    ensures AllFlushed(device, cs, own + rest, ds1 + ds2, rs1 + rs2)
  {
    hide Tells;
    forall id | HasId([cs[0]], id) ensures HasId(cs, id) && !HasId(cs[1..], id) {
      assert id == cs[0].id;
      forall k | 0 <= k < |cs[1..]| ensures cs[1..][k].id != id {
        assert cs[1..][k] == cs[k + 1];
      }
    }
    forall id | HasId(cs[1..], id) ensures HasId(cs, id) {
      var k :| 0 <= k < |cs[1..]| && cs[1..][k].id == id;
      assert cs[k + 1].id == id;
    }
    ShownInAll(cs);
    hide HasId, HasShown, HasAlike, ReadIsNext;
    forall k | 0 <= k < |ds1 + ds2| ensures FlushedDone(device, cs, own + rest, (ds1 + ds2)[k]) {
      if k < |ds1| {
        assert FlushedDone(device, [cs[0]], own, ds1[k]);
      } else {
        assert FlushedDone(device, cs[1..], rest, ds2[k - |ds1|]);
      }
    }
    forall k | 0 <= k < |rs1 + rs2| ensures FlushedWait(device, cs, own + rest, (rs1 + rs2)[k]) {
      if k < |rs1| {
        assert FlushedWait(device, [cs[0]], own, rs1[k]);
      } else {
        assert FlushedWait(device, cs[1..], rest, rs2[k - |rs1|]);
      }
    }
  }

  lemma ShownInAll(cs: seq<QueuedCycle>)
    requires |cs| > 0
    ensures forall id, status, view | HasShown([cs[0]], id, status, view) || HasShown(cs[1..], id, status, view) :: HasShown(cs, id, status, view)
    ensures forall id, ops | HasAlike([cs[0]], id, ops) || HasAlike(cs[1..], id, ops) :: HasAlike(cs, id, ops)
  {
    hide Shows, Alike;
    forall k | 0 <= k < |cs[1..]| ensures cs[1..][k] == cs[k + 1] {}
  }

  // One more call keeps what was told.

  /** Callbacks that ran before. */
  lemma LogCarried(p: seq<Step>, step: Step, l: Library, l': Library, sent: set<nat>, sent': set<nat>, ds: seq<Done>)
    requires LogTold(p, l, sent, ds) && (forall i: nat | Gone(l, i) :: Gone(l', i))
    requires forall k | 0 <= k < |ds| :: (ds[k].id in sent' <==> ds[k].id in sent) && (step.Fill? ==> ds[k].id != step.id)
    requires step.FlushDevice? ==> !Gone(l, step.device)
    ensures LogTold(p + [step], l', sent', ds)
  {
    hide ClosedIn, RanOut, FlushedAfter, Gone, Tells, Shows, AskedFor, OpenedOn;
    forall k | 0 <= k < |ds| ensures DoneTold(p + [step], l', sent', ds[k]) {
      OneMore(p, step, ds[k].id, ds[k].device);
      SameAsked(p, step, ds[k].id, ds[k].device);
      assert DoneTold(p, l, sent, ds[k]);
      TellsOnlyThen(ds[k], FlushedAfter(p, ds[k].id, ds[k].device), FlushedAfter(p + [step], ds[k].id, ds[k].device));
    }
  }

  lemma TellsOnlyThen(d: Done, a: bool, b: bool)
    requires d.status != TIMEOUT || a == b
    ensures Tells(d, a) <==> Tells(d, b)
  {}

  /** Responses that waited before. */
  lemma WaitsCarried(p: seq<Step>, step: Step, sent: set<nat>, sent': set<nat>, rs: seq<Response>)
    requires WaitsTold(p, sent, rs) && sent <= sent' && forall k | 0 <= k < |rs| :: step.Fill? ==> rs[k].cycle.id != step.id
    ensures WaitsTold(p + [step], sent', rs)
  {
    hide ClosedIn, RanOut, FlushedAfter, Alike, AskedFor, OpenedOn, ReadIsNext;
    forall k | 0 <= k < |rs| ensures WaitTold(p + [step], sent', rs[k]) {
      OneMore(p, step, rs[k].cycle.id, rs[k].cycle.device);
      SameAsked(p, step, rs[k].cycle.id, rs[k].cycle.device);
      assert WaitTold(p, sent, rs[k]);
    }
  }

  /** Cycles that were ready before and still are. */
  lemma ReadyCarried(p: seq<Step>, step: Step, sent: set<nat>, sent': set<nat>, device: nat, cs: seq<QueuedCycle>)
    requires ReadyAllTold(p, sent, device, cs) && !(step.FlushDevice? && step.device == device)
    requires forall k | 0 <= k < |cs| :: cs[k].id !in sent' && (step.Fill? || step.Close? ==> cs[k].id != step.id)
    ensures ReadyAllTold(p + [step], sent', device, cs)
  {
    hide ClosedIn, RanOut, FlushedAfter, AskedFor, OpenedOn, CheckedIn;
    forall k | 0 <= k < |cs| ensures ReadyTold(p + [step], sent', device, cs[k]) {
      OneMore(p, step, cs[k].id, device);
      SameAsked(p, step, cs[k].id, device);
      assert ReadyTold(p, sent, device, cs[k]);
    }
  }

  /** Cycles that are not closed yet. */
  lemma OpenCarried(p: seq<Step>, step: Step, sent: set<nat>, sent': set<nat>, id: nat, c: OpenCycle, c': OpenCycle)
    requires OpenTold(p, sent, id, c) && id !in sent' && !(step.Close? && step.id == id)
    requires if step.Fill? && step.id == id then FilledTo(c, step, c') else c' == c
    ensures OpenTold(p + [step], sent', id, c')
  {
    hide ClosedIn, FlushedAfter, CheckedIn, Fills;
    OneMore(p, step, id, 0);
    SameAsked(p, step, id, 0);
    if step.Fill? && step.id == id {
      FillsMore(p, step, id);
      hide RanOut;
      if !step.oom && !c.dead {
        assert ([step.request] + c.requests)[1..] == c.requests;
      } else {
        assert c'.requests == [] || c' == c;
      }
    }
  }

  /** What filling makes of an open cycle. */
  predicate FilledTo(c: OpenCycle, step: Step, c': OpenCycle)
    requires step.Fill?
  {
    if step.oom then c' == c.(requests := [], dead := true)
    else if c.dead then c' == c
    else c' == c.(requests := [step.request] + c.requests)
  }

  // The new callbacks of a step.

  lemma {:induction false} TimeoutsTold(p: seq<Step>, l: Library, sent: set<nat>, rs: seq<Response>)
    requires WaitsTold(p, sent, rs)
    ensures LogTold(p, l, sent, Timeouts(rs))
    decreases |rs|
  {
    hide ClosedIn, RanOut, FlushedAfter, Gone, Alike, HasError, AskedFor, OpenedOn, ReadIsNext;
    if |rs| > 0 {
      assert WaitTold(p, sent, rs[0]);
      assert WaitsTold(p, sent, rs[1..]) by {
        forall k | 0 <= k < |rs[1..]| ensures WaitTold(p, sent, rs[1..][k]) {
          assert rs[1..][k] == rs[k + 1];
        }
      }
      TimeoutsTold(p, l, sent, rs[1..]);
      LogJoined(p, l, sent, [Timeouts(rs)[0]], Timeouts(rs[1..]));
    }
  }

  lemma LogJoined(p: seq<Step>, l: Library, sent: set<nat>, a: seq<Done>, b: seq<Done>)
    requires LogTold(p, l, sent, a) && LogTold(p, l, sent, b)
    ensures LogTold(p, l, sent, a + b)
  {
    hide DoneTold;
  }

  lemma {:induction false} KilledTold(p: seq<Step>, l: Library, sent: set<nat>, device: nat, cs: seq<QueuedCycle>)
    requires ReadyAllTold(p, sent, device, cs) && Gone(l, device)
    ensures LogTold(p, l, sent, KilledAll(device, cs))
    decreases |cs|
  {
    hide ClosedIn, RanOut, FlushedAfter, Gone, AskedFor, OpenedOn, CheckedIn;
    if |cs| > 0 {
      assert ReadyTold(p, sent, device, cs[0]);
      assert ReadyAllTold(p, sent, device, cs[1..]) by {
        forall k | 0 <= k < |cs[1..]| ensures ReadyTold(p, sent, device, cs[1..][k]) {
          assert cs[1..][k] == cs[k + 1];
        }
      }
      KilledTold(p, l, sent, device, cs[1..]);
      LogJoined(p, l, sent, [Killed(device, cs[0])], KilledAll(device, cs[1..]));
    }
  }

  /** A reply word. */
  lemma AnswerTold(p: seq<Step>, l: Library, sent: set<nat>, rs: seq<Response>, size: nat, address: nat, value: nat)
    requires AllOk(rs) && WaitsTold(p, sent, rs)
    ensures WaitsTold(p, sent, AnswerList(rs, size, address, value).0) && LogTold(p, l, sent, AnswerList(rs, size, address, value).1)
  {
    hide Find, ReturnAddress, Answer, HasError, ClosedIn, RanOut, FlushedAfter, Gone, Alike, AskedFor, OpenedOn, ReadIsNext;
    var i := Find(rs, ReturnAddress(address));
    if i < |rs| {
      var a := Answer(rs[i], size, address, value);
      AnswerKeepsCycle(rs[i], size, address, value);
      AnswerAlike(rs[i], size, address, value, AskedFor(p, rs[i].cycle.id));
      assert WaitTold(p, sent, rs[i]);
      assert WaitTold(p, sent, a.0);
      AlikeSome(a.0.cycle.ops, AskedFor(p, a.0.cycle.id));
      assert DoneTold(p, l, sent, DoneBy(a.0, a.1));
    }
  }

  lemma AnswerKeepsCycle(r: Response, size: nat, address: nat, value: nat)
    requires ResponseOk(r)
    ensures var r' := Answer(r, size, address, value).0;
            r'.cycle.id == r.cycle.id && r'.cycle.device == r.cycle.device && |r'.cycle.ops| == |r.cycle.ops|
  {
    hide CountBus, FindRead, FindBus;
  }

  lemma AlikeSome(ops: seq<Operation>, reqs: seq<Request>)
    requires Alike(ops, reqs) && |ops| > 0
    ensures reqs != []
  {}

  /** Reply words store values of reads and error flags only. */
  lemma AnswerAlike(r: Response, size: nat, address: nat, value: nat, reqs: seq<Request>)
    requires ResponseOk(r) && Alike(r.cycle.ops, reqs) && ReadIsNext(r)
    ensures var r' := Answer(r, size, address, value).0; Alike(r'.cycle.ops, reqs) && ReadIsNext(r')
  {
    if address % 2 != 0 {
      ErrorsAlike(r.cycle.ops, r.sc, CountBus(r.cycle.ops, r.sc, 8 * size), value);
    }
    hide CountBus, FindBus, AssignErrors;
  }

  lemma {:induction false} ErrorsAlike(ops: seq<Operation>, i: nat, n: nat, value: nat)
    requires i <= |ops|
    ensures var marked := AssignErrors(ops, i, n, value).0;
            |marked| == |ops| && forall k | 0 <= k < |ops| :: marked[k] == ops[k].(error := marked[k].error)
    decreases |ops| - i
  {
    if n != 0 && i < |ops| {
      if ops[i].config {
        ErrorsAlike(ops, i + 1, n, value);
      } else {
        ErrorsAlike(ops[i := ops[i].(error := ops[i].error || Bit(value, n - 1))], i + 1, n - 1, value);
      }
    }
  }

  lemma {:induction false} SelectTold(p: seq<Step>, sent: set<nat>, rs: seq<Response>, device: nat, mine: bool)
    requires WaitsTold(p, sent, rs)
    ensures WaitsTold(p, sent, Select(rs, device, mine))
    decreases |rs|
  {
    hide WaitTold;
    if |rs| > 0 {
      assert WaitsTold(p, sent, rs[1..]) by {
        forall k | 0 <= k < |rs[1..]| ensures WaitTold(p, sent, rs[1..][k]) {
          assert rs[1..][k] == rs[k + 1];
        }
      }
      SelectTold(p, sent, rs[1..], device, mine);
    }
  }

  lemma {:induction false} ReverseTold(p: seq<Step>, sent: set<nat>, device: nat, cs: seq<QueuedCycle>)
    requires ReadyAllTold(p, sent, device, cs)
    ensures ReadyAllTold(p, sent, device, Reverse(cs))
    decreases |cs|
  {
    hide ReadyTold;
    if |cs| > 0 {
      assert ReadyAllTold(p, sent, device, cs[1..]) by {
        forall k | 0 <= k < |cs[1..]| ensures ReadyTold(p, sent, device, cs[1..][k]) {
          assert cs[1..][k] == cs[k + 1];
        }
      }
      ReverseTold(p, sent, device, cs[1..]);
    }
  }

  // The steps.

  lemma ReadyDistinct(l: Library, device: nat)
    requires OnePlaceEach(l) && device < |l.devices|
    ensures Distinct(Reverse(l.devices[device].ready))
  {
    hide Places, InCycles, InReady, Distinct;
    var cs := l.devices[device].ready;
    forall id: nat ensures InCycles(Reverse(cs), id) <= 1 {
      InCyclesReverse(cs, id);
      CountedReady(l.devices, device, id);
      Apart(l, id);
    }
    OnceDistinct(Reverse(cs));
  }

  lemma HeldIn(cs: seq<QueuedCycle>, id: nat)
    requires HasId(Reverse(cs), id)
    ensures InCycles(cs, id) > 0
  {
    var k :| 0 <= k < |Reverse(cs)| && Reverse(cs)[k].id == id;
    CountedCycle(Reverse(cs), k);
    InCyclesReverse(cs, id);
  }

  /** What a flush does to the queue, and what it sends. */
  lemma FlushStepTold(l: Library, step: Step) returns (ds: seq<Done>, rs: seq<Response>)
    requires LibraryOk(l) && OnePlaceEach(l) && Possible(l, step) && step.FlushDevice?
    ensures Next(l, step).queue.log == l.queue.log + ds && Fifo(Next(l, step).queue) == Fifo(l.queue) + rs
    ensures AllFlushed(step.device, Reverse(l.devices[step.device].ready), StepSends(l, step), ds, rs)
  {
    hide Transport.Ok, FlushCycles, FlushSends, Fifo, AllFlushed, Distinct, Short, QueueState, OnePlaceEach;
    var d := l.devices[step.device];
    ReadyDistinct(l, step.device);
    ShortReverse(d.ready);
    ds, rs := FlushTold(d.t, step.device, l.clock, SenderOf(l), Reverse(d.ready), step.noMemory);
  }

  /** Only ready cycles are sent. */
  lemma SendsReady(l: Library, step: Step, id: nat)
    requires LibraryOk(l) && OnePlaceEach(l) && Possible(l, step) && id in StepSends(l, step)
    ensures step.FlushDevice? && InCycles(l.devices[step.device].ready, id) > 0 && InReady(l.devices, id) > 0
  {
    hide Next, Reverse, FlushSends, OnePlaceEach, Transport.Ok, InCycles, InReady, HasId;
    var ds, rs := FlushStepTold(l, step);
    HeldIn(l.devices[step.device].ready, id);
    CountedReady(l.devices, step.device, id);
  }

  /** Cycles that were called back before are neither sent nor filled. */
  lemma CalledKeeps(l: Library, step: Step, k: nat)
    requires LibraryOk(l) && OnePlaceEach(l) && Possible(l, step) && k < |l.queue.log|
    ensures l.queue.log[k].id !in StepSends(l, step) && (step.Fill? ==> l.queue.log[k].id != step.id)
  {
    hide StepSends, OnePlaceEach, InReady, Called, InResponses, Fifo, LibraryOk;
    var id := l.queue.log[k].id;
    CountedCall(l.queue.log, k);
    Apart(l, id);
    if id in StepSends(l, step) {
      SendsReady(l, step, id);
    }
  }

  /** Nor are those that wait for a reply filled. */
  lemma WaitingKeeps(l: Library, step: Step, k: nat)
    requires LibraryOk(l) && OnePlaceEach(l) && Possible(l, step) && k < |Fifo(l.queue)|
    ensures step.Fill? ==> Fifo(l.queue)[k].cycle.id != step.id
  {
    hide OnePlaceEach, InReady, Called, InResponses, Fifo, LibraryOk;
    CountedWait(Fifo(l.queue), k);
    Apart(l, Fifo(l.queue)[k].cycle.id);
  }

  lemma {:induction false} CountedWait(rs: seq<Response>, k: nat)
    requires k < |rs|
    ensures InResponses(rs, rs[k].cycle.id) > 0
    decreases k
  {
    if k > 0 {
      CountedWait(rs[1..], k - 1);
    }
  }

  lemma GoneKeeps(l: Library, step: Step)
    requires LibraryOk(l) && Possible(l, step)
    ensures forall i: nat | Gone(l, i) :: Gone(Next(l, step), i)
  {
    hide Transport.Ok, WriteConfig, FlushCycles, KillInflight, Expire, Turned, KilledAll, Short, Reverse, QueueState, LibraryOk;
  }

  /** Old callbacks and responses. */
  lemma QueueCarried(p: seq<Step>, l: Library, sent: set<nat>, step: Step)
    requires LibraryOk(l) && OnePlaceEach(l) && Possible(l, step) && Told(p, l, sent)
    ensures LogTold(p + [step], Next(l, step), sent + StepSends(l, step), l.queue.log)
    ensures WaitsTold(p + [step], sent + StepSends(l, step), Fifo(l.queue))
  {
    hide Next, StepSends, OnePlaceEach, DevicesTold, CyclesTold, LogTold, WaitsTold, Fifo, LibraryOk;
    var sent' := sent + StepSends(l, step);
    forall k | 0 <= k < |l.queue.log|
      ensures (l.queue.log[k].id in sent' <==> l.queue.log[k].id in sent) && (step.Fill? ==> l.queue.log[k].id != step.id)
    {
      CalledKeeps(l, step, k);
    }
    forall k | 0 <= k < |Fifo(l.queue)| ensures step.Fill? ==> Fifo(l.queue)[k].cycle.id != step.id {
      WaitingKeeps(l, step, k);
    }
    GoneKeeps(l, step);
    LogCarried(p, step, l, Next(l, step), sent, sent', l.queue.log);
    WaitsCarried(p, step, sent, sent', Fifo(l.queue));
  }

  lemma FlushQueueTold(p: seq<Step>, l: Library, sent: set<nat>, step: Step)
    requires LibraryOk(l) && OnePlaceEach(l) && Possible(l, step) && Told(p, l, sent) && step.FlushDevice?
    ensures LogTold(p + [step], Next(l, step), sent + StepSends(l, step), Next(l, step).queue.log)
    ensures WaitsTold(p + [step], sent + StepSends(l, step), Fifo(Next(l, step).queue))
  {
    hide Next, StepSends, OnePlaceEach, CyclesTold, LogTold, WaitsTold, Fifo, LibraryOk, Reverse;
    var p', l', sent' := p + [step], Next(l, step), sent + StepSends(l, step);
    var device, cs := step.device, Reverse(l.devices[step.device].ready);
    QueueCarried(p, l, sent, step);
    var ds, rs := FlushStepTold(l, step);
    assert ReadyAllTold(p, sent, device, l.devices[device].ready);
    ReverseTold(p, sent, device, l.devices[device].ready);
    NewTold(p, l', sent, step, cs, StepSends(l, step), ds, rs);
    LogJoined(p', l', sent', l.queue.log, ds);
    WaitsJoined(p', sent', Fifo(l.queue), rs);
  }

  lemma WaitsJoined(p: seq<Step>, sent: set<nat>, a: seq<Response>, b: seq<Response>)
    requires WaitsTold(p, sent, a) && WaitsTold(p, sent, b)
    ensures WaitsTold(p, sent, a + b)
  {
    hide WaitTold;
  }

  /** What a flush adds. */
  lemma NewTold(p: seq<Step>, l': Library, sent: set<nat>, step: Step, cs: seq<QueuedCycle>, own: set<nat>, ds: seq<Done>, rs: seq<Response>)
    requires step.FlushDevice? && ReadyAllTold(p, sent, step.device, cs) && AllFlushed(step.device, cs, own, ds, rs)
    ensures LogTold(p + [step], l', sent + own, ds) && WaitsTold(p + [step], sent + own, rs)
  {
    hide ClosedIn, RanOut, FlushedAfter, Gone, Tells, HasShown, HasAlike, AskedFor, Alike, Shows, OpenedOn, CheckedIn, ReadIsNext;
    forall k | 0 <= k < |ds| ensures DoneTold(p + [step], l', sent + own, ds[k]) {
      assert FlushedDone(step.device, cs, own, ds[k]);
      var i := ShownTold(p, sent, step, cs, ds[k].id, ds[k].status, ds[k].view);
      OneMore(p, step, ds[k].id, step.device);
    }
    forall k | 0 <= k < |rs| ensures WaitTold(p + [step], sent + own, rs[k]) {
      assert FlushedWait(step.device, cs, own, rs[k]);
      var i := AlikeTold(p, sent, step, cs, rs[k].cycle.id, rs[k].cycle.ops);
      OneMore(p, step, rs[k].cycle.id, step.device);
    }
  }

  lemma ShownTold(p: seq<Step>, sent: set<nat>, step: Step, cs: seq<QueuedCycle>, id: nat, status: Status, view: View) returns (i: nat)
    requires step.FlushDevice? && ReadyAllTold(p, sent, step.device, cs) && HasShown(cs, id, status, view)
    ensures i < |cs| && cs[i].id == id && ReadyTold(p, sent, step.device, cs[i])
    ensures Shows(status, view, AskedFor(p + [step], id)) && OpenedOn(p + [step], id, step.device)
  {
    hide ClosedIn, RanOut, FlushedAfter, Shows, AskedFor, OpenedOn, CheckedIn;
    i :| 0 <= i < |cs| && cs[i].id == id && Shows(status, view, cs[i].requests);
    assert ReadyTold(p, sent, step.device, cs[i]);
    SameAsked(p, step, id, step.device);
  }

  lemma AlikeTold(p: seq<Step>, sent: set<nat>, step: Step, cs: seq<QueuedCycle>, id: nat, ops: seq<Operation>) returns (i: nat)
    requires step.FlushDevice? && ReadyAllTold(p, sent, step.device, cs) && HasAlike(cs, id, ops)
    ensures i < |cs| && cs[i].id == id && ReadyTold(p, sent, step.device, cs[i])
    ensures Alike(ops, AskedFor(p + [step], id)) && OpenedOn(p + [step], id, step.device)
  {
    hide ClosedIn, RanOut, FlushedAfter, Alike, AskedFor, OpenedOn, CheckedIn;
    i :| 0 <= i < |cs| && cs[i].id == id && Alike(ops, cs[i].requests);
    assert ReadyTold(p, sent, step.device, cs[i]);
    SameAsked(p, step, id, step.device);
  }

  lemma ExpireTold(p: seq<Step>, l: Library, sent: set<nat>, q: Queue, clock: nat, now: nat)
    requires clock < WORD32 && LogTold(p, l, sent, q.log) && WaitsTold(p, sent, Fifo(q))
    ensures LogTold(p, l, sent, Expire(q, clock, now).log) && WaitsTold(p, sent, Fifo(Expire(q, clock, now)))
  {
    hide ExpiredCount, Timeouts, WaitTold, LogTold;
    var n := ExpiredCount(q.first, clock, now);
    var q' := Expire(q, clock, now);
    assert Fifo(q') == Fifo(q)[n..];
    forall k | 0 <= k < |q.first[..n]| ensures WaitTold(p, sent, q.first[..n][k]) {
      assert q.first[..n][k] == Fifo(q)[k];
    }
    TimeoutsTold(p, l, sent, q.first[..n]);
    LogJoined(p, l, sent, q.log, Timeouts(q.first[..n]));
  }

  lemma KillTold(p: seq<Step>, l: Library, sent: set<nat>, q: Queue, device: nat)
    requires LogTold(p, l, sent, q.log) && WaitsTold(p, sent, Fifo(q))
    ensures LogTold(p, l, sent, KillInflight(q, device).log) && WaitsTold(p, sent, Fifo(KillInflight(q, device)))
  {
    hide Select, Timeouts, WaitsTold, LogTold;
    var q' := KillInflight(q, device);
    assert Reverse(q'.last) == [] && Fifo(q') == q'.first;
    SelectTold(p, sent, Fifo(q), device, false);
    SelectTold(p, sent, Fifo(q), device, true);
    TimeoutsTold(p, l, sent, Select(Fifo(q), device, true));
    LogJoined(p, l, sent, q.log, Timeouts(Select(Fifo(q), device, true)));
  }

  lemma QueueTold(p: seq<Step>, l: Library, sent: set<nat>, step: Step)
    requires LibraryOk(l) && OnePlaceEach(l) && Possible(l, step) && Told(p, l, sent)
    ensures LogTold(p + [step], Next(l, step), sent + StepSends(l, step), Next(l, step).queue.log)
    ensures WaitsTold(p + [step], sent + StepSends(l, step), Fifo(Next(l, step).queue))
  {
    hide Transport.Ok, WriteConfig, AnswerList, FlushCycles, KillInflight, Expire, Turned, KilledAll, Short, Reverse, QueueState, Fifo;
    hide OnePlaceEach, CyclesTold, LogTold, WaitsTold, ReadyAllTold;
    var p', l', sent' := p + [step], Next(l, step), sent + StepSends(l, step);
    QueueCarried(p, l, sent, step);
    match step
    case FlushDevice(_, _) =>
      FlushQueueTold(p, l, sent, step);
    case Reply(size, address, value) =>
      WriteConfigRefines(l.queue, size, address, value);
      AnswerTold(p', l', sent', Fifo(l.queue), size, address, value);
      LogJoined(p', l', sent', l.queue.log, AnswerList(Fifo(l.queue), size, address, value).1);
    case CheckTime(now) =>
      ExpireTold(p', l', sent', l.queue, l.clock, now);
    case AskTimeout =>
      TurnedSame(l.queue);
    case CloseDevice(device) =>
      CloseQueueTold(p, l, sent, step);
    case _ =>
  }

  lemma CloseQueueTold(p: seq<Step>, l: Library, sent: set<nat>, step: Step)
    requires LibraryOk(l) && OnePlaceEach(l) && Possible(l, step) && Told(p, l, sent) && step.CloseDevice?
    ensures LogTold(p + [step], Next(l, step), sent + StepSends(l, step), Next(l, step).queue.log)
    ensures WaitsTold(p + [step], sent + StepSends(l, step), Fifo(Next(l, step).queue))
  {
    hide Transport.Ok, KillInflight, KilledAll, Short, Reverse, QueueState, Fifo;
    hide OnePlaceEach, CyclesTold, LogTold, WaitsTold, ReadyAllTold;
    var p', l', sent', device := p + [step], Next(l, step), sent + StepSends(l, step), step.device;
    QueueCarried(p, l, sent, step);
    var ready := l.devices[device].ready;
    if l.devices[device].unready == 0 && !l.devices[device].passive {
      KillTold(p', l', sent', l.queue, device);
      ReadyKept(p, l, sent, step, device);
      ReverseTold(p', sent', device, ready);
      KilledTold(p', l', sent', device, Reverse(ready));
      LogJoined(p', l', sent', KillInflight(l.queue, device).log, KilledAll(device, Reverse(ready)));
      LogOnly(KillInflight(l.queue, device), KilledAll(device, Reverse(ready)));
    }
  }

  /** Ready cycles of a device that is not flushed. */
  lemma ReadyKept(p: seq<Step>, l: Library, sent: set<nat>, step: Step, device: nat)
    requires LibraryOk(l) && OnePlaceEach(l) && Possible(l, step) && Told(p, l, sent) && device < |l.devices|
    requires !(step.FlushDevice? && step.device == device)
    ensures ReadyAllTold(p + [step], sent + StepSends(l, step), device, l.devices[device].ready)
  {
    hide StepSends, OnePlaceEach, CyclesTold, LogTold, WaitsTold, Fifo, LibraryOk, InCycles, InReady, InResponses, Called;
    var cs := l.devices[device].ready;
    assert ReadyAllTold(p, sent, device, cs);
    forall k | 0 <= k < |cs| ensures cs[k].id !in sent + StepSends(l, step) && (step.Fill? || step.Close? ==> cs[k].id != step.id) {
      var id := cs[k].id;
      assert ReadyTold(p, sent, device, cs[k]);
      CountedCycle(cs, k);
      CountedReady(l.devices, device, id);
      Apart(l, id);
      if id in StepSends(l, step) {
        SendsReady(l, step, id);
        if step.device < device {
          CountedTwice(l.devices, step.device, device, id);
        } else {
          CountedTwice(l.devices, device, step.device, id);
        }
      }
    }
    hide ReadyAllTold;
    ReadyCarried(p, step, sent, sent + StepSends(l, step), device, cs);
  }

  /** The cycle that a step closes. */
  function Queueing(l: Library, step: Step): QueuedCycle
    requires step.Close? && step.id in l.open
  {
    var c := l.open[step.id];
    QueuedCycle(step.id, Reverse(c.requests), c.dead, step.checked && |c.requests| > 0)
  }

  lemma ReadyShape(l: Library, step: Step, i: nat)
    requires LibraryOk(l) && Possible(l, step) && i < |Next(l, step).devices|
    ensures var ready := Next(l, step).devices[i].ready;
            || ready == []
            || (i < |l.devices| && !(step.FlushDevice? && step.device == i)
                && (|| ready == l.devices[i].ready
                    || (step.Close? && i == l.open[step.id].device && ready == [Queueing(l, step)] + l.devices[i].ready)))
  {
    hide Transport.Ok, WriteConfig, FlushCycles, KillInflight, Expire, Turned, KilledAll, Short, Reverse, QueueState, LibraryOk;
  }

  lemma DevicesStepTold(p: seq<Step>, l: Library, sent: set<nat>, step: Step)
    requires LibraryOk(l) && OnePlaceEach(l) && Possible(l, step) && Told(p, l, sent)
    ensures DevicesTold(p + [step], sent + StepSends(l, step), Next(l, step).devices)
  {
    hide Next, StepSends, OnePlaceEach, LogTold, WaitsTold, Fifo, LibraryOk, ReadyAllTold;
    var p', sent' := p + [step], sent + StepSends(l, step);
    forall i: nat | i < |Next(l, step).devices| ensures ReadyAllTold(p', sent', i, Next(l, step).devices[i].ready) {
      ReadyShape(l, step, i);
      NoneReady(p', sent', i);
      if i < |l.devices| && !(step.FlushDevice? && step.device == i) {
        ReadyKept(p, l, sent, step, i);
        if step.Close? && i == l.open[step.id].device {
          ClosingTold(p, l, sent, step);
          ReadyCons(p', sent', i, Queueing(l, step), l.devices[i].ready);
        }
      }
    }
  }

  lemma NoneReady(p: seq<Step>, sent: set<nat>, device: nat)
    ensures ReadyAllTold(p, sent, device, [])
  {}

  lemma ReadyCons(p: seq<Step>, sent: set<nat>, device: nat, c: QueuedCycle, cs: seq<QueuedCycle>)
    requires ReadyTold(p, sent, device, c) && ReadyAllTold(p, sent, device, cs)
    ensures ReadyAllTold(p, sent, device, [c] + cs)
  {
    hide ReadyTold;
  }

  lemma ClosingTold(p: seq<Step>, l: Library, sent: set<nat>, step: Step)
    requires LibraryOk(l) && Possible(l, step) && step.Close? && CyclesTold(p, sent, l.open, l.nextId)
    ensures ReadyTold(p + [step], sent + StepSends(l, step), l.open[step.id].device, Queueing(l, step))
  {
    hide ClosedIn, RanOut, FlushedAfter, LibraryOk, Reverse, AskedFor, OpenedOn, CheckedIn;
    var device := l.open[step.id].device;
    assert OpenTold(p, sent, step.id, l.open[step.id]);
    OneMore(p, step, step.id, device);
    SameAsked(p, step, step.id, device);
    ClosedChecked(p, step);
  }

  lemma ClosedChecked(p: seq<Step>, step: Step)
    requires step.Close?
    ensures CheckedIn(p + [step], step.id) <==> CheckedIn(p, step.id) || step.checked
  {
    var p' := p + [step];
    assert p'[|p|] == step;
    forall i | 0 <= i < |p| ensures p'[i] == p[i] {}
  }

  lemma OpenShape(l: Library, step: Step, id: nat)
    requires LibraryOk(l) && Possible(l, step) && id in Next(l, step).open
    ensures var c := Next(l, step).open[id];
            || (id in l.open && !(step.Close? && step.id == id)
                && if step.Fill? && step.id == id then FilledTo(l.open[id], step, c) else c == l.open[id])
            || (step.Open? && id == l.nextId < Next(l, step).nextId && c == OpenCycle(step.device, [], false))
  {
    hide Transport.Ok, WriteConfig, FlushCycles, KillInflight, Expire, Turned, KilledAll, Short, Reverse, QueueState, LibraryOk;
  }

  lemma CyclesStepTold(p: seq<Step>, l: Library, sent: set<nat>, step: Step)
    requires LibraryOk(l) && OnePlaceEach(l) && Possible(l, step) && Told(p, l, sent)
    ensures CyclesTold(p + [step], sent + StepSends(l, step), Next(l, step).open, Next(l, step).nextId)
  {
    hide Next, StepSends, OnePlaceEach, LogTold, WaitsTold, DevicesTold, DevicesAre, Fifo, LibraryOk, OpenTold, OpenedOn, FilledTo;
    var p', l', sent' := p + [step], Next(l, step), sent + StepSends(l, step);
    NextIdGrows(l, step);
    forall id | id in l'.open ensures id < l'.nextId && OpenTold(p', sent', id, l'.open[id]) && OpenedOn(p', id, l'.open[id].device) {
      OpenShape(l, step, id);
      NotSent(p, l, sent, step, id);
      if id in l.open && !(step.Close? && step.id == id) {
        assert OpenTold(p, sent, id, l.open[id]);
        OpenCarried(p, step, sent, sent', id, l.open[id], l'.open[id]);
        SameAsked(p, step, id, l.open[id].device);
        FilledOn(l, step, id);
      } else {
        assert OpenTold(p, sent, id, UNOPENED);
        OpenCarried(p, step, sent, sent', id, UNOPENED, UNOPENED);
        OpenIsOne(p', sent', id, step.device);
        NewOn(p, l, step);
      }
    }
    forall id: nat | id >= l'.nextId ensures OpenTold(p', sent', id, UNOPENED) {
      NotSent(p, l, sent, step, id);
      assert OpenTold(p, sent, id, UNOPENED);
      OpenCarried(p, step, sent, sent', id, UNOPENED, UNOPENED);
    }
  }

  lemma OpenIsOne(p: seq<Step>, sent: set<nat>, id: nat, device: nat)
    requires OpenTold(p, sent, id, UNOPENED)
    ensures OpenTold(p, sent, id, OpenCycle(device, [], false))
  {}

  /** A cycle stays on its device. */
  lemma FilledOn(l: Library, step: Step, id: nat)
    requires LibraryOk(l) && Possible(l, step) && id in l.open && id in Next(l, step).open
    requires !(step.Open? && id == l.nextId < Next(l, step).nextId)
    ensures Next(l, step).open[id].device == l.open[id].device
  {
    OpenShape(l, step, id);
    hide Next, LibraryOk;
  }

  /** A new cycle is opened on the device that was asked. */
  lemma NewOn(p: seq<Step>, l: Library, step: Step)
    requires LibraryOk(l) && Possible(l, step) && DevicesAre(p, l) && step.Open? && Next(l, step).nextId > l.nextId
    ensures OpenedOn(p + [step], l.nextId, step.device)
  {
    hide Transport.Ok, Short, QueueState, Devices;
    assert (p + [step])[..|p|] == p;
  }

  lemma DevicesAreStep(p: seq<Step>, l: Library, step: Step)
    requires LibraryOk(l) && Possible(l, step) && DevicesAre(p, l)
    ensures DevicesAre(p + [step], Next(l, step))
  {
    hide Transport.Ok, WriteConfig, FlushCycles, KillInflight, Expire, Turned, KilledAll, Short, Reverse, QueueState, Devices;
    assert (p + [step])[..|p|] == p;
    DevicesMore(p, step);
  }

  lemma NotSent(p: seq<Step>, l: Library, sent: set<nat>, step: Step, id: nat)
    requires LibraryOk(l) && OnePlaceEach(l) && Possible(l, step) && CyclesTold(p, sent, l.open, l.nextId)
    requires id in l.open || id >= l.nextId
    ensures id !in sent + StepSends(l, step)
    ensures (step.Close? || step.Fill?) && id >= l.nextId ==> step.id != id
  {
    hide StepSends, InReady, InResponses, Called, InAborted, Fifo, LibraryOk, ClosedIn, RanOut, AskedFor, CheckedIn, OpenedOn, Reverse;
    assert Places(l, id) == if id < l.nextId then 1 else 0;
    assert OpenTold(p, sent, id, if id in l.open then l.open[id] else UNOPENED);
    hide OnePlaceEach;
    if id in StepSends(l, step) {
      OneSendsReady(l, step, id);
    }
  }

  lemma OneSendsReady(l: Library, step: Step, id: nat)
    requires LibraryOk(l) && OnePlaceEach(l) && Possible(l, step) && id in StepSends(l, step)
    ensures InReady(l.devices, id) > 0
  {
    SendsReady(l, step, id);
  }

  /** One more call. */
  lemma ToldStep(p: seq<Step>, l: Library, sent: set<nat>, step: Step)
    requires LibraryOk(l) && OnePlaceEach(l) && Possible(l, step) && Told(p, l, sent)
    ensures Told(p + [step], Next(l, step), sent + StepSends(l, step))
  {
    QueueTold(p, l, sent, step);
    DevicesStepTold(p, l, sent, step);
    CyclesStepTold(p, l, sent, step);
    DevicesAreStep(p, l, step);
    hide DevicesAre, Next, StepSends, OnePlaceEach, LogTold, WaitsTold, DevicesTold, CyclesTold, Fifo, LibraryOk, Possible;
  }

  lemma {:induction false} ToldRun(p: seq<Step>, l: Library, sent: set<nat>, steps: seq<Step>)
    requires Invariant(l) && Runs(l, steps) && Told(p, l, sent)
    ensures Told(p + steps, After(l, steps), sent + RunSends(l, steps))
    decreases |steps|
  {
    hide Next, Possible, StepSends, Told, NoStrays, OnePlaceEach, CountersExact, LibraryOk;
    if |steps| == 0 {
      assert p + steps == p && sent + {} == sent;
    } else {
      ToldStep(p, l, sent, steps[0]);
      InvariantKept(l, steps[0]);
      ToldRun(p + [steps[0]], Next(l, steps[0]), sent + StepSends(l, steps[0]), steps[1..]);
      assert p + [steps[0]] + steps[1..] == p + steps;
      assert sent + StepSends(l, steps[0]) + RunSends(Next(l, steps[0]), steps[1..]) == sent + RunSends(l, steps);
    }
  }

  lemma NothingTold()
    ensures Invariant(INITIAL) && Told([], INITIAL, {})
  {
    InitialInvariant();
    assert Fifo(INITIAL.queue) == [];
  }

  lemma ToldFromStart(steps: seq<Step>)
    requires Runs(INITIAL, steps)
    ensures Told(steps, After(INITIAL, steps), RunSends(INITIAL, steps))
  {
    NothingTold();
    hide Runs, After, RunSends, Told, Invariant, LibraryOk;
    ToldRun([], INITIAL, {}, steps);
    assert [] + steps == steps && {} + RunSends(INITIAL, steps) == RunSends(INITIAL, steps);
  }

  // What the interface says about the status of a cycle.

  /** After every run, for every callback: its cycle was sent exactly if the status is SEGFAULT or FAIL, or OK
      and operations are shown, or TIMEOUT and the device was flushed after the cycle was closed. */
  lemma SentIff(steps: seq<Step>, k: nat)
    requires Runs(INITIAL, steps) && k < |After(INITIAL, steps).queue.log|
    ensures var d := After(INITIAL, steps).queue.log[k];
            d.id in RunSends(INITIAL, steps) <==> Tells(d, FlushedAfter(steps, d.id, d.device))
  {
    ToldFromStart(steps);
    hide Runs, After, RunSends, Tells, FlushedAfter, LibraryOk;
    assert DoneTold(steps, After(INITIAL, steps), RunSends(INITIAL, steps), After(INITIAL, steps).queue.log[k]);
  }

  /** When the status keeps what the interface promises. */
  predicate AsPromised(d: Done, flushed: bool) {
    && d.status != SEGFAULT && d.status != FAIL
    && (d.status == OK ==> ShowsOperations(d.view))
    && (d.status == TIMEOUT ==> !flushed)
  }

  /** The interface promises that the status is OK exactly if the cycle was sent. After every run that is true
      of a callback exactly if the status is none of SEGFAULT and FAIL, an OK shows operations, and a TIMEOUT
      comes without a flush of the device after the cycle was closed. */
  lemma StatusTellsIff(steps: seq<Step>, k: nat)
    requires Runs(INITIAL, steps) && k < |After(INITIAL, steps).queue.log|
    ensures var d := After(INITIAL, steps).queue.log[k];
            (d.status == OK <==> d.id in RunSends(INITIAL, steps)) <==> AsPromised(d, FlushedAfter(steps, d.id, d.device))
  {
    SentIff(steps, k);
    hide Runs, After, RunSends, FlushedAfter, LibraryOk;
  }

  /** After every run, a callback is shown the cycle's own index exactly if memory ran out while the cycle was
      filled and its device was closed before it was flushed again. */
  lemma OwnIndexIff(steps: seq<Step>, k: nat)
    requires Runs(INITIAL, steps) && k < |After(INITIAL, steps).queue.log|
    ensures var d := After(INITIAL, steps).queue.log[k];
            d.view == OwnIndex <==> d.status == TIMEOUT && !FlushedAfter(steps, d.id, d.device) && RanOut(steps, d.id)
    ensures var d := After(INITIAL, steps).queue.log[k]; d.view == OwnIndex ==> Gone(After(INITIAL, steps), d.device)
  {
    ToldFromStart(steps);
    hide Runs, After, RunSends, Tells, FlushedAfter, RanOut, LibraryOk;
    assert DoneTold(steps, After(INITIAL, steps), RunSends(INITIAL, steps), After(INITIAL, steps).queue.log[k]);
  }

  // What a cycle holds.

  /** A ready cycle is what the calls made it: opened on its device, filled in their order, closed with or
      without a check. */
  ghost predicate AsAsked(steps: seq<Step>, device: nat, c: QueuedCycle) {
    && OpenedOn(steps, c.id, device) && (c.dead <==> RanOut(steps, c.id))
    && c.requests == (if RanOut(steps, c.id) then [] else Fills(steps, c.id))
    && (c.checked <==> CheckedIn(steps, c.id) && |c.requests| > 0)
  }

  /** After every run each ready cycle holds what was queued into it, in the order of the calls, unless memory ran
      out. */
  lemma ReadyAsAsked(steps: seq<Step>, device: nat, k: nat)
    requires Runs(INITIAL, steps) && device < |After(INITIAL, steps).devices| && k < |After(INITIAL, steps).devices[device].ready|
    ensures AsAsked(steps, device, After(INITIAL, steps).devices[device].ready[k])
  {
    ToldFromStart(steps);
    hide Runs, After, RunSends, LibraryOk, OpenedOn, RanOut, CheckedIn, Fills, Devices;
    assert ReadyAllTold(steps, RunSends(INITIAL, steps), device, After(INITIAL, steps).devices[device].ready);
    assert ReadyTold(steps, RunSends(INITIAL, steps), device, After(INITIAL, steps).devices[device].ready[k]);
  }

  /** After every run each device is the one that was opened. */
  lemma DeviceAsAsked(steps: seq<Step>, device: nat)
    requires Runs(INITIAL, steps) && device < |After(INITIAL, steps).devices|
    ensures device < |Devices(steps)| && After(INITIAL, steps).devices[device].t == Devices(steps)[device].t
  {
    ToldFromStart(steps);
    hide Runs, After, RunSends, LibraryOk, LogTold, WaitsTold, DevicesTold, CyclesTold, Devices, Openers;
  }

  /** After every run each open cycle holds, newest first, what was queued into it. */
  lemma OpenAsAsked(steps: seq<Step>, id: nat)
    requires Runs(INITIAL, steps) && id in After(INITIAL, steps).open
    ensures var c := After(INITIAL, steps).open[id];
            && OpenedOn(steps, id, c.device) && (c.dead <==> RanOut(steps, id))
            && Reverse(c.requests) == if RanOut(steps, id) then [] else Fills(steps, id)
  {
    ToldFromStart(steps);
    hide Runs, After, RunSends, LibraryOk, OpenedOn, RanOut, CheckedIn, Fills, Devices;
    assert OpenTold(steps, RunSends(INITIAL, steps), id, After(INITIAL, steps).open[id]);
  }

  /** What the callbacks of a cycle show: its own operations, in the order in which they were queued. */
  ghost predicate ShowsOwn(steps: seq<Step>, d: Done) {
    var reqs := if RanOut(steps, d.id) then [] else Fills(steps, d.id);
    && OpenedOn(steps, d.id, d.device)
    && if d.status != TIMEOUT || FlushedAfter(steps, d.id, d.device) then Shows(d.status, d.view, reqs)
       else d.view == if RanOut(steps, d.id) then OwnIndex else Queued(reqs)
  }

  /** After every run, for every callback: it comes from the device on which its cycle was opened, and shows what
      was queued into that cycle, in order; SEGFAULT exactly if one of the operations has its error flag. */
  lemma CallbackShows(steps: seq<Step>, k: nat)
    requires Runs(INITIAL, steps) && k < |After(INITIAL, steps).queue.log|
    ensures ShowsOwn(steps, After(INITIAL, steps).queue.log[k])
  {
    ToldFromStart(steps);
    hide Runs, After, RunSends, LibraryOk, OpenedOn, RanOut, FlushedAfter, Fills, Devices, Shows, Tells;
    assert DoneTold(steps, After(INITIAL, steps), RunSends(INITIAL, steps), After(INITIAL, steps).queue.log[k]);
  }
}
