/**
 The life of cycles over whole runs of the library: open, fill, close or abort, flush, answer, time
 out, and the closing of devices.
 */
module Lifecycle {
  import opened Words
  import opened Lanes
  import opened Operations
  import opened Packer
  import opened Responses
  import opened Delivery
  import opened Wire
  import opened Flush
  import opened Packets
  import opened SocketDevice

  /** A cycle being filled. Operations are pushed in front; `dead` means memory ran out. */
  datatype OpenCycle = OpenCycle(device: nat, requests: seq<Request>, dead: bool)

  /** `ready` is newest first. `unready` counts open cycles in eight bits. `passive` marks a device
      that takes no cycles: the far end of a link, or one that is being closed. */
  datatype Device = Device(t: Transport, ready: seq<QueuedCycle>, unready: nat, passive: bool, gone: bool)

  datatype Library = Library(devices: seq<Device>, open: map<nat, OpenCycle>, nextId: nat,
    queue: Queue, rba: nat, clock: nat, aborted: seq<nat>)

  const INITIAL := Library([], map[], 0, Queue([], [], []), 0x8000, 0, [])

  datatype Step =
    | OpenDevice(t: Transport, passive: bool)
    | Open(device: nat, oom: bool)
    | Fill(id: nat, request: Request, oom: bool)
    | Close(id: nat, checked: bool)
    | Abort(id: nat)
    | FlushDevice(device: nat, noMemory: nat -> bool)
    | Reply(size: nat, address: nat, value: nat)
    | CheckTime(now: nat)
    | AskTimeout
    | CloseDevice(device: nat)

  predicate Present(l: Library, device: nat) {
    device < |l.devices| && !l.devices[device].gone
  }

  /** A device that takes cycles. */
  predicate Active(l: Library, device: nat) {
    Present(l, device) && !l.devices[device].passive
  }

  /** Open cycles of a device. */
  function OpenOn(l: Library, device: nat): set<nat> {
    set id | id in l.open && l.open[id].device == device
  }

  /** What the interface asks of its caller: devices that were not closed, and cycles that are open and
      whose device was not closed under them. */
  predicate Possible(l: Library, step: Step) {
    match step
    case OpenDevice(t, _) => t.Ok()
    case Open(device, _) => Present(l, device)
    case Fill(id, _, _) => id in l.open && |l.open[id].requests| + 1 < NO_LIMIT
    case Close(id, _) => id in l.open && Present(l, l.open[id].device)
    case Abort(id) => id in l.open && Present(l, l.open[id].device)
    case FlushDevice(device, _) => Present(l, device) && !l.devices[device].passive
    case Reply(size, _, _) => size > 0
    case CheckTime(now) => now < WORD32
    case AskTimeout => true
    case CloseDevice(device) => Present(l, device)
  }

  function Unready(l: Library, device: nat, change: int): Library
    requires device < |l.devices|
  {
    var d := l.devices[device];
    l.(devices := l.devices[device := d.(unready := (d.unready + change) % 256)])
  }

  /** The status and what is shown when a ready cycle is killed with its device. */
  function Killed(device: nat, c: QueuedCycle): Done {
    Done(c.id, device, TIMEOUT, if c.dead then OwnIndex else Queued(c.requests))
  }

  function KilledAll(device: nat, cs: seq<QueuedCycle>): (ds: seq<Done>)
    ensures |ds| == |cs|
  {
    if |cs| == 0 then [] else [Killed(device, cs[0])] + KilledAll(device, cs[1..])
  }

  function SenderOf(l: Library): Sender {
    Sender([], [], [], l.queue, l.rba)
  }

  /** Closing a device that has no open cycle: its responses are killed, then its ready cycles in the
      order they were closed. */
  function KillDevice(l: Library, device: nat): Library
    requires device < |l.devices|
  {
    var d := l.devices[device];
    var gone := l.devices[device := d.(ready := [], passive := true, gone := true)];
    if d.passive then l.(devices := gone) else
      var killed := KillInflight(l.queue, device);
      l.(devices := gone, queue := killed.(log := killed.log + KilledAll(device, Reverse(d.ready))))
  }

  predicate LibraryOk(l: Library) {
    && QueueState(l.queue) && l.rba % 2 == 0 && 0x8000 <= l.rba < 0x1_0000 && l.clock < WORD32
    && (forall i | 0 <= i < |l.devices| :: l.devices[i].t.Ok() && Short(l.devices[i].ready) && l.devices[i].unready < 256)
    && (forall id | id in l.open :: l.open[id].device < |l.devices| && |l.open[id].requests| < NO_LIMIT)
  }

  predicate QueueState(q: Queue)
    ensures QueueState(q) <==> QueueOk(q)
  {
    AllOk(q.first) && AllOk(q.last)
  }

  /** One step of the library. */
  function Next(l: Library, step: Step): (l': Library)
    requires LibraryOk(l) && Possible(l, step)
    ensures LibraryOk(l')
  {
    hide Transport.Ok, WriteConfig, FlushCycles, KillInflight, Expire, Turned, KilledAll, Reverse, Fifo, QueueState;
    match step
    case OpenDevice(t, passive) =>
      l.(devices := l.devices + [Device(t, [], 0, passive, false)])
    case Open(device, oom) =>
      if oom || l.devices[device].passive then l
      else Unready(l, device, 1).(open := l.open[l.nextId := OpenCycle(device, [], false)], nextId := l.nextId + 1)
    case Fill(id, request, oom) =>
      var c := l.open[id];
      if oom then l.(open := l.open[id := c.(requests := [], dead := true)])
      else if c.dead then l
      else l.(open := l.open[id := c.(requests := [request] + c.requests)])
    case Close(id, checked) =>
      var c := l.open[id];
      var queued := QueuedCycle(id, Reverse(c.requests), c.dead, checked && |c.requests| > 0);
      var d := l.devices[c.device];
      Unready(l.(devices := l.devices[c.device := d.(ready := [queued] + d.ready)], open := l.open - {id}), c.device, -1)
    case Abort(id) =>
      Unready(l.(open := l.open - {id}, aborted := l.aborted + [id]), l.open[id].device, -1)
    case FlushDevice(device, noMemory) =>
      var d := l.devices[device];
      assert SenderOk(d.t, SenderOf(l));
      ShortReverse(d.ready);
      FlushQueueOk(d.t, device, l.clock, SenderOf(l), Reverse(d.ready), noMemory);
      var s := FlushCycles(d.t, device, l.clock, SenderOf(l), Reverse(d.ready), noMemory);
      l.(devices := l.devices[device := d.(ready := [])], queue := s.queue, rba := s.rba)
    case Reply(size, address, value) =>
      l.(queue := WriteConfig(l.queue, size, address, value))
    case CheckTime(now) =>
      ExpireOk(l.queue, l.clock, now);
      l.(queue := Expire(l.queue, l.clock, now), clock := now)
    case AskTimeout =>
      TurnedSame(l.queue);
      l.(queue := Turned(l.queue))
    case CloseDevice(device) =>
      KillOk(l.queue, device);
      if l.devices[device].unready != 0 then l else KillDevice(l, device)
  }

  lemma ExpireOk(q: Queue, clock: nat, now: nat)
    requires clock < WORD32 && QueueOk(q)
    ensures QueueOk(Expire(q, clock, now))
  {}

  lemma KillOk(q: Queue, device: nat)
    requires QueueOk(q)
    ensures QueueOk(KillInflight(q, device))
  {
    ReverseOk(q.last);
    SelectOk(Fifo(q), device);
  }

  lemma {:induction false} SelectOk(rs: seq<Response>, device: nat)
    requires AllOk(rs)
    ensures AllOk(Select(rs, device, false))
  {
    if |rs| > 0 {
      SelectOk(rs[1..], device);
    }
  }

  lemma {:induction false} FlushQueueOk(t: Transport, device: nat, time: nat, s: Sender, cs: seq<QueuedCycle>, oom: nat -> bool)
    requires t.Ok() && SenderOk(t, s) && |s.cur| == 0 && Short(cs) && QueueOk(s.queue)
    ensures QueueOk(FlushCycles(t, device, time, s, cs, oom).queue)
    decreases |cs|
  {
    hide FlushCycle, SentBy;
    if |cs| > 0 {
      var c := cs[0];
      var s1 := FlushCycle(t, device, time, s, c, oom(c.id));
      FlushCycleCorrect(t, device, time, s, c, oom(c.id));
      FateOk(t, device, time, s, s1, c, oom(c.id));
      FlushQueueOk(t, device, time, s1, cs[1..], oom);
    }
  }

  lemma FateOk(t: Transport, device: nat, time: nat, s: Sender, out: Sender, c: QueuedCycle, oom: bool)
    requires t.Ok() && |c.requests| < NO_LIMIT && s.rba % 2 == 0 && s.rba < 0x1_0000 && FateOf(t, device, time, s, out, c, oom)
    requires QueueOk(s.queue)
    ensures QueueOk(out.queue)
  {
    hide NewResponse, Accepts, NeedsReply, FlushStatus;
  }

  // Where a cycle is, counted.

  function InCycles(cs: seq<QueuedCycle>, id: nat): nat {
    if |cs| == 0 then 0 else (if cs[0].id == id then 1 else 0) + InCycles(cs[1..], id)
  }

  function InResponses(rs: seq<Response>, id: nat): nat {
    if |rs| == 0 then 0 else (if rs[0].cycle.id == id then 1 else 0) + InResponses(rs[1..], id)
  }

  /** How often the callback of a cycle has run. */
  function Called(ds: seq<Done>, id: nat): nat {
    if |ds| == 0 then 0 else (if ds[0].id == id then 1 else 0) + Called(ds[1..], id)
  }

  function InReady(devices: seq<Device>, id: nat): nat {
    if |devices| == 0 then 0 else InCycles(devices[0].ready, id) + InReady(devices[1..], id)
  }

  function InAborted(ids: seq<nat>, id: nat): nat {
    if |ids| == 0 then 0 else (if ids[0] == id then 1 else 0) + InAborted(ids[1..], id)
  }

  /** In flight or called back. */
  function InQueue(q: Queue, id: nat): nat {
    InResponses(Fifo(q), id) + Called(q.log, id)
  }

  /** In how many places the cycle is: open, aborted, ready on some device, in flight, called back. */
  function Places(l: Library, id: nat): nat {
    (if id in l.open then 1 else 0) + InAborted(l.aborted, id) + InReady(l.devices, id) + InQueue(l.queue, id)
  }

  lemma {:induction false} InCyclesConcat(a: seq<QueuedCycle>, b: seq<QueuedCycle>, id: nat)
    ensures InCycles(a + b, id) == InCycles(a, id) + InCycles(b, id)
  {
    if |a| == 0 {
      assert a + b == b;
    } else {
      InCyclesConcat(a[1..], b, id);
      assert (a + b)[1..] == a[1..] + b;
    }
  }

  lemma {:induction false} InResponsesConcat(a: seq<Response>, b: seq<Response>, id: nat)
    ensures InResponses(a + b, id) == InResponses(a, id) + InResponses(b, id)
  {
    if |a| == 0 {
      assert a + b == b;
    } else {
      InResponsesConcat(a[1..], b, id);
      assert (a + b)[1..] == a[1..] + b;
    }
  }

  lemma {:induction false} CalledConcat(a: seq<Done>, b: seq<Done>, id: nat)
    ensures Called(a + b, id) == Called(a, id) + Called(b, id)
  {
    if |a| == 0 {
      assert a + b == b;
    } else {
      CalledConcat(a[1..], b, id);
      assert (a + b)[1..] == a[1..] + b;
    }
  }

  lemma {:induction false} InAbortedSnoc(ids: seq<nat>, x: nat, id: nat)
    ensures InAborted(ids + [x], id) == InAborted(ids, id) + if x == id then 1 else 0
  {
    if |ids| > 0 {
      InAbortedSnoc(ids[1..], x, id);
      assert (ids + [x])[1..] == ids[1..] + [x];
    }
  }

  lemma One(c: QueuedCycle, r: Response, d: Done, id: nat)
    ensures InCycles([c], id) == (if c.id == id then 1 else 0)
    ensures InResponses([r], id) == (if r.cycle.id == id then 1 else 0)
    ensures Called([d], id) == (if d.id == id then 1 else 0)
  {
    assert [c][1..] == [] && [r][1..] == [] && [d][1..] == [];
  }

  lemma {:induction false} InCyclesReverse(cs: seq<QueuedCycle>, id: nat)
    ensures InCycles(Reverse(cs), id) == InCycles(cs, id)
  {
    if |cs| > 0 {
      InCyclesReverse(cs[1..], id);
      InCyclesConcat(Reverse(cs[1..]), [cs[0]], id);
      assert [cs[0]][1..] == [];
    }
  }

  lemma {:induction false} KilledCalled(device: nat, cs: seq<QueuedCycle>, id: nat)
    ensures Called(KilledAll(device, cs), id) == InCycles(cs, id)
  {
    if |cs| > 0 {
      KilledCalled(device, cs[1..], id);
      assert KilledAll(device, cs)[1..] == KilledAll(device, cs[1..]);
    }
  }

  lemma {:induction false} TimeoutsCalled(rs: seq<Response>, id: nat)
    ensures Called(Timeouts(rs), id) == InResponses(rs, id)
  {
    if |rs| > 0 {
      TimeoutsCalled(rs[1..], id);
      assert Timeouts(rs)[1..] == Timeouts(rs[1..]);
    }
  }

  lemma {:induction false} SelectSplits(rs: seq<Response>, device: nat, id: nat)
    ensures InResponses(Select(rs, device, true), id) + InResponses(Select(rs, device, false), id) == InResponses(rs, id)
  {
    if |rs| > 0 {
      SelectSplits(rs[1..], device, id);
      var mine := rs[0].cycle.device == device;
      assert ([rs[0]] + Select(rs[1..], device, mine))[1..] == Select(rs[1..], device, mine);
    }
  }

  lemma {:induction false} InReadyUpdate(devices: seq<Device>, i: nat, d: Device, id: nat)
    requires i < |devices|
    ensures InReady(devices[i := d], id) + InCycles(devices[i].ready, id) == InReady(devices, id) + InCycles(d.ready, id)
  {
    if i == 0 {
      assert devices[0 := d][1..] == devices[1..];
    } else {
      InReadyUpdate(devices[1..], i - 1, d, id);
      assert devices[i := d][1..] == devices[1..][i - 1 := d];
    }
  }

  lemma {:induction false} InReadyAppend(devices: seq<Device>, d: Device, id: nat)
    ensures InReady(devices + [d], id) == InReady(devices, id) + InCycles(d.ready, id)
  {
    if |devices| == 0 {
      assert (devices + [d])[1..] == [];
    } else {
      InReadyAppend(devices[1..], d, id);
      assert (devices + [d])[1..] == devices[1..] + [d];
    }
  }

  /** A reply word moves at most one cycle, from the queue to the callbacks. */
  lemma AnswerConserves(rs: seq<Response>, size: nat, address: nat, value: nat, id: nat)
    requires AllOk(rs)
    ensures var out := AnswerList(rs, size, address, value);
            InResponses(out.0, id) + Called(out.1, id) == InResponses(rs, id)
  {
    hide Find, ReturnAddress, AssignErrors, CountBus, FindRead, FindBus, HasError;
    var i := Find(rs, ReturnAddress(address));
    if i < |rs| {
      var a := Answer(rs[i], size, address, value);
      Around(rs, i, a.0, id);
      One(QueuedCycle(0, [], false, false), a.0, DoneBy(a.0, a.1), id);
    }
  }

  lemma {:induction false} Around(rs: seq<Response>, i: nat, r: Response, id: nat)
    requires i < |rs| && r.cycle.id == rs[i].cycle.id
    ensures InResponses(rs[i := r], id) == InResponses(rs, id)
    ensures InResponses(rs[..i] + rs[i + 1..], id) + (if r.cycle.id == id then 1 else 0) == InResponses(rs, id)
    decreases i
  {
    if i > 0 {
      Around(rs[1..], i - 1, r, id);
      assert rs[i := r][1..] == rs[1..][i - 1 := r];
      assert (rs[..i] + rs[i + 1..])[1..] == rs[1..][..i - 1] + rs[1..][i..];
    } else {
      assert rs[..0] + rs[1..] == rs[1..] && rs[0 := r][1..] == rs[1..];
    }
  }

  lemma WriteConserves(q: Queue, size: nat, address: nat, value: nat, id: nat)
    requires QueueOk(q)
    ensures InQueue(WriteConfig(q, size, address, value), id) == InQueue(q, id)
  {
    hide WriteConfig, AnswerList;
    WriteConfigRefines(q, size, address, value);
    AnswerConserves(Fifo(q), size, address, value, id);
    CalledConcat(q.log, AnswerList(Fifo(q), size, address, value).1, id);
  }

  lemma KillConserves(q: Queue, device: nat, id: nat)
    ensures InQueue(KillInflight(q, device), id) == InQueue(q, id)
  {
    var rs := Fifo(q);
    SelectSplits(rs, device, id);
    TimeoutsCalled(Select(rs, device, true), id);
    CalledConcat(q.log, Timeouts(Select(rs, device, true)), id);
    var q' := KillInflight(q, device);
    assert Reverse(q'.last) == [] && q'.first + [] == q'.first;
  }

  lemma ExpireConserves(q: Queue, clock: nat, now: nat, id: nat)
    requires clock < WORD32
    ensures InQueue(Expire(q, clock, now), id) == InQueue(q, id)
  {
    hide ExpiredCount, Timeouts;
    var n := ExpiredCount(q.first, clock, now);
    TimeoutsCalled(q.first[..n], id);
    CalledConcat(q.log, Timeouts(q.first[..n]), id);
    assert q.first == q.first[..n] + q.first[n..];
    InResponsesConcat(q.first[..n], q.first[n..], id);
    InResponsesConcat(q.first[n..], Reverse(q.last), id);
    InResponsesConcat(q.first, Reverse(q.last), id);
  }

  lemma TurnConserves(q: Queue, id: nat)
    ensures InQueue(Turned(q), id) == InQueue(q, id)
  {
    TurnedSame(q);
  }

  /** A flush moves every ready cycle to the queue or calls it back. */
  lemma {:induction false} FlushConserves(t: Transport, device: nat, time: nat, s: Sender, cs: seq<QueuedCycle>, oom: nat -> bool, id: nat)
    requires t.Ok() && SenderOk(t, s) && |s.cur| == 0 && Short(cs)
    ensures InQueue(FlushCycles(t, device, time, s, cs, oom).queue, id) == InQueue(s.queue, id) + InCycles(cs, id)
    decreases |cs|
  {
    hide FlushCycle, SentBy, InQueue;
    if |cs| > 0 {
      var c := cs[0];
      var s1 := FlushCycle(t, device, time, s, c, oom(c.id));
      FlushCycleCorrect(t, device, time, s, c, oom(c.id));
      FateConserves(t, device, time, s, s1, c, oom(c.id), id);
      FlushConserves(t, device, time, s1, cs[1..], oom, id);
    }
  }

  lemma FateConserves(t: Transport, device: nat, time: nat, s: Sender, out: Sender, c: QueuedCycle, oom: bool, id: nat)
    requires t.Ok() && |c.requests| < NO_LIMIT && s.rba % 2 == 0 && s.rba < 0x1_0000 && FateOf(t, device, time, s, out, c, oom)
    ensures InQueue(out.queue, id) == InQueue(s.queue, id) + if c.id == id then 1 else 0
  {
    hide NewResponse, Accepts, NeedsReply, FlushStatus;
    if Accepts(t, s.rba, c, oom) && NeedsReply(CycleOf(t, c), c.checked) {
      var cycle := Cycle(c.id, device, CycleOf(t, c));
      var r := NewResponse(cycle, s.rba, Deadline(time), c.checked);
      EnqueueIsLast(s.queue, r);
      InResponsesConcat(Fifo(s.queue), [r], id);
      ResponseCycle(cycle, s.rba, Deadline(time), c.checked);
      One(c, r, Done(0, 0, OK, NoOperations), id);
    } else {
      var view :| CallsBack(s.queue, out.queue, Done(c.id, device, FlushStatus(t, s.rba, c, oom), view));
      var d := Done(c.id, device, FlushStatus(t, s.rba, c, oom), view);
      CalledConcat(s.queue.log, [d], id);
      assert [d][1..] == [];
    }
  }

  lemma ResponseCycle(cycle: Cycle, address: nat, deadline: nat, checked: bool)
    ensures NewResponse(cycle, address, deadline, checked).cycle == cycle
  {}

  /** The 8-bit counters count, modulo 256. */
  ghost predicate CountersExact(l: Library) {
    forall i | 0 <= i < |l.devices| :: l.devices[i].unready == |OpenOn(l, i)| % 256
  }

  predicate Gone(l: Library, device: nat) {
    device < |l.devices| && l.devices[device].gone
  }

  /** Ready cycles and responses belong to devices that take cycles; an open cycle does, unless its device
      was closed under it. */
  ghost predicate NoStrays(l: Library) {
    && (forall i | 0 <= i < |l.devices| && (l.devices[i].gone || l.devices[i].passive) :: l.devices[i].ready == [])
    && (forall id | id in l.open :: Active(l, l.open[id].device) || Gone(l, l.open[id].device))
    && (forall i | 0 <= i < |Fifo(l.queue)| :: Active(l, Fifo(l.queue)[i].cycle.device))
  }

  ghost predicate OnePlaceEach(l: Library) {
    forall id: nat :: Places(l, id) == if id < l.nextId then 1 else 0
  }

  /** What holds between any two steps. */
  ghost predicate Invariant(l: Library) {
    LibraryOk(l) && CountersExact(l) && NoStrays(l) && OnePlaceEach(l)
  }

  /** Each step keeps every cycle in exactly one place; only a successful open makes a new one. */
  lemma PlacesKept(l: Library, step: Step, id: nat)
    requires LibraryOk(l) && NoStrays(l) && Possible(l, step) && l.nextId !in l.open
    ensures Places(Next(l, step), id) == Places(l, id) + if Next(l, step).nextId > l.nextId && id == l.nextId then 1 else 0
  {
    hide KillInflight, Expire, Turned, WriteConfig, FlushCycles, InQueue, Transport.Ok, InReady, InAborted, Short;
    match step
    case FlushDevice(device, noMemory) =>
      FlushKept(l, device, noMemory, id);
    case Close(c, checked) =>
      CloseKept(l, c, checked, id);
    case CloseDevice(device) =>
      CloseDeviceKept(l, device, id);
    case Reply(size, address, value) =>
      WriteConserves(l.queue, size, address, value, id);
    case CheckTime(now) =>
      ExpireConserves(l.queue, l.clock, now, id);
    case AskTimeout =>
      TurnConserves(l.queue, id);
    case _ =>
      OpeningKept(l, step, id);
  }

  /** Steps that touch neither the queue nor what is ready. */
  lemma OpeningKept(l: Library, step: Step, id: nat)
    requires LibraryOk(l) && Possible(l, step) && l.nextId !in l.open
    requires step.OpenDevice? || step.Open? || step.Fill? || step.Abort?
    ensures Places(Next(l, step), id) == Places(l, id) + if Next(l, step).nextId > l.nextId && id == l.nextId then 1 else 0
  {
    hide InQueue, Transport.Ok, InReady, InAborted, LibraryOk;
    match step
    case OpenDevice(t, passive) =>
      InReadyAppend(l.devices, Device(t, [], 0, passive, false), id);
    case Open(device, oom) =>
      InReadyUpdate(l.devices, device, l.devices[device].(unready := (l.devices[device].unready + 1) % 256), id);
    case Abort(c) =>
      InAbortedSnoc(l.aborted, c, id);
      var d := l.devices[l.open[c].device];
      InReadyUpdate(l.devices, l.open[c].device, d.(unready := (d.unready - 1) % 256), id);
    case _ =>
  }

  lemma FlushKept(l: Library, device: nat, noMemory: nat -> bool, id: nat)
    requires LibraryOk(l) && Possible(l, FlushDevice(device, noMemory))
    ensures Places(Next(l, FlushDevice(device, noMemory)), id) == Places(l, id)
  {
    hide FlushCycles, InQueue, Transport.Ok, InReady, InAborted;
    var d := l.devices[device];
    ShortReverse(d.ready);
    FlushConserves(d.t, device, l.clock, SenderOf(l), Reverse(d.ready), noMemory, id);
    InCyclesReverse(d.ready, id);
    InReadyUpdate(l.devices, device, d.(ready := []), id);
  }

  lemma CloseKept(l: Library, c: nat, checked: bool, id: nat)
    requires LibraryOk(l) && Possible(l, Close(c, checked))
    ensures Places(Next(l, Close(c, checked)), id) == Places(l, id)
  {
    hide Transport.Ok, InQueue, InReady, InAborted;
    var device, o := l.open[c].device, l.open[c];
    var d := l.devices[device];
    var queued := QueuedCycle(c, Reverse(o.requests), o.dead, checked && |o.requests| > 0);
    var d' := d.(ready := [queued] + d.ready, unready := (d.unready - 1) % 256);
    InReadyUpdate(l.devices, device, d', id);
    InCyclesConcat([queued], d.ready, id);
    assert [queued][1..] == [];
    assert l.devices[device := d.(ready := [queued] + d.ready)][device := d'] == l.devices[device := d'];
  }

  lemma CloseDeviceKept(l: Library, device: nat, id: nat)
    requires LibraryOk(l) && Possible(l, CloseDevice(device))
    requires l.devices[device].passive ==> l.devices[device].ready == []
    ensures Places(Next(l, CloseDevice(device)), id) == Places(l, id)
  {
    hide Transport.Ok, KillInflight, InReady, InAborted;
    var d := l.devices[device];
    InReadyUpdate(l.devices, device, d.(ready := [], passive := true, gone := true), id);
    KillConserves(l.queue, device, id);
    CalledConcat(KillInflight(l.queue, device).log, KilledAll(device, Reverse(d.ready)), id);
    KilledCalled(device, Reverse(d.ready), id);
    InCyclesReverse(d.ready, id);
  }

  /** An id that was never handed out is nowhere. */
  lemma NextIdUnused(l: Library)
    requires OnePlaceEach(l)
    ensures l.nextId !in l.open
  {
    assert Places(l, l.nextId) == 0;
  }

  lemma OnePlaceKept(l: Library, step: Step)
    requires Invariant(l) && Possible(l, step)
    ensures OnePlaceEach(Next(l, step))
  {
    hide Places, Next, NoStrays, LibraryOk, CountersExact;
    NextIdUnused(l);
    NextIdGrows(l, step);
    forall id: nat ensures Places(Next(l, step), id) == if id < Next(l, step).nextId then 1 else 0 {
      PlacesKept(l, step, id);
    }
  }

  lemma NextIdGrows(l: Library, step: Step)
    requires LibraryOk(l) && Possible(l, step)
    ensures l.nextId <= Next(l, step).nextId <= l.nextId + 1
  {
    hide KillInflight, Expire, Turned, WriteConfig, FlushCycles, Transport.Ok;
  }

  // Open cycles and the counters.

  /** Opening, closing and aborting change the open cycles of one device by one; nothing else does. */
  lemma OpenKept(l: Library, step: Step)
    requires LibraryOk(l) && CountersExact(l) && l.nextId !in l.open && Possible(l, step)
    ensures CountersExact(Next(l, step))
  {
    hide *;
    match step
    case OpenDevice(_, _) => NewCounted(l, step);
    case Open(_, _) => OpenCounted(l, step);
    case Close(_, _) => CloseCounted(l, step);
    case Abort(_) => CloseCounted(l, step);
    case _ => OthersCounted(l, step);
  }

  lemma NewCounted(l: Library, step: Step)
    requires LibraryOk(l) && CountersExact(l) && Possible(l, step) && step.OpenDevice?
    ensures CountersExact(Next(l, step))
  {
    hide Transport.Ok, Short, OpenOn, CountersExact, QueueState;
    CountedNew(l, Next(l, step));
  }

  lemma OpenCounted(l: Library, step: Step)
    requires LibraryOk(l) && CountersExact(l) && l.nextId !in l.open && Possible(l, step) && step.Open?
    ensures CountersExact(Next(l, step))
  {
    hide Transport.Ok, Short, OpenOn, CountersExact, QueueState;
    if Next(l, step) != l {
      CountedUp(l, Next(l, step), l.nextId, step.device);
    }
  }

  lemma CloseCounted(l: Library, step: Step)
    requires LibraryOk(l) && CountersExact(l) && Possible(l, step) && (step.Close? || step.Abort?)
    ensures CountersExact(Next(l, step))
  {
    hide Transport.Ok, Short, OpenOn, CountersExact, QueueState, Reverse;
    CountedDown(l, Next(l, step), step.id);
  }

  lemma OthersCounted(l: Library, step: Step)
    requires LibraryOk(l) && CountersExact(l) && Possible(l, step)
    requires step.Fill? || step.FlushDevice? || step.Reply? || step.CheckTime? || step.AskTimeout? || step.CloseDevice?
    ensures CountersExact(Next(l, step))
  {
    hide KillInflight, Expire, Turned, WriteConfig, FlushCycles, Transport.Ok, Short, Reverse, KilledAll, OpenOn, CountersExact, QueueState;
    CountedSame(l, Next(l, step));
  }

  /** The devices' counters other than that of `device` are the same. */
  predicate SameCounters(l: Library, l': Library, device: int) {
    |l'.devices| == |l.devices|
    && forall i | 0 <= i < |l.devices| && i != device :: l'.devices[i].unready == l.devices[i].unready
  }

  lemma CountedNew(l: Library, l': Library)
    requires CountersExact(l) && l'.open == l.open && (forall id | id in l.open :: l.open[id].device < |l.devices|)
    requires exists d :: l'.devices == l.devices + [d] && d.unready == 0
    ensures CountersExact(l')
  {
    assert OpenOn(l', |l.devices|) == {};
    forall i | 0 <= i < |l.devices| ensures OpenOn(l', i) == OpenOn(l, i) {}
  }

  lemma CountedSame(l: Library, l': Library)
    requires CountersExact(l) && SameCounters(l, l', -1)
    requires l'.open.Keys == l.open.Keys && forall id | id in l.open :: l'.open[id].device == l.open[id].device
    ensures CountersExact(l')
  {
    forall i: nat ensures OpenOn(l', i) == OpenOn(l, i) {}
  }

  lemma CountedUp(l: Library, l': Library, id: nat, device: nat)
    requires CountersExact(l) && SameCounters(l, l', device) && device < |l.devices|
    requires l'.devices[device].unready == (l.devices[device].unready + 1) % 256
    requires id !in l.open && id in l'.open && l'.open[id].device == device
    requires forall k | k in l.open :: k in l'.open && l'.open[k] == l.open[k]
    requires forall k | k in l'.open && k != id :: k in l.open
    ensures CountersExact(l')
  {
    OpenAdds(l, l', id, device);
    CountOne(|OpenOn(l, device)|);
    hide OpenOn;
  }

  lemma CountedDown(l: Library, l': Library, id: nat)
    requires CountersExact(l) && id in l.open && l.open[id].device < |l.devices| && SameCounters(l, l', l.open[id].device)
    requires l'.devices[l.open[id].device].unready == (l.devices[l.open[id].device].unready - 1) % 256
    requires l'.open == l.open - {id}
    ensures CountersExact(l')
  {
    OpenRemoves(l, l', id);
    CountLess(|OpenOn(l, l.open[id].device)|);
    hide OpenOn;
  }

  lemma CountOne(n: nat)
    ensures (n % 256 + 1) % 256 == (n + 1) % 256
  {}

  lemma CountLess(n: nat)
    ensures (n % 256 - 1) % 256 == (n - 1) % 256
  {}

  lemma OpenAdds(l: Library, l': Library, id: nat, device: nat)
    requires id !in l.open && id in l'.open && l'.open[id].device == device
    requires forall k | k in l.open :: k in l'.open && l'.open[k] == l.open[k]
    requires forall k | k in l'.open && k != id :: k in l.open
    ensures |OpenOn(l', device)| == |OpenOn(l, device)| + 1
    ensures forall i: nat | i != device :: OpenOn(l', i) == OpenOn(l, i)
  {
    assert OpenOn(l', device) == OpenOn(l, device) + {id};
  }

  lemma OpenRemoves(l: Library, l': Library, id: nat)
    requires id in l.open && l'.open == l.open - {id}
    ensures |OpenOn(l', l.open[id].device)| == |OpenOn(l, l.open[id].device)| - 1
    ensures forall i: nat | i != l.open[id].device :: OpenOn(l', i) == OpenOn(l, i)
  {
    assert OpenOn(l, l.open[id].device) == OpenOn(l', l.open[id].device) + {id};
  }

  // Whose responses are in the queue.

  predicate Owned(rs: seq<Response>, devices: set<nat>) {
    forall i | 0 <= i < |rs| :: ResponseOk(rs[i]) && rs[i].cycle.device in devices
  }

  lemma {:induction false} SelectOwned(rs: seq<Response>, device: nat, devices: set<nat>)
    requires Owned(rs, devices)
    ensures Owned(Select(rs, device, false), devices - {device})
  {
    if |rs| > 0 {
      SelectOwned(rs[1..], device, devices);
    }
  }

  lemma AnswerOwned(rs: seq<Response>, size: nat, address: nat, value: nat, devices: set<nat>)
    requires Owned(rs, devices)
    ensures Owned(AnswerList(rs, size, address, value).0, devices)
  {
    hide Find, ReturnAddress, AssignErrors, CountBus, FindRead, FindBus, HasError;
  }

  lemma QueueOwned(q: Queue, devices: set<nat>)
    requires QueueOk(q)
    ensures AllOk(Fifo(q))
    ensures (forall i | 0 <= i < |Fifo(q)| :: Fifo(q)[i].cycle.device in devices) <==> Owned(Fifo(q), devices)
  {
    ReverseOk(q.last);
  }

  lemma {:induction false} FlushOwned(t: Transport, device: nat, time: nat, s: Sender, cs: seq<QueuedCycle>, oom: nat -> bool, devices: set<nat>)
    requires t.Ok() && SenderOk(t, s) && |s.cur| == 0 && Short(cs)
    requires QueueOk(s.queue) && Owned(Fifo(s.queue), devices) && device in devices
    ensures var q := FlushCycles(t, device, time, s, cs, oom).queue; QueueOk(q) && Owned(Fifo(q), devices)
    decreases |cs|
  {
    hide FlushCycle, SentBy, Fifo;
    if |cs| > 0 {
      var c := cs[0];
      var s1 := FlushCycle(t, device, time, s, c, oom(c.id));
      FlushCycleCorrect(t, device, time, s, c, oom(c.id));
      FateOwned(t, device, time, s, s1, c, oom(c.id), devices);
      FlushOwned(t, device, time, s1, cs[1..], oom, devices);
    }
  }

  lemma FateOwned(t: Transport, device: nat, time: nat, s: Sender, out: Sender, c: QueuedCycle, oom: bool, devices: set<nat>)
    requires t.Ok() && |c.requests| < NO_LIMIT && s.rba % 2 == 0 && s.rba < 0x1_0000 && FateOf(t, device, time, s, out, c, oom)
    requires QueueOk(s.queue) && Owned(Fifo(s.queue), devices) && device in devices
    ensures QueueOk(out.queue) && Owned(Fifo(out.queue), devices)
  {
    hide NewResponse, Accepts, NeedsReply, FlushStatus;
    if Accepts(t, s.rba, c, oom) && NeedsReply(CycleOf(t, c), c.checked) {
      var cycle := Cycle(c.id, device, CycleOf(t, c));
      var r := NewResponse(cycle, s.rba, Deadline(time), c.checked);
      EnqueueIsLast(s.queue, r);
      ResponseCycle(cycle, s.rba, Deadline(time), c.checked);
    }
  }

  function ActiveSet(l: Library): set<nat> {
    set i: nat | i < |l.devices| && Active(l, i)
  }

  /** The device a step closes, if it does. */
  function Closing(l: Library, step: Step): set<nat>
    requires Possible(l, step)
  {
    if step.CloseDevice? && l.devices[step.device].unready == 0 then {step.device} else {}
  }

  lemma ActiveKept(l: Library, step: Step)
    requires LibraryOk(l) && Possible(l, step)
    ensures ActiveSet(l) - Closing(l, step) <= ActiveSet(Next(l, step))
  {
    hide Transport.Ok, WriteConfig, FlushCycles, KillInflight, Expire, Turned, KilledAll, Reverse, Short, QueueState;
  }

  lemma QueueKept(l: Library, step: Step)
    requires Invariant(l) && Possible(l, step)
    ensures QueueOk(Next(l, step).queue) && Owned(Fifo(Next(l, step).queue), ActiveSet(Next(l, step)))
  {
    QueueOwned(l.queue, ActiveSet(l));
    assert Owned(Fifo(l.queue), ActiveSet(l));
    hide Transport.Ok, OnePlaceEach, Fifo, AnswerList, WriteConfig, Reverse, FlushCycles, CountersExact, NoStrays;
    hide KillInflight, Expire, Turned, KilledAll, Short, ActiveSet, Owned;
    ActiveKept(l, step);
    QueueStepOwned(l, step, ActiveSet(l));
    OwnedMore(Fifo(Next(l, step).queue), ActiveSet(l) - Closing(l, step), ActiveSet(Next(l, step)));
  }

  lemma OwnedMore(rs: seq<Response>, some: set<nat>, more: set<nat>)
    requires Owned(rs, some) && some <= more
    ensures Owned(rs, more)
  {}

  lemma QueueStepOwned(l: Library, step: Step, devices: set<nat>)
    requires LibraryOk(l) && Possible(l, step) && QueueOk(l.queue) && Owned(Fifo(l.queue), devices)
    requires step.FlushDevice? ==> step.device in devices
    requires step.CloseDevice? && l.devices[step.device].passive ==> step.device !in devices
    ensures QueueOk(Next(l, step).queue) && Owned(Fifo(Next(l, step).queue), devices - Closing(l, step))
  {
    hide Transport.Ok, Fifo, AnswerList, WriteConfig, Reverse, FlushCycles, KillInflight, Expire, Turned, KilledAll, Short, Owned;
    match step
    case FlushDevice(device, noMemory) =>
      var d := l.devices[device];
      ShortReverse(d.ready);
      FlushOwned(d.t, device, l.clock, SenderOf(l), Reverse(d.ready), noMemory, devices);
      assert devices - {} == devices;
    case Reply(size, address, value) =>
      WriteConfigRefines(l.queue, size, address, value);
      AnswerOwned(Fifo(l.queue), size, address, value, devices);
      assert devices - {} == devices;
    case CheckTime(now) =>
      ExpireOwned(l.queue, l.clock, now, devices);
      assert devices - {} == devices;
    case AskTimeout =>
      TurnedSame(l.queue);
      assert devices - {} == devices;
    case CloseDevice(device) =>
      KillOwned(l.queue, device, devices);
      LogOnly(KillInflight(l.queue, device), KilledAll(device, Reverse(l.devices[device].ready)));
      assert devices - {} == devices;
      assert device !in devices ==> devices - {device} == devices;
    case _ =>
      assert devices - {} == devices;
  }

  lemma LogOnly(q: Queue, more: seq<Done>)
    ensures Fifo(q.(log := q.log + more)) == Fifo(q)
  {}

  lemma ExpireOwned(q: Queue, clock: nat, now: nat, devices: set<nat>)
    requires clock < WORD32 && QueueOk(q) && Owned(Fifo(q), devices)
    ensures QueueOk(Expire(q, clock, now)) && Owned(Fifo(Expire(q, clock, now)), devices)
  {
    var n := ExpiredCount(q.first, clock, now);
    var q' := Expire(q, clock, now);
    assert Fifo(q') == Fifo(q)[n..];
  }

  lemma KillOwned(q: Queue, device: nat, devices: set<nat>)
    requires QueueOk(q) && Owned(Fifo(q), devices)
    ensures QueueOk(KillInflight(q, device)) && Owned(Fifo(KillInflight(q, device)), devices - {device})
  {
    SelectOwned(Fifo(q), device, devices);
    var q' := KillInflight(q, device);
    assert Reverse(q'.last) == [] && Fifo(q') == q'.first;
  }

  lemma NoStraysKept(l: Library, step: Step)
    requires Invariant(l) && Possible(l, step)
    ensures NoStrays(Next(l, step))
  {
    hide Transport.Ok, OnePlaceEach, Fifo, WriteConfig, FlushCycles, KillInflight, Expire, Turned, Owned, KilledAll, Short, Reverse, OpenOn, CountersExact;
    QueueKept(l, step);
    QueueOwned(Next(l, step).queue, ActiveSet(Next(l, step)));
    OpenStays(l, step);
    ReadyStays(l, step);
    hide Next, LibraryOk;
  }

  ghost predicate OpenPlaced(l: Library) {
    forall id | id in l.open :: Active(l, l.open[id].device) || Gone(l, l.open[id].device)
  }

  ghost predicate IdleReady(l: Library) {
    forall i | 0 <= i < |l.devices| && (l.devices[i].gone || l.devices[i].passive) :: l.devices[i].ready == []
  }

  lemma OpenStays(l: Library, step: Step)
    requires LibraryOk(l) && OpenPlaced(l) && Possible(l, step)
    ensures OpenPlaced(Next(l, step))
  {
    hide Next, LibraryOk;
    DevicesStay(l, step);
    forall id | id in Next(l, step).open
      ensures Active(Next(l, step), Next(l, step).open[id].device) || Gone(Next(l, step), Next(l, step).open[id].device)
    {
      WhereFrom(l, step, id);
    }
  }

  lemma ReadyStays(l: Library, step: Step)
    requires LibraryOk(l) && OpenPlaced(l) && IdleReady(l) && Possible(l, step)
    ensures IdleReady(Next(l, step))
  {
    hide Transport.Ok, WriteConfig, FlushCycles, KillInflight, Expire, Turned, KilledAll, Short, Reverse, QueueState;
  }

  /** Every step keeps the invariant. */
  lemma InvariantKept(l: Library, step: Step)
    requires Invariant(l) && Possible(l, step)
    ensures Invariant(Next(l, step))
  {
    NextIdUnused(l);
    NoStraysKept(l, step);
    OpenKept(l, step);
    OnePlaceKept(l, step);
    hide Next, LibraryOk, NoStrays, OnePlaceEach, Possible;
  }

  /** A run of the library. */
  predicate Runs(l: Library, steps: seq<Step>)
    requires LibraryOk(l)
    decreases |steps|
  {
    |steps| == 0 || (Possible(l, steps[0]) && Runs(Next(l, steps[0]), steps[1..]))
  }

  function After(l: Library, steps: seq<Step>): (l': Library)
    requires LibraryOk(l) && Runs(l, steps)
    ensures LibraryOk(l')
    decreases |steps|
  {
    if |steps| == 0 then l else After(Next(l, steps[0]), steps[1..])
  }

  lemma {:induction false} RunsKeep(l: Library, steps: seq<Step>)
    requires Invariant(l) && Runs(l, steps)
    ensures Invariant(After(l, steps))
    decreases |steps|
  {
    hide Next, Possible, NoStrays, OnePlaceEach, CountersExact;
    if |steps| > 0 {
      InvariantKept(l, steps[0]);
      RunsKeep(Next(l, steps[0]), steps[1..]);
    }
  }

  lemma InitialInvariant()
    ensures Invariant(INITIAL)
  {
    forall id: nat ensures Places(INITIAL, id) == 0 {
      assert Fifo(INITIAL.queue) == [];
    }
  }

  // The contract of the interface.

  /** A cycle that was closed: handed out, no longer open, not discarded. */
  predicate Closed(l: Library, id: nat) {
    id < l.nextId && id !in l.open && InAborted(l.aborted, id) == 0
  }

  /** Over every run: a closed cycle is ready, in flight or called back, and exactly one of these, once;
      no other cycle is ever called back. */
  lemma ExactlyOnce(steps: seq<Step>, id: nat)
    requires Runs(INITIAL, steps)
    ensures var l := After(INITIAL, steps);
            && (Closed(l, id) ==> InReady(l.devices, id) + InResponses(Fifo(l.queue), id) + Called(l.queue.log, id) == 1)
            && (!Closed(l, id) ==> InReady(l.devices, id) + InResponses(Fifo(l.queue), id) + Called(l.queue.log, id) == 0)
            && InAborted(l.aborted, id) <= 1
  {
    InitialInvariant();
    RunsKeep(INITIAL, steps);
    var l := After(INITIAL, steps);
    hide After, Runs, LibraryOk, NoStrays, InReady, InResponses, Called, InAborted;
    assert Places(l, id) == if id < l.nextId then 1 else 0;
  }

  /** The step closes a device that has open cycles. */
  predicate Careless(l: Library, step: Step)
    requires LibraryOk(l) && Possible(l, step)
  {
    step.CloseDevice? && l.devices[step.device].unready == 0 && OpenOn(l, step.device) != {}
  }

  /** No step of the run closes a device that has open cycles. */
  predicate Careful(l: Library, steps: seq<Step>)
    requires LibraryOk(l) && Runs(l, steps)
    decreases |steps|
  {
    |steps| == 0 || (!Careless(l, steps[0]) && Careful(Next(l, steps[0]), steps[1..]))
  }

  /** Every open cycle still has its device, so that it can be closed or aborted. */
  ghost predicate OpenActive(l: Library) {
    forall id | id in l.open :: Active(l, l.open[id].device)
  }

  lemma StrandedStep(l: Library, step: Step)
    requires LibraryOk(l) && OpenPlaced(l) && l.nextId !in l.open && Possible(l, step)
    ensures OpenActive(Next(l, step)) <==> OpenActive(l) && !Careless(l, step)
  {
    hide Transport.Ok, WriteConfig, FlushCycles, KillInflight, Expire, Turned, KilledAll, Short, Reverse, QueueState, LibraryOk;
    var l' := Next(l, step);
    if !OpenActive(l) {
      var id :| id in l.open && !Active(l, l.open[id].device);
      GoneStays(l, step, id);
    } else if Careless(l, step) {
      var id :| id in OpenOn(l, step.device);
      assert id in l'.open && !Active(l', l'.open[id].device);
    } else {
      ActiveStays(l, step);
    }
  }

  lemma ActiveStays(l: Library, step: Step)
    requires LibraryOk(l) && OpenActive(l) && Possible(l, step) && !Careless(l, step)
    ensures OpenActive(Next(l, step))
  {
    hide Next, LibraryOk;
    DevicesStay(l, step);
    forall id | id in Next(l, step).open ensures Active(Next(l, step), Next(l, step).open[id].device) {
      WhereFrom(l, step, id);
      assert step.CloseDevice? && id !in OpenOn(l, step.device) && id in l.open ==> l.open[id].device != step.device;
    }
  }

  /** No step but closing changes whether a device takes cycles. */
  lemma DevicesStay(l: Library, step: Step)
    requires LibraryOk(l) && Possible(l, step)
    ensures forall i: nat | Active(l, i) && !(step.CloseDevice? && i == step.device && l.devices[i].unready == 0) :: Active(Next(l, step), i)
    ensures forall i: nat | Active(l, i) || Gone(l, i) :: Active(Next(l, step), i) || Gone(Next(l, step), i)
  {
    hide Transport.Ok, WriteConfig, FlushCycles, KillInflight, Expire, Turned, KilledAll, Short, Reverse, QueueState, LibraryOk;
  }

  /** An open cycle was open before, on the same device, or was just opened on one that takes cycles. */
  lemma WhereFrom(l: Library, step: Step, id: nat)
    requires LibraryOk(l) && Possible(l, step) && id in Next(l, step).open
    ensures var device := Next(l, step).open[id].device;
            (id in l.open && l.open[id].device == device) || (step.Open? && Active(l, device))
  {
    hide Transport.Ok, WriteConfig, FlushCycles, KillInflight, Expire, Turned, KilledAll, Short, Reverse, QueueState, LibraryOk;
  }

  /** A cycle whose device was closed under it stays open for ever. */
  lemma GoneStays(l: Library, step: Step, id: nat)
    requires LibraryOk(l) && l.nextId !in l.open && Possible(l, step) && id in l.open && Gone(l, l.open[id].device)
    ensures id in Next(l, step).open && Gone(Next(l, step), Next(l, step).open[id].device)
  {
    hide Transport.Ok, WriteConfig, FlushCycles, KillInflight, Expire, Turned, KilledAll, Short, Reverse, QueueState, LibraryOk;
  }

  lemma {:induction false} StrandedFrom(l: Library, steps: seq<Step>)
    requires Invariant(l) && Runs(l, steps)
    ensures OpenActive(After(l, steps)) <==> OpenActive(l) && Careful(l, steps)
    decreases |steps|
  {
    hide Next, Possible, OnePlaceEach, CountersExact, LibraryOk, OpenActive, Careless;
    if |steps| > 0 {
      PlacedNow(l);
      NextIdUnused(l);
      StrandedStep(l, steps[0]);
      InvariantKept(l, steps[0]);
      StrandedFrom(Next(l, steps[0]), steps[1..]);
    }
  }

  lemma PlacedNow(l: Library)
    requires NoStrays(l)
    ensures OpenPlaced(l)
  {}

  /** After a run every open cycle still has its device exactly if no device was closed under one. */
  lemma StrandedIff(steps: seq<Step>)
    requires Runs(INITIAL, steps)
    ensures OpenActive(After(INITIAL, steps)) <==> Careful(INITIAL, steps)
  {
    InitialInvariant();
    hide Runs, After, Careful, Invariant;
    StrandedFrom(INITIAL, steps);
  }

  lemma {:induction false} NothingReady(devices: seq<Device>, id: nat)
    requires forall i | 0 <= i < |devices| :: devices[i].ready == []
    ensures InReady(devices, id) == 0
  {
    if |devices| > 0 {
      NothingReady(devices[1..], id);
    }
  }

  /** Once every device has been closed, every closed cycle has had its callback, once; and no cycle is left
      open exactly if no device was ever closed under an open cycle. */
  lemma AllAnswered(steps: seq<Step>, id: nat)
    requires Runs(INITIAL, steps)
    requires var l := After(INITIAL, steps); forall i | 0 <= i < |l.devices| :: l.devices[i].gone
    ensures var l := After(INITIAL, steps);
            (Closed(l, id) <==> Called(l.queue.log, id) == 1) && (l.open == map[] <==> Careful(INITIAL, steps))
  {
    InitialInvariant();
    RunsKeep(INITIAL, steps);
    ExactlyOnce(steps, id);
    StrandedIff(steps);
    hide After, Runs, Careful, LibraryOk, OnePlaceEach, Called, InAborted, InReady, InResponses, NoStrays;
    NothingLeft(After(INITIAL, steps), id);
  }

  lemma NothingLeft(l: Library, id: nat)
    requires NoStrays(l) && forall i | 0 <= i < |l.devices| :: l.devices[i].gone
    ensures (l.open == map[] <==> OpenActive(l)) && InReady(l.devices, id) == 0 && InResponses(Fifo(l.queue), id) == 0
  {
    NothingReady(l.devices, id);
    assert |Fifo(l.queue)| > 0 ==> Active(l, Fifo(l.queue)[0].cycle.device);
    assert OpenActive(l) ==> l.open.Keys == {};
  }

  /** Callbacks are never taken back. */
  lemma LogGrows(l: Library, step: Step)
    requires LibraryOk(l) && Possible(l, step)
    ensures l.queue.log <= Next(l, step).queue.log
  {
    hide Transport.Ok, AnswerList, Fifo, Timeouts, KilledAll, Short, Reverse, FlushCycles, WriteConfig, QueueState;
    match step
    case FlushDevice(device, noMemory) =>
      var d := l.devices[device];
      ShortReverse(d.ready);
      FlushLog(d.t, device, l.clock, SenderOf(l), Reverse(d.ready), noMemory);
    case Reply(size, address, value) =>
      WriteConfigRefines(l.queue, size, address, value);
    case _ =>
  }

  lemma {:induction false} FlushLog(t: Transport, device: nat, time: nat, s: Sender, cs: seq<QueuedCycle>, oom: nat -> bool)
    requires t.Ok() && SenderOk(t, s) && |s.cur| == 0 && Short(cs)
    ensures s.queue.log <= FlushCycles(t, device, time, s, cs, oom).queue.log
    decreases |cs|
  {
    hide FlushCycle, SentBy, Accepts, NeedsReply, FlushStatus, NewResponse;
    if |cs| > 0 {
      var s1 := FlushCycle(t, device, time, s, cs[0], oom(cs[0].id));
      FlushCycleCorrect(t, device, time, s, cs[0], oom(cs[0].id));
      assert s.queue.log <= s1.queue.log;
      FlushLog(t, device, time, s1, cs[1..], oom);
    }
  }

  /** After any run, closing a device is refused exactly when its number of open cycles is no multiple of
      256. */
  lemma BusyIff(steps: seq<Step>, device: nat)
    requires Runs(INITIAL, steps) && Possible(After(INITIAL, steps), CloseDevice(device))
    ensures var l := After(INITIAL, steps);
            Next(l, CloseDevice(device)).devices[device].gone <==> |OpenOn(l, device)| % 256 == 0
  {
    InitialInvariant();
    RunsKeep(INITIAL, steps);
    hide Transport.Ok, KillInflight, Turned, KilledAll, Reverse, OpenOn, QueueState, After, Runs, NoStrays, OnePlaceEach;
  }

  ghost predicate FewOpen(l: Library) {
    forall i: nat | i < |l.devices| :: |OpenOn(l, i)| < 256
  }

  /** Fewer than 256 cycles of a device are open at any time of the run. */
  ghost predicate AlwaysFew(l: Library, steps: seq<Step>)
    requires LibraryOk(l) && Runs(l, steps)
    decreases |steps|
  {
    FewOpen(l) && (|steps| == 0 || AlwaysFew(Next(l, steps[0]), steps[1..]))
  }

  /** What a caller has to keep to: with fewer than 256 open cycles no device is closed under one. */
  lemma {:induction false} FewIsCareful(l: Library, steps: seq<Step>)
    requires Invariant(l) && Runs(l, steps) && AlwaysFew(l, steps)
    ensures Careful(l, steps)
    decreases |steps|
  {
    hide Next, OnePlaceEach, LibraryOk, NoStrays;
    if |steps| > 0 {
      InvariantKept(l, steps[0]);
      FewIsCareful(Next(l, steps[0]), steps[1..]);
    }
  }

  function Opens(n: nat): (steps: seq<Step>)
    ensures |steps| == n
  {
    if n == 0 then [] else [Open(0, false)] + Opens(n - 1)
  }

  /** Only the first device is there, and all open cycles are its own. */
  ghost predicate OneDevice(l: Library) {
    && |l.devices| == 1 && !l.devices[0].passive && !l.devices[0].gone && l.devices[0].unready == |l.open| % 256
    && forall id | id in l.open :: id < l.nextId && l.open[id].device == 0
  }

  lemma OpenIs(l: Library)
    requires LibraryOk(l) && OneDevice(l)
    ensures Possible(l, Open(0, false))
    ensures Next(l, Open(0, false)) == Unready(l, 0, 1).(open := l.open[l.nextId := OpenCycle(0, [], false)], nextId := l.nextId + 1)
  {
    hide Transport.Ok, LibraryOk, Unready;
  }

  lemma OpenOne(l: Library, l': Library)
    requires OneDevice(l) && l' == Unready(l, 0, 1).(open := l.open[l.nextId := OpenCycle(0, [], false)], nextId := l.nextId + 1)
    ensures OneDevice(l') && |l'.open| == |l.open| + 1
  {
    assert |l'.open| == |l.open| + 1 by {
      assert l.nextId !in l.open;
      assert l'.open.Keys == l.open.Keys + {l.nextId};
    }
    var d := l.devices[0];
    assert l'.devices == [d.(unready := (d.unready + 1) % 256)];
    CountOne(|l.open|);
  }

  lemma {:induction false} OpenMany(l: Library, n: nat, more: seq<Step>)
    requires LibraryOk(l) && OneDevice(l)
    ensures Runs(l, Opens(n))
    ensures var l' := After(l, Opens(n));
            && OneDevice(l') && |l'.open| == |l.open| + n
            && (Runs(l', more) ==> Runs(l, Opens(n) + more) && After(l, Opens(n) + more) == After(l', more))
    decreases n
  {
    hide Next, Possible, OneDevice, LibraryOk, Unready;
    if n == 0 {
      assert [] + more == more;
    } else {
      OpenIs(l);
      OpenOne(l, Next(l, Open(0, false)));
      OpenMany(Next(l, Open(0, false)), n - 1, more);
      assert Opens(n)[1..] == Opens(n - 1) && (Opens(n) + more)[1..] == Opens(n - 1) + more;
    }
  }

  /** A device is opened, 256 cycles are opened on it, and it is closed. */
  function Wrapping(t: Transport): seq<Step> {
    [OpenDevice(t, false)] + (Opens(256) + [CloseDevice(0)])
  }

  lemma CloseWrapped(l: Library)
    requires LibraryOk(l) && OneDevice(l) && |l.open| == 256
    ensures Possible(l, CloseDevice(0))
    ensures var l' := Next(l, CloseDevice(0)); l'.open == l.open && forall id | id in l.open :: Gone(l', l'.open[id].device)
  {
    hide Transport.Ok, KillInflight, KilledAll, Reverse, QueueState, Short;
  }

  lemma RunOne(l: Library, step: Step)
    requires LibraryOk(l) && Possible(l, step)
    ensures Runs(l, [step]) && After(l, [step]) == Next(l, step)
  {
    hide Next, Possible, LibraryOk;
    assert [step][1..] == [];
  }

  lemma FirstDevice(t: Transport, more: seq<Step>)
    requires t.Ok()
    ensures Possible(INITIAL, OpenDevice(t, false))
    ensures var l := Next(INITIAL, OpenDevice(t, false));
            && OneDevice(l) && |l.open| == 0
            && (Runs(l, more) ==> Runs(INITIAL, [OpenDevice(t, false)] + more) && After(INITIAL, [OpenDevice(t, false)] + more) == After(l, more))
  {
    hide Transport.Ok;
    assert ([OpenDevice(t, false)] + more)[1..] == more;
  }

  /** With 256 open cycles the eight-bit counter is back at 0: closing is not refused, and the device is
      closed under all of them. */
  lemma CounterWraps(t: Transport)
    requires t.Ok()
    ensures Runs(INITIAL, Wrapping(t)) && !Careful(INITIAL, Wrapping(t))
    ensures var l := After(INITIAL, Wrapping(t));
            |l.open| == 256 && forall id | id in l.open :: Gone(l, l.open[id].device)
  {
    hide *;
    InitialInvariant();
    InvariantOk(INITIAL);
    FirstDevice(t, Opens(256) + [CloseDevice(0)]);
    var first := Next(INITIAL, OpenDevice(t, false));
    OpenMany(first, 256, [CloseDevice(0)]);
    var full := After(first, Opens(256));
    CloseWrapped(full);
    RunOne(full, CloseDevice(0));
    WrappingIs(t);
    StrandedIff(Wrapping(t));
    Stranded(After(INITIAL, Wrapping(t)));
  }

  lemma InvariantOk(l: Library)
    requires Invariant(l)
    ensures LibraryOk(l)
  {}

  lemma WrappingIs(t: Transport)
    ensures Wrapping(t) == [OpenDevice(t, false)] + (Opens(256) + [CloseDevice(0)])
  {}

  lemma Stranded(l: Library)
    requires |l.open| > 0 && forall id | id in l.open :: Gone(l, l.open[id].device)
    ensures !OpenActive(l)
  {
    var id :| id in l.open;
  }
}
