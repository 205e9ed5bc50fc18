/**
 Order: over every run, the cycles of a device that still wait for their callback stand in the order
 in which they were closed, so closing the device answers them in that order.
 */
module Order {
  import opened Words
  import opened Operations
  import opened Packer
  import opened Responses
  import opened Delivery
  import opened Wire
  import opened Flush
  import opened Packets
  import opened SocketDevice
  import opened Lifecycle

  /** a is what is left of b when some elements are dropped. */
  predicate Sub(a: seq<nat>, b: seq<nat>) {
    |a| == 0 || (|b| > 0 && ((a[0] == b[0] && Sub(a[1..], b[1..])) || Sub(a, b[1..])))
  }

  lemma {:induction false} SubSelf(a: seq<nat>)
    ensures Sub(a, a)
  {
    if |a| > 0 {
      SubSelf(a[1..]);
    }
  }

  lemma SubWider(a: seq<nat>, b: seq<nat>)
    requires |b| > 0 && Sub(a, b[1..])
    ensures Sub(a, b)
  {}

  lemma {:induction false} SubTransitive(a: seq<nat>, b: seq<nat>, c: seq<nat>)
    requires Sub(a, b) && Sub(b, c)
    ensures Sub(a, c)
    decreases |b| + |c|
  {
    if |a| > 0 {
      if b[0] == c[0] && Sub(b[1..], c[1..]) {
        if a[0] == b[0] && Sub(a[1..], b[1..]) {
          SubTransitive(a[1..], b[1..], c[1..]);
        } else {
          SubTransitive(a, b[1..], c[1..]);
        }
      } else {
        SubTransitive(a, b, c[1..]);
      }
    }
  }

  lemma {:induction false} SubConcat(a: seq<nat>, b: seq<nat>, c: seq<nat>, d: seq<nat>)
    requires Sub(a, b) && Sub(c, d)
    ensures Sub(a + c, b + d)
    decreases |b|
  {
    if |b| == 0 {
      assert a + c == c && b + d == d;
    } else if |a| > 0 && a[0] == b[0] && Sub(a[1..], b[1..]) {
      SubConcat(a[1..], b[1..], c, d);
      assert (a + c)[1..] == a[1..] + c && (b + d)[1..] == b[1..] + d;
    } else {
      SubConcat(a, b[1..], c, d);
      assert (b + d)[1..] == b[1..] + d;
      SubWider(a + c, b + d);
    }
  }

  function FlightIds(rs: seq<Response>): (ids: seq<nat>) {
    if |rs| == 0 then [] else [rs[0].cycle.id] + FlightIds(rs[1..])
  }

  function ReadyIds(cs: seq<QueuedCycle>): (ids: seq<nat>) {
    if |cs| == 0 then [] else [cs[0].id] + ReadyIds(cs[1..])
  }

  /** A device's cycles in flight, oldest first, then its ready cycles, oldest first. */
  function Waiting(l: Library, device: nat): seq<nat>
    requires device < |l.devices|
  {
    InFlight(l.queue, device) + ReadyIds(Reverse(l.devices[device].ready))
  }

  function InFlight(q: Queue, device: nat): seq<nat> {
    FlightIds(Select(Fifo(q), device, true))
  }

  lemma {:induction false} FlightConcat(a: seq<Response>, b: seq<Response>)
    ensures FlightIds(a + b) == FlightIds(a) + FlightIds(b)
  {
    if |a| == 0 {
      assert a + b == b;
    } else {
      FlightConcat(a[1..], b);
      assert (a + b)[1..] == a[1..] + b;
      assert [a[0].cycle.id] + (FlightIds(a[1..]) + FlightIds(b)) == ([a[0].cycle.id] + FlightIds(a[1..])) + FlightIds(b);
    }
  }

  lemma {:induction false} ReadyConcat(a: seq<QueuedCycle>, b: seq<QueuedCycle>)
    ensures ReadyIds(a + b) == ReadyIds(a) + ReadyIds(b)
  {
    if |a| == 0 {
      assert a + b == b;
    } else {
      ReadyConcat(a[1..], b);
      assert (a + b)[1..] == a[1..] + b;
      assert [a[0].id] + (ReadyIds(a[1..]) + ReadyIds(b)) == ([a[0].id] + ReadyIds(a[1..])) + ReadyIds(b);
    }
  }

  /** Leaving the queue keeps the others in order. */
  lemma {:induction false} RemoveSub(rs: seq<Response>, i: nat, r: Response, device: nat)
    requires i < |rs| && r.cycle.id == rs[i].cycle.id && r.cycle.device == rs[i].cycle.device
    ensures FlightIds(Select(rs[i := r], device, true)) == FlightIds(Select(rs, device, true))
    ensures Sub(FlightIds(Select(rs[..i] + rs[i + 1..], device, true)), FlightIds(Select(rs, device, true)))
    decreases i
  {
    if i == 0 {
      assert rs[..0] + rs[1..] == rs[1..] && rs[0 := r][1..] == rs[1..];
      SubSelf(FlightIds(Select(rs[1..], device, true)));
      HeadIds(rs, device);
      HeadIds(rs[0 := r], device);
    } else {
      RemoveSub(rs[1..], i - 1, r, device);
      assert rs[i := r][1..] == rs[1..][i - 1 := r];
      var less := rs[..i] + rs[i + 1..];
      assert less[1..] == rs[1..][..i - 1] + rs[1..][i..] && less[0] == rs[0];
      HeadIds(rs, device);
      HeadIds(rs[i := r], device);
      HeadIds(less, device);
      SubSelf([rs[0].cycle.id]);
      SubConcat([rs[0].cycle.id], [rs[0].cycle.id], FlightIds(Select(less[1..], device, true)), FlightIds(Select(rs[1..], device, true)));
    }
  }

  lemma HeadIds(rs: seq<Response>, device: nat)
    requires |rs| > 0
    ensures FlightIds(Select(rs, device, true))
         == (if rs[0].cycle.device == device then [rs[0].cycle.id] else []) + FlightIds(Select(rs[1..], device, true))
  {
    var rest := Select(rs[1..], device, true);
    assert ([rs[0]] + rest)[1..] == rest;
  }

  lemma AnswerOrder(rs: seq<Response>, size: nat, address: nat, value: nat, device: nat)
    requires AllOk(rs)
    ensures Sub(FlightIds(Select(AnswerList(rs, size, address, value).0, device, true)), FlightIds(Select(rs, device, true)))
  {
    hide Find, ReturnAddress, AssignErrors, CountBus, FindRead, FindBus, HasError, FlightIds, Select, Sub;
    var i := Find(rs, ReturnAddress(address));
    SubSelf(FlightIds(Select(rs, device, true)));
    if i < |rs| {
      RemoveSub(rs, i, Answer(rs[i], size, address, value).0, device);
    }
  }

  lemma ExpireOrder(q: Queue, clock: nat, now: nat, device: nat)
    requires clock < WORD32
    ensures Sub(InFlight(Expire(q, clock, now), device), InFlight(q, device))
  {
    var n := ExpiredCount(q.first, clock, now);
    var q' := Expire(q, clock, now);
    hide ExpiredCount;
    assert Fifo(q) == Fifo(q)[..n] + Fifo(q)[n..] && Fifo(q') == Fifo(q)[n..];
    SelectConcat(Fifo(q)[..n], Fifo(q)[n..], device, true);
    FlightConcat(Select(Fifo(q)[..n], device, true), Select(Fifo(q)[n..], device, true));
    SubSelf(InFlight(q', device));
    SubConcat([], FlightIds(Select(Fifo(q)[..n], device, true)), InFlight(q', device), InFlight(q', device));
    assert [] + InFlight(q', device) == InFlight(q', device);
  }

  lemma {:induction false} SelectSelect(rs: seq<Response>, killed: nat, device: nat)
    ensures Select(Select(rs, killed, false), device, true) == if killed == device then [] else Select(rs, device, true)
  {
    if |rs| > 0 {
      SelectSelect(rs[1..], killed, device);
      var rest := Select(rs[1..], killed, false);
      assert ([rs[0]] + rest)[1..] == rest;
    }
  }

  lemma KillOrder(q: Queue, killed: nat, device: nat)
    ensures InFlight(KillInflight(q, killed), device) == if killed == device then [] else InFlight(q, device)
  {
    SelectSelect(Fifo(q), killed, device);
    var q' := KillInflight(q, killed);
    assert Reverse(q'.last) == [] && Fifo(q') == q'.first;
  }

  lemma FlushOneOrder(t: Transport, flushed: nat, time: nat, s: Sender, c: QueuedCycle, oom: bool, device: nat)
    requires t.Ok() && SenderOk(t, s) && |s.cur| == 0 && |c.requests| < NO_LIMIT
    ensures var out := FlushCycle(t, flushed, time, s, c, oom);
            if flushed == device then Sub(InFlight(out.queue, device), InFlight(s.queue, device) + [c.id])
            else InFlight(out.queue, device) == InFlight(s.queue, device)
  {
    hide FlushCycle, SentBy, InFlight, Sub, FateOf, Accepts;
    FlushCycleCorrect(t, flushed, time, s, c, oom);
    FateOrder(t, flushed, time, s, FlushCycle(t, flushed, time, s, c, oom), c, oom, device);
  }

  lemma OrderStep(after: seq<nat>, mid: seq<nat>, before: seq<nat>, id: nat, rest: seq<nat>)
    requires Sub(mid, before + [id]) && Sub(after, mid + rest)
    ensures Sub(after, before + ([id] + rest))
  {
    hide Sub;
    SubSelf(rest);
    SubConcat(mid, before + [id], rest, rest);
    SubTransitive(after, mid + rest, before + [id] + rest);
    assert before + [id] + rest == before + ([id] + rest);
  }

  /** A flush moves cycles from ready to in flight without overtaking. */
  lemma {:induction false} FlushOrder(t: Transport, flushed: nat, time: nat, s: Sender, cs: seq<QueuedCycle>, oom: nat -> bool, device: nat)
    requires t.Ok() && SenderOk(t, s) && |s.cur| == 0 && Short(cs)
    ensures var after := InFlight(FlushCycles(t, flushed, time, s, cs, oom).queue, device);
            if flushed == device then Sub(after, InFlight(s.queue, device) + ReadyIds(cs)) else after == InFlight(s.queue, device)
    decreases |cs|
  {
    hide FlushCycle, SentBy, InFlight, Sub, FateOf;
    var before := InFlight(s.queue, device);
    if |cs| == 0 {
      SubSelf(before);
      assert before + [] == before;
    } else {
      var c := cs[0];
      var s1 := FlushCycle(t, flushed, time, s, c, oom(c.id));
      FlushOneOrder(t, flushed, time, s, c, oom(c.id), device);
      FlushOrder(t, flushed, time, s1, cs[1..], oom, device);
      var after := InFlight(FlushCycles(t, flushed, time, s, cs, oom).queue, device);
      if flushed == device {
        OrderStep(after, InFlight(s1.queue, device), before, c.id, ReadyIds(cs[1..]));
      }
    }
  }

  lemma FateOrder(t: Transport, flushed: nat, time: nat, s: Sender, out: Sender, c: QueuedCycle, oom: bool, device: nat)
    requires t.Ok() && |c.requests| < NO_LIMIT && s.rba % 2 == 0 && s.rba < 0x1_0000 && FateOf(t, flushed, time, s, out, c, oom)
    ensures if flushed == device then Sub(InFlight(out.queue, device), InFlight(s.queue, device) + [c.id])
            else InFlight(out.queue, device) == InFlight(s.queue, device)
  {
    hide NewResponse, Accepts, NeedsReply, FlushStatus, Sub;
    var before := InFlight(s.queue, device);
    if Accepts(t, s.rba, c, oom) && NeedsReply(CycleOf(t, c), c.checked) {
      var cycle := Cycle(c.id, flushed, CycleOf(t, c));
      var r := NewResponse(cycle, s.rba, Deadline(time), c.checked);
      EnqueueIsLast(s.queue, r);
      ResponseCycle(cycle, s.rba, Deadline(time), c.checked);
      SelectConcat(Fifo(s.queue), [r], device, true);
      FlightConcat(Select(Fifo(s.queue), device, true), Select([r], device, true));
      HeadIds([r], device);
      assert [r][1..] == [];
      assert FlightIds(Select([], device, true)) == [];
      assert flushed == device ==> InFlight(out.queue, device) == before + [c.id];
      SubSelf(before + [c.id]);
      assert before + [] == before;
    } else {
      SubSelf(before);
      SubNothing([c.id]);
      SubConcat(before, before, [], [c.id]);
      assert before + [] == before;
    }
  }

  lemma SubNothing(a: seq<nat>)
    ensures Sub([], a)
  {}

  /** The cycle a step closes on the device. */
  function ClosedBy(l: Library, step: Step, device: nat): seq<nat> {
    if step.Close? && step.id in l.open && l.open[step.id].device == device then [step.id] else []
  }

  lemma FlushStepOrder(l: Library, flushed: nat, noMemory: nat -> bool, device: nat)
    requires LibraryOk(l) && Possible(l, FlushDevice(flushed, noMemory)) && device < |l.devices|
    ensures device < |Next(l, FlushDevice(flushed, noMemory)).devices|
    ensures Sub(Waiting(Next(l, FlushDevice(flushed, noMemory)), device), Waiting(l, device))
  {
    hide Transport.Ok, FlushCycles, Sub, InFlight, Short, QueueState;
    var l', d := Next(l, FlushDevice(flushed, noMemory)), l.devices[flushed];
    ShortReverse(d.ready);
    FlushOrder(d.t, flushed, l.clock, SenderOf(l), Reverse(d.ready), noMemory, device);
    if flushed == device {
      assert Reverse(l'.devices[device].ready) == [];
      assert InFlight(l'.queue, device) + [] == InFlight(l'.queue, device);
    } else {
      SubSelf(Waiting(l, device));
    }
  }

  /** Steps that only touch the queue. */
  lemma QueueStepOrder(l: Library, step: Step, device: nat)
    requires LibraryOk(l) && Possible(l, step) && device < |l.devices| && (step.Reply? || step.CheckTime? || step.AskTimeout?)
    ensures device < |Next(l, step).devices|
    ensures Sub(Waiting(Next(l, step), device), Waiting(l, device))
  {
    hide Transport.Ok, Expire, Turned, WriteConfig, Sub, AnswerList, Short, QueueState, Select, FlightIds, Fifo;
    var l', ready := Next(l, step), ReadyIds(Reverse(l.devices[device].ready));
    SubSelf(ready);
    if step.Reply? {
      WriteConfigRefines(l.queue, step.size, step.address, step.value);
      AnswerOrder(Fifo(l.queue), step.size, step.address, step.value, device);
    } else if step.CheckTime? {
      ExpireOrder(l.queue, l.clock, step.now, device);
    } else {
      TurnedSame(l.queue);
      SubSelf(InFlight(l.queue, device));
    }
    SubConcat(InFlight(l'.queue, device), InFlight(l.queue, device), ready, ready);
  }

  /** Steps that touch neither the queue nor what is ready. */
  lemma OtherStepOrder(l: Library, step: Step, device: nat)
    requires LibraryOk(l) && Possible(l, step) && device < |l.devices|
    requires step.OpenDevice? || step.Open? || step.Fill? || step.Abort?
    ensures device < |Next(l, step).devices|
    ensures Sub(Waiting(Next(l, step), device), Waiting(l, device))
  {
    hide Transport.Ok, Sub, Short, QueueState, InFlight;
    SubSelf(Waiting(l, device));
  }

  lemma NotClosing(l: Library, step: Step, device: nat)
    requires !step.Close?
    ensures ClosedBy(l, step, device) == []
  {
  }

  lemma CloseStays(l: Library, step: Step, device: nat)
    requires LibraryOk(l) && Possible(l, step) && device < |l.devices| && (step.Close? || step.CloseDevice?)
    ensures device < |Next(l, step).devices|
  {
    hide Transport.Ok, Short, QueueState, KillInflight, KilledAll;
  }

  /** One step keeps the waiting cycles of a device in order, and puts a newly closed one last. */
  lemma StepOrder(l: Library, step: Step, device: nat)
    requires LibraryOk(l) && Possible(l, step) && device < |l.devices|
    ensures device < |Next(l, step).devices|
    ensures Sub(Waiting(Next(l, step), device), Waiting(l, device) + ClosedBy(l, step, device))
  {
    hide *;
    if !step.Close? {
      NotClosing(l, step, device);
      assert Waiting(l, device) + [] == Waiting(l, device);
    }
    match step
    case Close(id, checked) =>
      CloseStays(l, step, device);
      CloseOrder(l, id, checked, device);
    case FlushDevice(flushed, noMemory) =>
      FlushStepOrder(l, flushed, noMemory, device);
    case CloseDevice(closed) =>
      CloseStays(l, step, device);
      KillStepOrder(l, closed, device);
    case Reply(_, _, _) =>
      QueueStepOrder(l, step, device);
    case CheckTime(_) =>
      QueueStepOrder(l, step, device);
    case AskTimeout =>
      QueueStepOrder(l, step, device);
    case _ =>
      OtherStepOrder(l, step, device);
  }

  lemma InFlightIs(q: Queue, device: nat)
    ensures InFlight(q, device) == FlightIds(Select(Fifo(q), device, true))
  {}

  lemma CloseOrder(l: Library, id: nat, checked: bool, device: nat)
    requires LibraryOk(l) && Possible(l, Close(id, checked)) && device < |l.devices|
    ensures Sub(Waiting(Next(l, Close(id, checked)), device), Waiting(l, device) + ClosedBy(l, Close(id, checked), device))
  {
    hide Transport.Ok, Sub, InFlight, Short, QueueState;
    var l', o := Next(l, Close(id, checked)), l.open[id];
    var flight, ready := InFlight(l.queue, device), l.devices[device].ready;
    var queued := QueuedCycle(id, Reverse(o.requests), o.dead, checked && |o.requests| > 0);
    if o.device == device {
      assert l'.devices[device].ready == [queued] + ready;
      assert ([queued] + ready)[1..] == ready;
      ReadyConcat(Reverse(ready), [queued]);
      assert ReadyIds([queued]) == [id] by { assert [queued][1..] == []; }
      assert flight + (ReadyIds(Reverse(ready)) + [id]) == flight + ReadyIds(Reverse(ready)) + [id];
    } else {
      assert Waiting(l, device) + [] == Waiting(l, device);
    }
    SubSelf(Waiting(l', device));
  }

  lemma KillStepOrder(l: Library, closed: nat, device: nat)
    requires LibraryOk(l) && Possible(l, CloseDevice(closed)) && device < |l.devices|
    ensures Sub(Waiting(Next(l, CloseDevice(closed)), device), Waiting(l, device))
  {
    hide Transport.Ok, Sub, KillInflight, KilledAll, Short, QueueState;
    var l' := Next(l, CloseDevice(closed));
    var flight, ready := InFlight(l.queue, device), ReadyIds(Reverse(l.devices[device].ready));
    KillOrder(l.queue, closed, device);
    LogOnly(KillInflight(l.queue, closed), KilledAll(closed, Reverse(l.devices[closed].ready)));
    SubSelf(flight);
    SubSelf(ready);
    SubNothing(flight);
    SubNothing(ready);
    SubConcat(InFlight(l'.queue, device), flight, ReadyIds(Reverse(l'.devices[device].ready)), ready);
  }

  /** The cycles closed on a device over a run, in order. */
  function ClosedOn(l: Library, steps: seq<Step>, device: nat): seq<nat>
    requires LibraryOk(l) && Runs(l, steps)
    decreases |steps|
  {
    if |steps| == 0 then [] else ClosedBy(l, steps[0], device) + ClosedOn(Next(l, steps[0]), steps[1..], device)
  }

  lemma {:induction false} RunOrder(l: Library, steps: seq<Step>, device: nat, closed: seq<nat>)
    requires LibraryOk(l) && Runs(l, steps) && device < |l.devices| && Sub(Waiting(l, device), closed)
    ensures device < |After(l, steps).devices|
    ensures Sub(Waiting(After(l, steps), device), closed + ClosedOn(l, steps, device))
    decreases |steps|
  {
    hide LibraryOk, Possible, Next, Waiting, Sub, ClosedBy;
    if |steps| == 0 {
      assert closed + [] == closed;
    } else {
      var own := ClosedBy(l, steps[0], device);
      var l1 := Next(l, steps[0]);
      StepOrder(l, steps[0], device);
      SubSelf(own);
      SubConcat(Waiting(l, device), closed, own, own);
      SubTransitive(Waiting(l1, device), Waiting(l, device) + own, closed + own);
      RunOrder(l1, steps[1..], device, closed + own);
      assert closed + own + ClosedOn(l1, steps[1..], device) == closed + (own + ClosedOn(l1, steps[1..], device));
    }
  }

  lemma {:induction false} TimeoutsShow(rs: seq<Response>)
    ensures DoneIds(Timeouts(rs)) == FlightIds(rs)
  {
    if |rs| > 0 {
      TimeoutsShow(rs[1..]);
      assert Timeouts(rs)[1..] == Timeouts(rs[1..]);
    }
  }

  lemma {:induction false} KilledShow(device: nat, cs: seq<QueuedCycle>)
    ensures DoneIds(KilledAll(device, cs)) == ReadyIds(cs)
  {
    if |cs| > 0 {
      KilledShow(device, cs[1..]);
      assert KilledAll(device, cs)[1..] == KilledAll(device, cs[1..]);
    }
  }

  function DoneIds(ds: seq<Done>): (ids: seq<nat>) {
    if |ds| == 0 then [] else [ds[0].id] + DoneIds(ds[1..])
  }

  lemma {:induction false} DoneConcat(a: seq<Done>, b: seq<Done>)
    ensures DoneIds(a + b) == DoneIds(a) + DoneIds(b)
  {
    if |a| == 0 {
      assert a + b == b;
    } else {
      DoneConcat(a[1..], b);
      assert (a + b)[1..] == a[1..] + b;
      assert [a[0].id] + (DoneIds(a[1..]) + DoneIds(b)) == ([a[0].id] + DoneIds(a[1..])) + DoneIds(b);
    }
  }

  /** After any run, closing a device calls back exactly its waiting cycles, and in the order in which
      they were closed. */
  lemma ClosedInOrder(steps: seq<Step>, l: Library, device: nat)
    requires Runs(INITIAL, steps) && l == After(INITIAL, steps)
    requires Possible(l, CloseDevice(device)) && l.devices[device].unready == 0 && !l.devices[device].passive
    ensures var calls := Next(l, CloseDevice(device)).queue.log[|l.queue.log|..];
            DoneIds(calls) == Waiting(l, device) && Sub(DoneIds(calls), ClosedOn(INITIAL, steps, device))
  {
    hide After, Runs, Next, LibraryOk, ClosedOn, Sub, DoneIds, Waiting;
    NothingAtFirst(device);
    FromStart(INITIAL, steps, device);
    KillCalls(l, device);
  }

  lemma NothingAtFirst(device: nat)
    ensures NothingOn(INITIAL, device)
  {
    assert Fifo(INITIAL.queue) == [];
  }

  lemma KillCalls(l: Library, device: nat)
    requires LibraryOk(l) && Possible(l, CloseDevice(device)) && l.devices[device].unready == 0 && !l.devices[device].passive
    ensures DoneIds(Next(l, CloseDevice(device)).queue.log[|l.queue.log|..]) == Waiting(l, device)
  {
    hide Transport.Ok, Short, QueueState, Select, Fifo, Reverse, Timeouts, KilledAll, DoneIds, FlightIds, ReadyIds;
    var d := l.devices[device];
    var killed, rest := Timeouts(Select(Fifo(l.queue), device, true)), KilledAll(device, Reverse(d.ready));
    TimeoutsShow(Select(Fifo(l.queue), device, true));
    KilledShow(device, Reverse(d.ready));
    DoneConcat(killed, rest);
    assert (l.queue.log + killed + rest)[|l.queue.log|..] == killed + rest;
  }

  /** A device appears at some point of the run; from there on its cycles keep their order. */
  lemma {:induction false} FromStart(l: Library, steps: seq<Step>, device: nat)
    requires LibraryOk(l) && Runs(l, steps) && device < |After(l, steps).devices|
    requires device >= |l.devices| ==> NothingOn(l, device)
    requires device < |l.devices| ==> Waiting(l, device) == []
    ensures Sub(Waiting(After(l, steps), device), ClosedOn(l, steps, device))
    decreases |steps|
  {
    if device < |l.devices| {
      RunOrder(l, steps, device, []);
      assert [] + ClosedOn(l, steps, device) == ClosedOn(l, steps, device);
    } else {
      assert |steps| > 0;
      NotYet(l, steps[0], device);
      FromStart(Next(l, steps[0]), steps[1..], device);
      assert [] + ClosedOn(Next(l, steps[0]), steps[1..], device) == ClosedOn(Next(l, steps[0]), steps[1..], device);
    }
  }

  /** A device that does not exist yet has nothing in flight. */
  predicate NothingOn(l: Library, device: nat) {
    InFlight(l.queue, device) == []
  }

  lemma NotYet(l: Library, step: Step, device: nat)
    requires LibraryOk(l) && Possible(l, step) && device >= |l.devices| && NothingOn(l, device)
    ensures ClosedBy(l, step, device) == []
    ensures device >= |Next(l, step).devices| ==> NothingOn(Next(l, step), device)
    ensures device < |Next(l, step).devices| ==> Waiting(Next(l, step), device) == []
  {
    hide Transport.Ok, KillInflight, Expire, Turned, WriteConfig, FlushCycles, Sub, InFlight, AnswerList, KilledAll, Short, QueueState;
    var l' := Next(l, step);
    match step
    case FlushDevice(flushed, noMemory) =>
      var d := l.devices[flushed];
      ShortReverse(d.ready);
      FlushOrder(d.t, flushed, l.clock, SenderOf(l), Reverse(d.ready), noMemory, device);
    case Reply(size, address, value) =>
      WriteConfigRefines(l.queue, size, address, value);
      AnswerOrder(Fifo(l.queue), size, address, value, device);
      InFlightIs(l.queue, device);
      InFlightIs(l'.queue, device);
      SubEmpty(InFlight(l'.queue, device));
    case CheckTime(now) =>
      ExpireOrder(l.queue, l.clock, now, device);
      SubEmpty(InFlight(l'.queue, device));
    case AskTimeout =>
      TurnedSame(l.queue);
      InFlightIs(l.queue, device);
      InFlightIs(l'.queue, device);
    case CloseDevice(closed) =>
      KillOrder(l.queue, closed, device);
      LogOnly(KillInflight(l.queue, closed), KilledAll(closed, Reverse(l.devices[closed].ready)));
      InFlightIs(KillInflight(l.queue, closed), device);
      InFlightIs(l'.queue, device);
    case _ =>
  }

  lemma SubEmpty(a: seq<nat>)
    ensures Sub(a, []) ==> a == []
  {}
}
