/**
 A flush at any point of the life of the library: the round trips hold after every run whose oldest waiting
 response is young enough for its return address not to have come round again.
 */
module InRuns {
  import opened Words
  import opened Lanes
  import opened Operations
  import opened Bus
  import opened Packer
  import opened Responses
  import opened Delivery
  import opened EndToEnd
  import opened Wire
  import opened Flush
  import opened Packets
  import opened Stream
  import opened Chunks
  import opened RoundTrip
  import opened DatagramDelivery
  import opened Lifecycle
  import opened Ages
  import Order
  import Fates

  /** The cycles take the turns from `n` on, and those that wait for a reply use one up. */
  ghost predicate InTurns(sent: seq<Sent>, n: nat) {
    forall i | 0 <= i < |sent| :: sent[i].rba == Claim(n + |Awaiting(sent[..i])|)
  }

  /** What a flushed cycle adds to those on the line. */
  function OwnSent(t: Transport, device: nat, time: nat, rba: nat, c: QueuedCycle, oom: bool): (own: seq<Sent>)
    requires t.Ok() && |c.requests| < NO_LIMIT && rba % 2 == 0 && rba < 0x1_0000
    ensures |own| <= 1 && (|own| == 1 ==> own[0].rba == rba)
  {
    if Accepts(t, rba, c, oom) then [SentOf(t, device, time, rba, c)] else []
  }

  /** How many turns it takes. */
  function Turns(own: seq<Sent>): (n: nat) {
    if |own| == 1 && NeedsReply(own[0].cycle.ops, own[0].checked) then 1 else 0
  }

  /** The cycles of a flush take the next turns. */
  lemma {:induction false} SentTurns(t: Transport, device: nat, time: nat, s: Sender, cs: seq<QueuedCycle>, oom: nat -> bool, n: nat)
    requires t.Ok() && SenderOk(t, s) && |s.cur| == 0 && Short(cs) && s.rba == Claim(n)
    ensures InTurns(Sents(t, device, time, s, cs, oom), n)
    decreases |cs|
  {
    hide Accepts, FlushCycle, SentBy, Claim, Awaiting, FateOf, SentOf, Turns;
    if |cs| > 0 {
      var c, o := cs[0], oom(cs[0].id);
      var s1 := FlushCycle(t, device, time, s, c, o);
      FlushCycleCorrect(t, device, time, s, c, o);
      FateTurn(t, device, time, s, s1, c, o, n);
      var own := OwnSent(t, device, time, s.rba, c, o);
      SentTurns(t, device, time, s1, cs[1..], oom, n + Turns(own));
      JoinTurns(own, Sents(t, device, time, s1, cs[1..], oom), n);
    }
  }

  /** One more cycle in front. */
  lemma JoinTurns(own: seq<Sent>, rest: seq<Sent>, n: nat)
    requires |own| <= 1 && (|own| == 1 ==> own[0].rba == Claim(n)) && InTurns(rest, n + Turns(own))
    ensures InTurns(own + rest, n)
  {
    hide Claim, Turns, Awaiting;
    var all := own + rest;
    forall i | 0 <= i < |all| ensures all[i].rba == Claim(n + |Awaiting(all[..i])|) {
      if i < |own| {
        assert all[..i] == [];
        NoneAwaiting();
      } else {
        var k := i - |own|;
        assert all[..i] == own + rest[..k] && all[i] == rest[k];
        AwaitingOwn(own, rest[..k]);
      }
    }
  }

  lemma NoneAwaiting()
    ensures Awaiting([]) == []
  {}

  lemma FateTurn(t: Transport, device: nat, time: nat, s: Sender, out: Sender, c: QueuedCycle, oom: bool, n: nat)
    requires t.Ok() && |c.requests| < NO_LIMIT && s.rba % 2 == 0 && s.rba < 0x1_0000 && FateOf(t, device, time, s, out, c, oom)
    requires s.rba == Claim(n)
    ensures out.rba == Claim(n + Turns(OwnSent(t, device, time, s.rba, c, oom)))
  {
    hide Accepts, NeedsReply, Claim, NextRba;
    NextClaim(n);
  }

  lemma AwaitingOwn(own: seq<Sent>, rest: seq<Sent>)
    requires |own| <= 1
    ensures |Awaiting(own + rest)| == |Awaiting(rest)| + Turns(own)
  {
    hide NeedsReply, NewResponse;
    AwaitingConcat(own, rest);
    if |own| == 1 {
      assert own[1..] == [];
    }
  }

  /** When `k` more responses are set up, the oldest of those waiting is still one of the last 16384. */
  predicate Young(steps: seq<Step>, k: nat)
    requires Runs(INITIAL, steps)
  {
    |Births(steps)| > 0 ==> Issued(INITIAL, steps) + k < Births(steps)[0].index + 0x4000
  }

  /** What a flush of the device sends. */
  function Flushed(l: Library, device: nat, noMemory: nat -> bool): Sender
    requires LibraryOk(l) && Possible(l, FlushDevice(device, noMemory))
  {
    var d := l.devices[device];
    ShortReverse(d.ready);
    assert SenderOk(d.t, SenderOf(l));
    Finish(d.t, FlushCycles(d.t, device, l.clock, SenderOf(l), Reverse(d.ready), noMemory))
  }

  /** The cycles it puts on the line. */
  function FlushedCycles(l: Library, device: nat, noMemory: nat -> bool): seq<Sent>
    requires LibraryOk(l) && Possible(l, FlushDevice(device, noMemory))
  {
    var d := l.devices[device];
    ShortReverse(d.ready);
    assert SenderOk(d.t, SenderOf(l));
    Sents(d.t, device, l.clock, SenderOf(l), Reverse(d.ready), noMemory)
  }

  lemma FlushedIs(l: Library, device: nat, noMemory: nat -> bool)
    requires LibraryOk(l) && Possible(l, FlushDevice(device, noMemory))
    ensures device < |l.devices|
    ensures var d := l.devices[device];
            && d.t.Ok() && Short(Reverse(d.ready)) && SenderOk(d.t, SenderOf(l)) && QueueOk(l.queue)
            && FlushedCycles(l, device, noMemory) == Sents(d.t, device, l.clock, SenderOf(l), Reverse(d.ready), noMemory)
            && Flushed(l, device, noMemory) == Finish(d.t, FlushCycles(d.t, device, l.clock, SenderOf(l), Reverse(d.ready), noMemory))
            && Next(l, FlushDevice(device, noMemory)).queue == Flushed(l, device, noMemory).queue
  {
    hide FlushCycles, Sents, Transport.Ok, Reverse, Short, QueueState;
    ShortReverse(l.devices[device].ready);
  }

  /** No waiting response shares a return address with a cycle of the flush. */
  lemma ApartInRun(steps: seq<Step>, device: nat, noMemory: nat -> bool)
    requires Runs(INITIAL, steps) && Possible(After(INITIAL, steps), FlushDevice(device, noMemory))
    requires Young(steps, |Awaiting(FlushedCycles(After(INITIAL, steps), device, noMemory))|)
    ensures var l := After(INITIAL, steps); Apart(Fifo(l.queue), FlushedCycles(l, device, noMemory))
  {
    hide *;
    NothingBorn(false);
    var l, bs, n := After(INITIAL, steps), Births(steps), Issued(INITIAL, steps);
    AddressesInOrder(steps);
    FlushedIs(l, device, noMemory);
    var d, sent := l.devices[device], FlushedCycles(l, device, noMemory);
    SenderIs(l);
    SentTurns(d.t, device, l.clock, SenderOf(l), Reverse(d.ready), noMemory, n);
    YoungSays(steps, |Awaiting(sent)|);
    TurnsApart(Fifo(l.queue), bs, n, sent);
  }

  lemma SenderIs(l: Library)
    ensures SenderOf(l) == Sender([], [], [], l.queue, l.rba)
  {}

  lemma YoungSays(steps: seq<Step>, k: nat)
    requires Runs(INITIAL, steps) && Young(steps, k)
    ensures |Births(steps)| > 0 ==> Issued(INITIAL, steps) + k < Births(steps)[0].index + 0x4000
  {}

  lemma TurnsApart(rs: seq<Response>, bs: seq<Birth>, n: nat, sent: seq<Sent>)
    requires |bs| == |rs| && forall i | 0 <= i < |rs| :: rs[i].address == Claim(bs[i].index) && bs[i].index < n
    requires forall i, j | 0 <= i < j < |bs| :: bs[i].index < bs[j].index
    requires |bs| > 0 ==> n + |Awaiting(sent)| < bs[0].index + 0x4000
    requires InTurns(sent, n)
    ensures Apart(rs, sent)
  {
    hide Claim, Awaiting;
    forall i, m | 0 <= i < |sent| && 0 <= m < |rs| ensures rs[m].address != sent[i].rba {
      AwaitingSplit(sent, i);
      var j := n + |Awaiting(sent[..i])|;
      assert bs[0].index <= bs[m].index;
      SharedAddressIff(j, bs[m].index);
      SmallRemainder(j - bs[m].index, 0x4000);
    }
  }

  lemma AwaitingSplit(sent: seq<Sent>, i: nat)
    requires i <= |sent|
    ensures Awaiting(sent) == Awaiting(sent[..i]) + Awaiting(sent[i..])
  {
    hide *;
    assert sent[..i] + sent[i..] == sent;
    AwaitingConcat(sent[..i], sent[i..]);
  }

  // The operations that go out are those that were queued.

  /** The cycles that were closed, in the order of the calls. */
  function Closings(p: seq<Step>): (ids: seq<nat>) {
    if |p| == 0 then [] else (if p[0].Close? then [p[0].id] else []) + Closings(p[1..])
  }

  function SentIds(sent: seq<Sent>): seq<nat> {
    if |sent| == 0 then [] else [sent[0].cycle.id] + SentIds(sent[1..])
  }

  /** A cycle on the line is one that was opened on the device, and carries what was queued into it, in the order of
      the calls, each operation as validation accepted it. */
  ghost predicate FilledAs(steps: seq<Step>, port: Port, device: nat, x: Sent)
    requires port.Valid()
  {
    var reqs := Fates.Fills(steps, x.cycle.id);
    && x.cycle.device == device && Fates.OpenedOn(steps, x.cycle.id, device) && !Fates.RanOut(steps, x.cycle.id)
    && |x.cycle.ops| == |reqs| && (forall k | 0 <= k < |reqs| :: Check(port, reqs[k]) == Accepted(x.cycle.ops[k]))
    && (x.checked <==> Fates.CheckedIn(steps, x.cycle.id))
  }

  /** So do all of them, and they stand in the order in which they were closed. */
  ghost predicate AsQueued(steps: seq<Step>, port: Port, device: nat, sent: seq<Sent>)
    requires port.Valid()
  {
    && device < |Fates.Devices(steps)| && Fates.Devices(steps)[device].t.port == port
    && Order.Sub(SentIds(sent), Closings(steps)) && forall i | 0 <= i < |sent| :: FilledAs(steps, port, device, sent[i])
  }

  /** A ready cycle that went out. */
  ghost predicate SentFrom(t: Transport, device: nat, c: QueuedCycle, x: Sent)
    requires t.Ok()
  {
    && Validate(t.port, c.requests, 0).Valid? && x.cycle == Cycle(c.id, device, CycleOf(t, c)) && x.checked == c.checked
    && !c.dead && |c.requests| > 0
  }

  ghost predicate FromAny(t: Transport, device: nat, cs: seq<QueuedCycle>, x: Sent)
    requires t.Ok()
  {
    exists k | 0 <= k < |cs| :: SentFrom(t, device, cs[k], x)
  }

  lemma FirstOrLater(t: Transport, device: nat, cs: seq<QueuedCycle>, own: seq<Sent>, rest: seq<Sent>)
    requires t.Ok() && |cs| > 0 && (forall i | 0 <= i < |own| :: SentFrom(t, device, cs[0], own[i]))
    requires forall i | 0 <= i < |rest| :: FromAny(t, device, cs[1..], rest[i])
    ensures forall i | 0 <= i < |own + rest| :: FromAny(t, device, cs, (own + rest)[i])
  {
    hide SentFrom;
    forall i | 0 <= i < |own + rest| ensures FromAny(t, device, cs, (own + rest)[i]) {
      if i >= |own| {
        var k :| 0 <= k < |cs[1..]| && SentFrom(t, device, cs[1..][k], rest[i - |own|]);
        assert SentFrom(t, device, cs[k + 1], (own + rest)[i]);
      }
    }
  }

  lemma {:induction false} SentsFrom(t: Transport, device: nat, time: nat, s: Sender, cs: seq<QueuedCycle>, oom: nat -> bool)
    requires t.Ok() && SenderOk(t, s) && |s.cur| == 0 && Short(cs)
    ensures var sent := Sents(t, device, time, s, cs, oom);
            && (forall i | 0 <= i < |sent| :: FromAny(t, device, cs, sent[i]))
            && Order.Sub(SentIds(sent), Order.ReadyIds(cs))
    decreases |cs|
  {
    hide FlushCycle, SentBy, Accepts, SentOf, SentFrom, FromAny, FateOf, Order.Sub;
    if |cs| == 0 {
      Order.SubSelf([]);
    } else {
      var c, o := cs[0], oom(cs[0].id);
      var s1 := FlushCycle(t, device, time, s, c, o);
      FlushCycleCorrect(t, device, time, s, c, o);
      SentsFrom(t, device, time, s1, cs[1..], oom);
      var own, rest := OwnSent(t, device, time, s.rba, c, o), Sents(t, device, time, s1, cs[1..], oom);
      FirstFrom(t, device, time, s.rba, c, o);
      FirstOrLater(t, device, cs, own, rest);
      FirstInOrder(own, rest, c, cs[1..]);
      assert [c] + cs[1..] == cs;
    }
  }

  lemma FirstFrom(t: Transport, device: nat, time: nat, rba: nat, c: QueuedCycle, oom: bool)
    requires t.Ok() && |c.requests| < NO_LIMIT && rba % 2 == 0 && rba < 0x1_0000
    ensures var own := OwnSent(t, device, time, rba, c, oom);
            |own| == 1 ==> SentFrom(t, device, c, own[0]) && own[0].cycle.id == c.id
  {
    hide Packets.Request, Validate, CycleOf;
  }

  lemma {:induction false} FirstInOrder(own: seq<Sent>, rest: seq<Sent>, c: QueuedCycle, cs: seq<QueuedCycle>)
    requires |own| <= 1 && (|own| == 1 ==> own[0].cycle.id == c.id) && Order.Sub(SentIds(rest), Order.ReadyIds(cs))
    ensures Order.Sub(SentIds(own + rest), Order.ReadyIds([c] + cs))
  {
    assert ([c] + cs)[1..] == cs;
    if |own| == 1 {
      assert (own + rest)[1..] == rest;
    } else {
      assert own + rest == rest;
    }
  }

  lemma {:induction false} ReverseHas<T>(s: seq<T>, k: nat) returns (j: nat)
    requires k < |s|
    ensures j < |s| && Reverse(s)[k] == s[j]
  {
    if k == |s| - 1 {
      j := 0;
    } else {
      j := ReverseHas(s[1..], k);
      j := j + 1;
    }
  }

  lemma {:induction false} ClosedAreClosings(l: Library, steps: seq<Step>, device: nat)
    requires LibraryOk(l) && Runs(l, steps)
    ensures Order.Sub(Order.ClosedOn(l, steps, device), Closings(steps))
    decreases |steps|
  {
    hide LibraryOk, Possible, Next, Order.Sub;
    if |steps| == 0 {
      Order.SubSelf([]);
    } else {
      ClosedAreClosings(Next(l, steps[0]), steps[1..], device);
      var a, b := Order.ClosedBy(l, steps[0], device), if steps[0].Close? then [steps[0].id] else [];
      ClosedByIs(l, steps[0], device);
      Order.SubConcat(a, b, Order.ClosedOn(Next(l, steps[0]), steps[1..], device), Closings(steps[1..]));
    }
  }

  lemma ClosedByIs(l: Library, step: Step, device: nat)
    ensures Order.Sub(Order.ClosedBy(l, step, device), if step.Close? then [step.id] else [])
  {
  }

  lemma {:induction false} SubOfSuffix(a: seq<nat>, b: seq<nat>)
    ensures Order.Sub(b, a + b)
    decreases |a|
  {
    if |a| == 0 {
      assert a + b == b;
      Order.SubSelf(b);
    } else {
      assert (a + b)[1..] == a[1..] + b;
      SubOfSuffix(a[1..], b);
      Order.SubWider(b, a + b);
    }
  }

  /** After every run the ready cycles of a device stand in the order in which they were closed. */
  lemma ReadyInOrder(steps: seq<Step>, device: nat)
    requires Runs(INITIAL, steps) && device < |After(INITIAL, steps).devices|
    ensures Order.Sub(Order.ReadyIds(Reverse(After(INITIAL, steps).devices[device].ready)), Closings(steps))
  {
    hide *;
    NothingBorn(false);
    Order.NothingAtFirst(device);
    NoDevicesAtFirst();
    var l := After(INITIAL, steps);
    Order.FromStart(INITIAL, steps, device);
    ClosedAreClosings(INITIAL, steps, device);
    var ready := Order.ReadyIds(Reverse(l.devices[device].ready));
    WaitingIs(l, device);
    SubOfSuffix(Order.InFlight(l.queue, device), ready);
    Order.SubTransitive(ready, Order.Waiting(l, device), Order.ClosedOn(INITIAL, steps, device));
    Order.SubTransitive(ready, Order.ClosedOn(INITIAL, steps, device), Closings(steps));
  }

  lemma NoDevicesAtFirst()
    ensures |INITIAL.devices| == 0
  {}

  lemma WaitingIs(l: Library, device: nat)
    requires device < |l.devices|
    ensures Order.Waiting(l, device) == Order.InFlight(l.queue, device) + Order.ReadyIds(Reverse(l.devices[device].ready))
  {}

  /** After every run, what a flush puts on the line is what was queued, in order. */
  lemma FlushedAsQueued(steps: seq<Step>, l: Library, device: nat, noMemory: nat -> bool)
    requires Runs(INITIAL, steps) && l == After(INITIAL, steps) && Possible(l, FlushDevice(device, noMemory))
    ensures device < |l.devices| && l.devices[device].t.port.Valid()
    ensures AsQueued(steps, l.devices[device].t.port, device, FlushedCycles(l, device, noMemory))
  {
    hide *;
    NothingBorn(false);
    FlushedIs(l, device, noMemory);
    SenderIs(l);
    var t, ready := l.devices[device].t, l.devices[device].ready;
    PortValid(t);
    var sent := FlushedCycles(l, device, noMemory);
    SentsFrom(t, device, l.clock, SenderOf(l), Reverse(ready), noMemory);
    ReadyInOrder(steps, device);
    Order.SubTransitive(SentIds(sent), Order.ReadyIds(Reverse(ready)), Closings(steps));
    Fates.DeviceAsAsked(steps, device);
    forall i | 0 <= i < |sent| ensures FilledAs(steps, t.port, device, sent[i]) {
      var k := AnyFrom(t, device, Reverse(ready), sent[i]);
      var j := ReverseHas(ready, k);
      Fates.ReadyAsAsked(steps, device, j);
      SentFilled(steps, t, device, ready[j], sent[i]);
    }
    QueuedIs(steps, t.port, device, sent);
  }

  lemma AnyFrom(t: Transport, device: nat, cs: seq<QueuedCycle>, x: Sent) returns (k: nat)
    requires t.Ok() && FromAny(t, device, cs, x)
    ensures k < |cs| && SentFrom(t, device, cs[k], x)
  {
    hide SentFrom;
    k :| 0 <= k < |cs| && SentFrom(t, device, cs[k], x);
  }

  lemma PortValid(t: Transport)
    requires t.Ok()
    ensures t.port.Valid()
  {}

  lemma SentFilled(steps: seq<Step>, t: Transport, device: nat, c: QueuedCycle, x: Sent)
    requires t.Ok() && SentFrom(t, device, c, x) && Fates.AsAsked(steps, device, c)
    ensures FilledAs(steps, t.port, device, x)
  {
    hide Fates.OpenedOn, Fates.RanOut, Fates.Fills, Fates.CheckedIn, Check;
    ValidateExact(t.port, c.requests, 0);
  }

  lemma QueuedIs(steps: seq<Step>, port: Port, device: nat, sent: seq<Sent>)
    requires port.Valid() && device < |Fates.Devices(steps)| && Fates.Devices(steps)[device].t.port == port
    requires Order.Sub(SentIds(sent), Closings(steps)) && forall i | 0 <= i < |sent| :: FilledAs(steps, port, device, sent[i])
    ensures AsQueued(steps, port, device, sent)
  {}

  /** The cycles `sent` have gone the whole way: the device is where direct execution leaves it, the older
      responses still wait, and behind the callbacks of the flush each awaited cycle had its own, with the
      results of direct execution; where the error register was cleared only unsettled reads can tell. */
  ghost predicate Arrived<S>(env: Env<S>, port: Port, bus: S, sent: seq<Sent>, restarts: seq<bool>, slave: S,
    older: Queue, flushed: Queue, master: Queue)
  {
    && Sendable(port, sent) && port.Valid() && |restarts| == |sent|
    && (forall i | 0 <= i < |sent| :: ValidOperations(port, sent[i].cycle.ops))
    && slave == Direct(env, port, bus, sent).0 && Fifo(master) == Fifo(older)
    && master.log == flushed.log + DirectFrom(env, port, Machine(bus, 0), sent, restarts).1
    && (AllSteady(port, sent) ==> master.log == flushed.log + Direct(env, port, bus, sent).1)
  }

  /** A stream device whose flush is about to go out, and the way its bytes and the replies are cut. */
  ghost predicate OnStream<S(!new)>(env: Env<S>, menv: Env<Queue>, port: Port, bus: S, out: Sender,
    requests: seq<seq<byte>>, replies: seq<seq<byte>>)
  {
    && port.Valid() && Pieces(requests) && Joined(requests) == Flatten(out.sent)
    && Pieces(replies) && Joined(replies) == Deliver(env, port, AtRest(bus), requests).1
    && !Deliver(env, port, AtRest(bus), requests).0.dead && !Deliver(menv, port, AtRest(out.queue), replies).0.dead
  }

  lemma StreamFlush<S(!new)>(l: Library, device: nat, noMemory: nat -> bool, env: Env<S>, menv: Env<Queue>, port: Port, bus: S,
    requests: seq<seq<byte>>, replies: seq<seq<byte>>)
    requires LibraryOk(l) && Possible(l, FlushDevice(device, noMemory)) && TakesReplies(menv)
    requires Apart(Fifo(l.queue), FlushedCycles(l, device, noMemory)) && device < |l.devices|
    requires l.devices[device].t.mtu == 0 && l.devices[device].t.port == port
    requires OnStream(env, menv, port, bus, Flushed(l, device, noMemory), requests, replies)
    ensures Sendable(port, FlushedCycles(l, device, noMemory)) && port.Valid()
    ensures var out, sent := Flushed(l, device, noMemory), FlushedCycles(l, device, noMemory);
            Arrived(env, port, bus, sent, Restarts(port, sent, 0, requests), Deliver(env, port, AtRest(bus), requests).0.ss.m.s,
                    l.queue, out.queue, Deliver(menv, port, AtRest(out.queue), replies).0.ss.m.s)
  {
    hide *;
    FlushedIs(l, device, noMemory);
    SenderIs(l);
    StreamIs(env, menv, port, bus, Flushed(l, device, noMemory), requests, replies);
    FlushedRoundTrip(env, menv, l.devices[device].t, device, l.clock, SenderOf(l), Reverse(l.devices[device].ready), noMemory,
      bus, requests, replies);
    var out, sent := Flushed(l, device, noMemory), FlushedCycles(l, device, noMemory);
    ArrivedIs(env, port, bus, sent, Restarts(port, sent, 0, requests), Deliver(env, port, AtRest(bus), requests).0.ss.m.s,
      l.queue, out.queue, Deliver(menv, port, AtRest(out.queue), replies).0.ss.m.s);
  }

  lemma StreamIs<S(!new)>(env: Env<S>, menv: Env<Queue>, port: Port, bus: S, out: Sender, requests: seq<seq<byte>>, replies: seq<seq<byte>>)
    requires OnStream(env, menv, port, bus, out, requests, replies)
    ensures port.Valid() && Pieces(requests) && Joined(requests) == Flatten(out.sent)
    ensures Pieces(replies) && Joined(replies) == Deliver(env, port, AtRest(bus), requests).1
    ensures !Deliver(env, port, AtRest(bus), requests).0.dead && !Deliver(menv, port, AtRest(out.queue), replies).0.dead
  {
    hide Deliver, Joined, Pieces, Flatten;
  }

  lemma ArrivedIs<S>(env: Env<S>, port: Port, bus: S, sent: seq<Sent>, restarts: seq<bool>, slave: S, older: Queue, flushed: Queue, master: Queue)
    requires Sendable(port, sent) && port.Valid() && |restarts| == |sent|
    requires forall i | 0 <= i < |sent| :: ValidOperations(port, sent[i].cycle.ops)
    requires slave == Direct(env, port, bus, sent).0 && Fifo(master) == Fifo(older)
    requires master.log == flushed.log + DirectFrom(env, port, Machine(bus, 0), sent, restarts).1
    requires AllSteady(port, sent) ==> master.log == flushed.log + Direct(env, port, bus, sent).1
    ensures Arrived(env, port, bus, sent, restarts, slave, older, flushed, master)
  {
    hide Direct, DirectFrom, Fifo, AllSteady, Sendable, ValidOperations;
  }

  lemma DatagramFlush<S(!new)>(l: Library, device: nat, noMemory: nat -> bool, env: Env<S>, menv: Env<Queue>, port: Port, bus: S)
    requires LibraryOk(l) && Possible(l, FlushDevice(device, noMemory)) && TakesReplies(menv) && port.Valid()
    requires Apart(Fifo(l.queue), FlushedCycles(l, device, noMemory)) && device < |l.devices|
    requires l.devices[device].t.mtu != 0 && l.devices[device].t.port == port
    ensures Sendable(port, FlushedCycles(l, device, noMemory))
    ensures forall i | 0 <= i < |Flushed(l, device, noMemory).sent| :: |Flushed(l, device, noMemory).sent[i]| >= port.RecordAlignment()
    ensures var out, sent := Flushed(l, device, noMemory), FlushedCycles(l, device, noMemory);
            var slave := Exchange(env, port, bus, out.sent);
            Arrived(env, port, bus, sent, Restarts(port, sent, 0, Payloads(port, out.sent)), slave.0,
                    l.queue, out.queue, Exchange(menv, port, out.queue, slave.1).0)
  {
    hide *;
    FlushedIs(l, device, noMemory);
    SenderIs(l);
    DatagramRoundTrip(env, menv, l.devices[device].t, device, l.clock, SenderOf(l), Reverse(l.devices[device].ready), noMemory, bus);
    var out, sent := Flushed(l, device, noMemory), FlushedCycles(l, device, noMemory);
    var slave := Exchange(env, port, bus, out.sent);
    ArrivedIs(env, port, bus, sent, Restarts(port, sent, 0, Payloads(port, out.sent)), slave.0,
      l.queue, out.queue, Exchange(menv, port, out.queue, slave.1).0);
  }

  /** The library is in a state that a run from the start reaches, and when the device is flushed its oldest
      response is young. */
  ghost predicate YoungAfter(steps: seq<Step>, l: Library, device: nat, noMemory: nat -> bool) {
    && Runs(INITIAL, steps) && l == After(INITIAL, steps) && Possible(l, FlushDevice(device, noMemory))
    && Young(steps, |Awaiting(FlushedCycles(l, device, noMemory))|)
  }

  lemma YoungIsApart(steps: seq<Step>, l: Library, device: nat, noMemory: nat -> bool)
    requires YoungAfter(steps, l, device, noMemory)
    ensures LibraryOk(l) && Possible(l, FlushDevice(device, noMemory)) && device < |l.devices|
    ensures Apart(Fifo(l.queue), FlushedCycles(l, device, noMemory))
  {
    ApartInRun(steps, device, noMemory);
  }

  lemma YoungAsQueued(steps: seq<Step>, l: Library, device: nat, noMemory: nat -> bool)
    requires YoungAfter(steps, l, device, noMemory)
    ensures LibraryOk(l) && Possible(l, FlushDevice(device, noMemory)) && device < |l.devices| && l.devices[device].t.port.Valid()
    ensures AsQueued(steps, l.devices[device].t.port, device, FlushedCycles(l, device, noMemory))
  {
    FlushedAsQueued(steps, l, device, noMemory);
  }

  /** After any run with a young oldest response, a flush of a stream device goes the whole way: whatever way
      requests and replies are cut, as long as both connections survive. */
  lemma StreamInRun<S(!new)>(steps: seq<Step>, l: Library, device: nat, noMemory: nat -> bool, env: Env<S>, menv: Env<Queue>, port: Port, bus: S,
    requests: seq<seq<byte>>, replies: seq<seq<byte>>)
    requires LibraryOk(l) && Possible(l, FlushDevice(device, noMemory)) && device < |l.devices|
    requires l.devices[device].t.mtu == 0 && l.devices[device].t.port == port
    requires TakesReplies(menv) && OnStream(env, menv, port, bus, Flushed(l, device, noMemory), requests, replies)
    requires YoungAfter(steps, l, device, noMemory)
    ensures Sendable(port, FlushedCycles(l, device, noMemory)) && port.Valid()
    ensures AsQueued(steps, port, device, FlushedCycles(l, device, noMemory))
    ensures var sent, flushed := FlushedCycles(l, device, noMemory), Next(l, FlushDevice(device, noMemory)).queue;
            Arrived(env, port, bus, sent, Restarts(port, sent, 0, requests), Deliver(env, port, AtRest(bus), requests).0.ss.m.s,
                    l.queue, flushed, Deliver(menv, port, AtRest(flushed), replies).0.ss.m.s)
  {
    hide *;
    FlushedIs(l, device, noMemory);
    YoungIsApart(steps, l, device, noMemory);
    YoungAsQueued(steps, l, device, noMemory);
    StreamFlush(l, device, noMemory, env, menv, port, bus, requests, replies);
  }

  /** The same for a device behind datagrams, in order and none lost. */
  lemma DatagramsInRun<S(!new)>(steps: seq<Step>, l: Library, device: nat, noMemory: nat -> bool, env: Env<S>, menv: Env<Queue>, port: Port, bus: S)
    requires LibraryOk(l) && Possible(l, FlushDevice(device, noMemory)) && device < |l.devices|
    requires l.devices[device].t.mtu != 0 && l.devices[device].t.port == port && port.Valid() && TakesReplies(menv)
    requires YoungAfter(steps, l, device, noMemory)
    ensures Sendable(port, FlushedCycles(l, device, noMemory))
    ensures AsQueued(steps, port, device, FlushedCycles(l, device, noMemory))
    ensures var out := Flushed(l, device, noMemory).sent; forall i | 0 <= i < |out| :: |out[i]| >= port.RecordAlignment()
    ensures var sent, flushed := FlushedCycles(l, device, noMemory), Next(l, FlushDevice(device, noMemory)).queue;
            var out := Flushed(l, device, noMemory).sent;
            var slave := Exchange(env, port, bus, out);
            Arrived(env, port, bus, sent, Restarts(port, sent, 0, Payloads(port, out)), slave.0,
                    l.queue, flushed, Exchange(menv, port, flushed, slave.1).0)
  {
    hide *;
    FlushedIs(l, device, noMemory);
    YoungIsApart(steps, l, device, noMemory);
    YoungAsQueued(steps, l, device, noMemory);
    DatagramFlush(l, device, noMemory, env, menv, port, bus);
  }
}
