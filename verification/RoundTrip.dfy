/**
 The whole way: cycles are flushed by the master, travel as a stream to the slave, and its replies travel
 back as a stream to the master.
 */
module RoundTrip {
  import opened Words
  import opened Lanes
  import opened Records
  import opened Operations
  import opened Bus
  import opened Interpreter
  import opened Packer
  import opened Responses
  import opened Delivery
  import opened EndToEnd
  import opened Wire
  import opened Flush
  import opened Packets
  import opened Stream
  import opened Chunks
  import Handlers

  /** What a reply word does to the responses of a socket. */
  ghost function TakeReply(q: Queue, size: nat, address: nat, value: nat): Queue {
    if QueueOk(q) then WriteConfig(q, size, address, value) else q
  }

  /** The library's own socket as the master's side sees it: whatever devices are attached, writes to its
      configuration space are replies. */
  lemma SocketTakesReplies(hs: seq<Handlers.Handler<Queue>>, version: nat, date: nat)
    requires Handlers.WellNamed(hs)
    ensures TakesReplies(Handlers.SocketEnv(hs, version, date, TakeReply))
  {
  }

  function SentOf(t: Transport, device: nat, time: nat, rba: nat, c: QueuedCycle): Sent
    requires t.Ok() && Validate(t.port, c.requests, 0).Valid?
  {
    Sent(Cycle(c.id, device, CycleOf(t, c)), c.checked, rba, Deadline(time))
  }

  /** The cycles a flush puts on the line, in queue order. */
  function Sents(t: Transport, device: nat, time: nat, s: Sender, cs: seq<QueuedCycle>, oom: nat -> bool): (sent: seq<Sent>)
    requires t.Ok() && SenderOk(t, s) && |s.cur| == 0 && Short(cs)
    decreases |cs|
  {
    if |cs| == 0 then [] else
      (if Accepts(t, s.rba, cs[0], oom(cs[0].id)) then [SentOf(t, device, time, s.rba, cs[0])] else [])
      + Sents(t, device, time, FlushCycle(t, device, time, s, cs[0], oom(cs[0].id)), cs[1..], oom)
  }

  lemma SentIs(t: Transport, device: nat, time: nat, rba: nat, c: QueuedCycle, oom: bool)
    requires t.Ok() && |c.requests| < NO_LIMIT && rba % 2 == 0 && rba < 0x1_0000 && Accepts(t, rba, c, oom)
    ensures var x := SentOf(t, device, time, rba, c);
            && Packable(t.port, x.cycle.ops, x.checked, x.rba) && Untouched(x.cycle.ops) && x.checked == c.checked
            && Packets.Request(t, rba, c, oom) == BytesOf(t.port, x)
  {
    hide Validate, CycleBytes, ValidOperation;
  }

  lemma SendableCons(port: Port, own: seq<Sent>, rest: seq<Sent>)
    requires Sendable(port, rest) && |own| <= 1
    requires |own| == 1 ==> Packable(port, own[0].cycle.ops, own[0].checked, own[0].rba)
    ensures Sendable(port, own + rest)
    ensures StreamBytes(port, own + rest) == (if |own| == 1 then BytesOf(port, own[0]) else []) + StreamBytes(port, rest)
    ensures Awaiting(own + rest) == (if |own| == 1 && NeedsReply(own[0].cycle.ops, own[0].checked)
                                     then [NewResponse(own[0].cycle, own[0].rba, own[0].deadline, own[0].checked)] else []) + Awaiting(rest)
  {
    hide BytesOf, Packable, NeedsReply, NewResponse;
    if |own| == 1 {
      assert (own + rest)[1..] == rest;
    } else {
      assert own + rest == rest;
      assert [] + StreamBytes(port, rest) == StreamBytes(port, rest);
      assert [] + Awaiting(rest) == Awaiting(rest);
    }
  }

  /** The responses a flush leaves waiting are those of the cycles it put on the line, behind the older
      ones, and what it sends is their bytes. */
  lemma {:induction false} FlushSends(t: Transport, device: nat, time: nat, s: Sender, cs: seq<QueuedCycle>, oom: nat -> bool)
    requires t.Ok() && SenderOk(t, s) && |s.cur| == 0 && Short(cs) && QueueOk(s.queue)
    ensures QueueOk(FlushCycles(t, device, time, s, cs, oom).queue)
    ensures var sent := Sents(t, device, time, s, cs, oom);
            && Sendable(t.port, sent)
            && Flatten(AcceptedRequests(t, device, time, s, cs, oom)) == StreamBytes(t.port, sent)
            && Fifo(FlushCycles(t, device, time, s, cs, oom).queue) == Fifo(s.queue) + Awaiting(sent)
            && (forall i | 0 <= i < |sent| :: Untouched(sent[i].cycle.ops))
    decreases |cs|
  {
    hide Packets.Request, Accepts, FlushCycle, Fifo, Awaiting, StreamBytes, BytesOf, Packable, Untouched, NeedsReply, NewResponse, SentOf, Sendable, QueueOk;
    if |cs| == 0 {
      NothingSent(t.port);
      assert Fifo(s.queue) + [] == Fifo(s.queue);
    } else {
      var c, o := cs[0], oom(cs[0].id);
      var s1 := FlushCycle(t, device, time, s, c, o);
      var accepted := Accepts(t, s.rba, c, o);
      FlushCycleCorrect(t, device, time, s, c, o);
      FateQueue(t, device, time, s, s1, c, o);
      FlushSends(t, device, time, s1, cs[1..], oom);
      var rest := Sents(t, device, time, s1, cs[1..], oom);
      var own := if accepted then [SentOf(t, device, time, s.rba, c)] else [];
      if accepted {
        SentIs(t, device, time, s.rba, c, o);
      }
      SendableCons(t.port, own, rest);
      FlattenOwn(if accepted then Packets.Request(t, s.rba, c, o) else [], accepted, AcceptedRequests(t, device, time, s1, cs[1..], oom));
      Regroup(Fifo(s.queue), OwnAwaiting(t, device, time, s.rba, c, o), Awaiting(rest));
    }
  }

  lemma NothingSent(port: Port)
    requires port.Valid()
    ensures Sendable(port, []) && StreamBytes(port, []) == [] && Awaiting([]) == [] && Flatten([]) == []
  {
  }

  /** The response a cycle leaves waiting, if any. */
  function OwnAwaiting(t: Transport, device: nat, time: nat, rba: nat, c: QueuedCycle, oom: bool): seq<Response>
    requires t.Ok() && |c.requests| < NO_LIMIT && rba % 2 == 0 && rba < 0x1_0000
  {
    if Accepts(t, rba, c, oom) && NeedsReply(SentOf(t, device, time, rba, c).cycle.ops, c.checked)
    then var x := SentOf(t, device, time, rba, c); [NewResponse(x.cycle, x.rba, x.deadline, x.checked)] else []
  }

  lemma FateQueue(t: Transport, device: nat, time: nat, s: Sender, out: Sender, c: QueuedCycle, oom: bool)
    requires t.Ok() && |c.requests| < NO_LIMIT && s.rba % 2 == 0 && s.rba < 0x1_0000 && FateOf(t, device, time, s, out, c, oom)
    ensures Fifo(out.queue) == Fifo(s.queue) + OwnAwaiting(t, device, time, s.rba, c, oom)
    ensures QueueOk(s.queue) ==> QueueOk(out.queue)
  {
    hide Accepts, NeedsReply, NewResponse, CycleOf, Validate;
    if Accepts(t, s.rba, c, oom) && NeedsReply(CycleOf(t, c), c.checked) {
      EnqueueIsLast(s.queue, NewResponse(Cycle(c.id, device, CycleOf(t, c)), s.rba, Deadline(time), c.checked));
    } else {
      assert Fifo(s.queue) + [] == Fifo(s.queue);
    }
  }

  /** From a flush to its callbacks: whatever way the request stream and the reply stream are cut, as long
      as both connections survive, the slave's bus ends as direct execution of the accepted cycles in
      queue order leaves it, and each awaited cycle is called back once, in order, with the results of
      direct execution. Responses that were waiting before stay untouched. Only reads of the error register
      that are not settled depend on the way the requests were cut. */
  lemma FlushedRoundTrip<S(!new)>(env: Env<S>, menv: Env<Queue>, t: Transport, device: nat, time: nat, s: Sender, cs: seq<QueuedCycle>, oom: nat -> bool,
    bus: S, requests: seq<seq<byte>>, replies: seq<seq<byte>>)
    requires t.Ok() && t.mtu == 0 && SenderOk(t, s) && |s.cur| == 0 && |s.done| == 0 && |s.sent| == 0 && Short(cs)
    requires var sent := Sents(t, device, time, s, cs, oom);
             var out := Finish(t, FlushCycles(t, device, time, s, cs, oom));
             && TakesReplies(menv) && QueueOk(s.queue) && Apart(Fifo(s.queue), sent)
             && Pieces(requests) && Joined(requests) == Flatten(out.sent)
             && Pieces(replies) && Joined(replies) == Deliver(env, t.port, AtRest(bus), requests).1
             && !Deliver(env, t.port, AtRest(bus), requests).0.dead && !Deliver(menv, t.port, AtRest(out.queue), replies).0.dead
    ensures var sent := Sents(t, device, time, s, cs, oom);
            var out := Finish(t, FlushCycles(t, device, time, s, cs, oom));
            var slave := Deliver(env, t.port, AtRest(bus), requests).0;
            var master := Deliver(menv, t.port, AtRest(out.queue), replies).0;
            && Sendable(t.port, sent) && (forall i | 0 <= i < |sent| :: ValidOperations(t.port, sent[i].cycle.ops))
            && slave.idle && master.kept == []
            && slave.ss.m.s == Direct(env, t.port, bus, sent).0
            && Fifo(master.ss.m.s) == Fifo(s.queue)
            && master.ss.m.s.log
               == out.queue.log + DirectFrom(env, t.port, Machine(bus, 0), sent, Restarts(t.port, sent, 0, requests)).1
            && (AllSteady(t.port, sent) ==> master.ss.m.s.log == out.queue.log + Direct(env, t.port, bus, sent).1)
  {
    hide *;
    ShortIs(cs);
    var sent := Sents(t, device, time, s, cs, oom);
    var mid := FlushCycles(t, device, time, s, cs, oom);
    FlushSends(t, device, time, s, cs, oom);
    StreamPacking(t, device, time, s, cs, oom);
    Emptied(t, s, mid);
    SendableIs(t.port, sent);
    var older := Fifo(s.queue);
    assert [] + [] + StreamBytes(t.port, sent) == StreamBytes(t.port, sent);
    assert older + Awaiting(sent) + [] == older + Awaiting(sent) && older + [] == older;
    NoneOk(s.queue);
    StreamEndToEnd(env, menv, t.port, bus, mid.queue, sent, older, [], requests, replies);
  }

  lemma ShortIs(cs: seq<QueuedCycle>)
    requires Short(cs)
    ensures forall i | 0 <= i < |cs| :: |cs[i].requests| < NO_LIMIT
  {
  }

  lemma NoneOk(q: Queue)
    requires QueueOk(q)
    ensures AllOk([]) && AllOk(Fifo(q))
  {
    ReverseOk(q.last);
  }

  /** Sending the rest of the buffer changes neither the queue nor what came before. */
  lemma Emptied(t: Transport, s: Sender, mid: Sender)
    requires t.Ok()
    ensures Finish(t, mid).queue == mid.queue
    ensures |s.sent| == 0 ==> Flatten(s.sent) == []
    ensures t.port.Valid()
  {
  }

  lemma SendableIs(port: Port, sent: seq<Sent>)
    requires Sendable(port, sent)
    requires forall i | 0 <= i < |sent| :: Untouched(sent[i].cycle.ops)
    ensures port.Valid() && Clean(port, sent)
    ensures forall i | 0 <= i < |sent| :: ValidOperations(port, sent[i].cycle.ops)
  {
  }
}
