/**
 How the library takes replies: reply words that a connection or a datagram brings are calls of the library,
 one by one.
 */
module Replying {
  import opened Words
  import opened Lanes
  import opened Records
  import opened Operations
  import opened Bus
  import opened Interpreter
  import opened Responses
  import opened EndToEnd
  import opened Stream
  import opened DatagramDelivery
  import opened Lifecycle
  import opened Expiry
  import opened Ages

  /** A slave that only notes the reply words it gets, as calls of the library. */
  function Noting(): Env<seq<Step>> {
    Env((s: seq<Step>, size: nat, b: nat, l: nat) => BusReply(s, 0, false),
        (s: seq<Step>, size: nat, b: nat, l: nat, v: nat) => BusReply(s, 0, false),
        (s: seq<Step>, size: nat, a: nat, v: nat) => s + [Reply(size, a, v)])
  }

  /** A slave that takes replies and whose devices leave the responses alone. */
  ghost predicate OnlyReplies(menv: Env<Queue>) {
    && TakesReplies(menv)
    && (forall q: Queue, size: nat, b: nat, a: nat :: menv.read(q, size, b, a).s == q)
    && (forall q: Queue, size: nat, b: nat, a: nat, v: nat :: menv.write(q, size, b, a, v).s == q)
  }

  /** The library has come to the queue by the calls noted. */
  ghost predicate Came(l: Library, steps: seq<Step>, q: Queue) {
    LibraryOk(l) && Runs(l, steps) && After(l, steps).queue == q && QueueOk(q)
  }

  lemma CameByOne(l: Library, steps: seq<Step>, q: Queue, size: nat, address: nat, value: nat)
    requires Came(l, steps, q) && size > 0
    ensures Came(l, steps + [Reply(size, address, value)], WriteConfig(q, size, address, value))
  {
    var l1, step := After(l, steps), Reply(size, address, value);
    NextReply(l1, step);
    hide Next, Possible, LibraryOk, QueueOk;
    RunOne(l1, step);
    RunsOn(l, steps, [step], [], 0);
  }

  lemma NextReply(l: Library, step: Step)
    requires LibraryOk(l) && step.Reply? && step.size > 0
    ensures Possible(l, step) && QueueOk(l.queue) && Next(l, step).queue == WriteConfig(l.queue, step.size, step.address, step.value)
  {}

  lemma {:induction false} WritesNoted(menv: Env<Queue>, port: Port, lane: Lane, fifo: bool, t: Target, m: Machine<Queue>, n: Machine<seq<Step>>,
    ws: seq<nat>, l: Library)
    requires OnlyReplies(menv) && lane.size > 0 && Came(l, n.s, m.s)
    ensures Came(l, ExecWrites(Noting(), port, lane, fifo, t, n, ws).s, ExecWrites(menv, port, lane, fifo, t, m, ws).s)
    decreases |ws|
  {
    hide Came, WriteConfig, FromLanes, Advance;
    if |ws| > 0 {
      CameOk(l, n.s, m.s);
      if t.ConfigTarget? && lane.ok {
        CameByOne(l, n.s, m.s, lane.size, t.a, FromLanes(ws[0], lane));
      }
      WritesNoted(menv, port, lane, fifo, if fifo then t else Advance(port, t), ExecWrite(menv, lane, t, m, ws[0]),
        ExecWrite(Noting(), lane, t, n, ws[0]), ws[1..], l);
    }
  }

  lemma CameOk(l: Library, steps: seq<Step>, q: Queue)
    requires Came(l, steps, q)
    ensures QueueOk(q)
  {}

  lemma {:induction false} ReadsNoted(menv: Env<Queue>, port: Port, lane: Lane, config: bool, m: Machine<Queue>, n: Machine<seq<Step>>, ras: seq<nat>)
    requires OnlyReplies(menv) && port.Valid() && lane.size <= 8
    ensures ExecReads(menv, port, lane, config, m, ras).0.s == m.s && ExecReads(Noting(), port, lane, config, n, ras).0.s == n.s
    decreases |ras|
  {
    hide ReadConfig, WordAddress, ToLanes, LowBig;
    if |ras| > 0 {
      ReadsNoted(menv, port, lane, config, ExecRead(menv, port, lane, config, m, ras[0]).0, ExecRead(Noting(), port, lane, config, n, ras[0]).0, ras[1..]);
    }
  }

  /** What a record does to the machine. */
  lemma RecordIs<S>(env: Env<S>, port: Port, ss: Session<S>, r: Record)
    requires port.Valid()
    ensures var lane, out := DecodeSelect(r.select, port.data), ExecRecord(env, port, ss, r).0;
            && out.closed == r.cyc && 1 <= lane.size <= 8
            && AfterWrites(env, port, ss.m, r).s == ExecWrites(env, port, lane, r.wff, WriteTarget(port, lane, r.wca, r.bwa), ss.m, r.values).s
            && out.m.s == ExecReads(env, port, lane, r.rca, AfterWrites(env, port, ss.m, r), r.addrs).0.s
  {
    hide DecodeSelect, ExecRead, ExecWrite, WriteTarget;
  }

  lemma RecordNoted(menv: Env<Queue>, port: Port, a: Session<Queue>, b: Session<seq<Step>>, r: Record, l: Library)
    requires OnlyReplies(menv) && port.Valid() && Came(l, b.m.s, a.m.s)
    ensures var x, y := ExecRecord(menv, port, a, r).0, ExecRecord(Noting(), port, b, r).0;
            Came(l, y.m.s, x.m.s) && x.closed == y.closed
  {
    hide *;
    var lane := DecodeSelect(r.select, port.data);
    RecordIs(menv, port, a, r);
    RecordIs(Noting(), port, b, r);
    WritesNoted(menv, port, lane, r.wff, WriteTarget(port, lane, r.wca, r.bwa), a.m, b.m, r.values, l);
    ReadsNoted(menv, port, lane, r.rca, AfterWrites(menv, port, a.m, r), AfterWrites(Noting(), port, b.m, r), r.addrs);
  }

  lemma {:induction false} ServeNoted(menv: Env<Queue>, port: Port, a: Session<Queue>, b: Session<seq<Step>>, input: seq<byte>, l: Library)
    requires OnlyReplies(menv) && port.Valid() && Came(l, b.m.s, a.m.s) && a.closed == b.closed
    ensures var x, y := Serve(menv, port, a, input), Serve(Noting(), port, b, input);
            Came(l, y.ss.m.s, x.ss.m.s) && x.ss.closed == y.ss.closed && x.rest == y.rest
    decreases |input|
  {
    hide Complete, RecordLength, ParseRecord, ExecRecord, EncodeAll, Came, Noting, OnlyReplies;
    if Complete(port, input) {
      LengthPositive(port, input);
      RecordNoted(menv, port, a, b, ParseRecord(port, input), l);
      ServeNoted(menv, port, ServeRecord(menv, port, a, input).0, ServeRecord(Noting(), port, b, input).0,
        input[RecordLength(port, input[2], input[3])..], l);
    }
  }

  /** Two connections that stand at the same place. */
  ghost predicate InLine(x: Line<Queue>, y: Line<seq<Step>>, l: Library) {
    Came(l, y.ss.m.s, x.ss.m.s) && x.ss.closed == y.ss.closed && x.kept == y.kept && x.idle == y.idle && x.dead == y.dead
  }

  lemma ReceiveNoted(menv: Env<Queue>, port: Port, x: Line<Queue>, y: Line<seq<Step>>, chunk: seq<byte>, l: Library)
    requires OnlyReplies(menv) && port.Valid() && InLine(x, y, l)
    ensures InLine(Receive(menv, port, x, chunk).0, Receive(Noting(), port, y, chunk).0, l)
  {
    hide Serve, Came, Noting, OnlyReplies, Port.RecordAlignment;
    if !x.dead {
      ServeNoted(menv, port, if x.idle then Fresh(x.ss.m.s) else x.ss, if y.idle then Fresh(y.ss.m.s) else y.ss, x.kept + chunk, l);
    }
  }

  lemma {:induction false} DeliverNoted(menv: Env<Queue>, port: Port, x: Line<Queue>, y: Line<seq<Step>>, chunks: seq<seq<byte>>, l: Library)
    requires OnlyReplies(menv) && port.Valid() && InLine(x, y, l)
    ensures InLine(Deliver(menv, port, x, chunks).0, Deliver(Noting(), port, y, chunks).0, l)
    decreases |chunks|
  {
    hide Receive, InLine, Noting, OnlyReplies;
    if |chunks| > 0 {
      ReceiveNoted(menv, port, x, y, chunks[0], l);
      DeliverNoted(menv, port, Receive(menv, port, x, chunks[0]).0, Receive(Noting(), port, y, chunks[0]).0, chunks[1..], l);
    }
  }

  /** What a stream brings, cut anywhere: the responses are those to which the library comes by taking the reply
      words one by one. */
  lemma StreamTaken(menv: Env<Queue>, port: Port, l: Library, replies: seq<seq<byte>>)
    requires OnlyReplies(menv) && port.Valid() && LibraryOk(l)
    ensures var steps := Deliver(Noting(), port, AtRest([]), replies).0.ss.m.s;
            Runs(l, steps) && Deliver(menv, port, AtRest(l.queue), replies).0.ss.m.s == After(l, steps).queue
  {
    hide Deliver, Noting, OnlyReplies;
    NotYet(l);
    DeliverNoted(menv, port, AtRest(l.queue), AtRest([]), replies, l);
  }

  lemma NotYet(l: Library)
    requires LibraryOk(l)
    ensures Came(l, [], l.queue)
  {}

  lemma {:induction false} ExchangeNoted(menv: Env<Queue>, port: Port, q: Queue, steps: seq<Step>, ds: seq<seq<byte>>, l: Library)
    requires OnlyReplies(menv) && port.Valid() && Came(l, steps, q)
    ensures Came(l, Exchange(Noting(), port, steps, ds).0, Exchange(menv, port, q, ds).0)
    decreases |ds|
  {
    hide Serve, Came, Noting, OnlyReplies, HeaderOk, Port.RecordAlignment;
    if |ds| > 0 {
      if HeaderOk(port, ds[0]) {
        OneServed(menv, port, q, steps, ds[0], l);
      }
      ExchangeNoted(menv, port, ServeDatagram(menv, port, q, ds[0]).0, ServeDatagram(Noting(), port, steps, ds[0]).0, ds[1..], l);
    }
  }

  lemma OneServed(menv: Env<Queue>, port: Port, q: Queue, steps: seq<Step>, d: seq<byte>, l: Library)
    requires OnlyReplies(menv) && port.Valid() && Came(l, steps, q) && HeaderOk(port, d)
    ensures Came(l, ServeDatagram(Noting(), port, steps, d).0, ServeDatagram(menv, port, q, d).0)
  {
    hide Serve, Came, Noting, OnlyReplies;
    ServeNoted(menv, port, Fresh(q), Fresh(steps), d[port.RecordAlignment()..], l);
  }

  /** The same of what datagrams bring, whichever arrive. */
  lemma DatagramsTaken(menv: Env<Queue>, port: Port, l: Library, answers: seq<seq<byte>>)
    requires OnlyReplies(menv) && port.Valid() && LibraryOk(l)
    ensures var steps := Exchange(Noting(), port, [], answers).0;
            Runs(l, steps) && Exchange(menv, port, l.queue, answers).0 == After(l, steps).queue
  {
    hide Exchange, Noting, OnlyReplies;
    NotYet(l);
    ExchangeNoted(menv, port, l.queue, [], answers, l);
  }
}
