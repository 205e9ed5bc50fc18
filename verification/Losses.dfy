/**
 Datagrams that the network loses, doubles and reorders, on the way to the slave and on the way back.
 */
module Losses {
  import opened Words
  import opened Lanes
  import opened Records
  import opened Operations
  import opened Bus
  import opened Interpreter
  import opened Packer
  import opened Meaning
  import opened Responses
  import opened Delivery
  import opened EndToEnd
  import opened Wire
  import opened Flush
  import opened Packets
  import opened Stream
  import opened Chunks
  import opened RoundTrip
  import opened DatagramDelivery
  import opened Lifecycle
  import opened Ages
  import opened InRuns

  // An answer that nothing waits for any more.

  /** The library looks as before, from the outside. */
  ghost predicate Same(q: Queue, q': Queue) {
    QueueOk(q') && Fifo(q') == Fifo(q) && q'.log == q.log
  }

  /** Records whose reads are returned to the address of one cycle. */
  predicate ReturnsTo(rs: seq<Record>, rba: nat) {
    forall i | 0 <= i < |rs| && |rs[i].addrs| > 0 :: rs[i].bca && rs[i].rff && (rs[i].bra == rba || rs[i].bra == rba + 1)
  }

  lemma {:induction false} CompileReturns(port: Port, ops: seq<Operation>, count: nat, checked: bool, rba: nat)
    requires port.Valid() && ValidOperations(port, ops) && Pending(port, ops, count, checked)
    ensures ReturnsTo(Compile(port, ops, count, checked, rba), rba)
    decreases |ops|, count
  {
    hide PlanRecord, MakeRecord, PlanRuns, ValidOperation, ChargeAll;
    var p := PlanRecord(port, ops, count, checked);
    PlanCountsCorrect(port, ops, count, checked);
    MakeReturns(port, ops, p, rba);
    if !p.last {
      ChargeBounds(count, ops[..p.w + p.r]);
      CompileReturns(port, ops[p.w + p.r..], p.count, checked, rba);
    }
  }

  lemma MakeReturns(port: Port, ops: seq<Operation>, p: Plan, rba: nat)
    requires port.Valid() && p.w + p.r <= |ops|
    ensures var r := MakeRecord(port, ops, p, rba); |r.addrs| > 0 ==> r.bca && r.rff && (r.bra == rba || r.bra == rba + 1)
  {
    hide PlanShape, LaneOf, SelectByte, LaneValues, StatusAddress;
  }

  lemma StaleWord(q: Queue, rba: nat, size: nat, address: nat, value: nat)
    requires QueueOk(q) && NoneAt(Fifo(q), rba) && rba % 2 == 0 && rba < 0x1_0000 && (address == rba || address == rba + 1)
    ensures Same(q, WriteConfig(q, size, address, value))
  {
    hide WriteConfig, Fifo, Answer;
    WriteConfigRefines(q, size, address, value);
    assert ReturnAddress(address) == rba;
  }

  lemma {:induction false} StaleWrites(menv: Env<Queue>, port: Port, lane: Lane, m: Machine<Queue>, rba: nat, address: nat, ws: seq<nat>)
    requires TakesReplies(menv) && QueueOk(m.s) && NoneAt(Fifo(m.s), rba) && rba % 2 == 0 && rba < 0x1_0000
    requires address == rba || address == rba + 1
    ensures Same(m.s, ExecWrites(menv, port, lane, true, ConfigTarget(address), m, ws).s)
    decreases |ws|
  {
    hide WriteConfig, Fifo, FromLanes, QueueOk, NoneAt;
    if |ws| > 0 {
      StaleWord(m.s, rba, lane.size, address, FromLanes(ws[0], lane));
      StaleWrites(menv, port, lane, ExecWrite(menv, lane, ConfigTarget(address), m, ws[0]), rba, address, ws[1..]);
    }
  }

  lemma StaleReply<S>(env: Env<S>, menv: Env<Queue>, port: Port, ss: Session<S>, r: Record, ms: Session<Queue>, rba: nat)
    requires port.Valid() && ReturnsTo([r], rba) && rba % 2 == 0 && rba < 0x1_0000
    requires TakesReplies(menv) && QueueOk(ms.m.s) && NoneAt(Fifo(ms.m.s), rba)
    ensures Same(ms.m.s, ExecRecords(menv, port, ms, ExecRecord(env, port, ss, r).1).0.m.s)
  {
    hide AfterWrites, AfterReads, ReplyRecord, TakesReplies, QueueOk, NoneAt, Fifo;
    if |r.addrs| == 0 {
      QuietReply(env, menv, port, ss, r, ms);
    } else {
      assert [r][0] == r;
      var vs := AfterReads(env, port, AfterWrites(env, port, ss.m, r), r).1;
      OneReply(menv, port, ms, ReplyRecord(r, vs));
      ReplyExecuted(menv, port, ms, r, vs, r.bra, DecodeSelect(r.select, port.data));
      StaleWrites(menv, port, DecodeSelect(r.select, port.data), ms.m, rba, r.bra, vs);
    }
  }

  lemma {:induction false} StaleReplies<S>(env: Env<S>, menv: Env<Queue>, port: Port, ss: Session<S>, rs: seq<Record>, ms: Session<Queue>, rba: nat)
    requires port.Valid() && ReturnsTo(rs, rba) && rba % 2 == 0 && rba < 0x1_0000
    requires TakesReplies(menv) && QueueOk(ms.m.s) && NoneAt(Fifo(ms.m.s), rba)
    ensures Same(ms.m.s, ExecRecords(menv, port, ms, ExecRecords(env, port, ss, rs).1).0.m.s)
    decreases |rs|
  {
    hide ExecRecord, ExecRecords, TakesReplies, QueueOk, NoneAt, Fifo;
    if |rs| == 0 {
      ExecNone(env, port, ss, rs);
      ExecNone(menv, port, ms, []);
    } else {
      StaleReply(env, menv, port, ss, rs[0], ms, rba);
      var out := ExecRecord(env, port, ss, rs[0]);
      ExecStep(env, port, ss, rs);
      ExecConcat(menv, port, ms, out.1, ExecRecords(env, port, out.0, rs[1..]).1);
      StaleReplies(env, menv, port, out.0, rs[1..], ExecRecords(menv, port, ms, out.1).0, rba);
    }
  }

  /** The reply to a cycle that does not wait any more changes nothing. */
  lemma StaleCycle<S>(env: Env<S>, menv: Env<Queue>, port: Port, ss: Session<S>, c: Sent, ms: Session<Queue>)
    requires Packable(port, c.cycle.ops, c.checked, c.rba) && ms.closed
    requires TakesReplies(menv) && QueueOk(ms.m.s) && (NeedsReply(c.cycle.ops, c.checked) ==> NoneAt(Fifo(ms.m.s), c.rba))
    ensures var back := Serve(menv, port, ms, Serve(env, port, ss, BytesOf(port, c)).output);
            back.rest == [] && back.ss.closed && Same(ms.m.s, back.ss.m.s)
  {
    hide Serve, Compile, EncodeAll, ExecRecords, RecordFits, ValidOperation, NeedsReply, ReturnsTo, Fifo, NoneAt, QueueOk, TakesReplies;
    ReplyRests(env, menv, port, ss, c, ms);
    if NeedsReply(c.cycle.ops, c.checked) {
      var ops := c.cycle.ops;
      CompileFits(port, ops, 0, c.checked, c.rba);
      CompileReturns(port, ops, 0, c.checked, c.rba);
      var rs := Compile(port, ops, 0, c.checked, c.rba);
      ServeAll(env, port, ss, rs);
      ServeAll(menv, port, ms, ExecRecords(env, port, ss, rs).1);
      StaleReplies(env, menv, port, ss, rs, ms, c.rba);
    }
  }

  /** None of these cycles waits. */
  predicate NoneWait(rs: seq<Response>, cs: seq<Sent>) {
    forall i | 0 <= i < |cs| && NeedsReply(cs[i].cycle.ops, cs[i].checked) :: NoneAt(rs, cs[i].rba)
  }

  lemma {:induction false} StaleAnswers<S>(env: Env<S>, menv: Env<Queue>, port: Port, ss: Session<S>, cs: seq<Sent>, restarts: seq<bool>,
    out: seq<byte>, s': S, ms: Session<Queue>)
    requires Sendable(port, cs) && |restarts| == |cs| && Answered(env, port, ss, cs, restarts, out, s')
    requires TakesReplies(menv) && ms.closed && QueueOk(ms.m.s) && NoneWait(Fifo(ms.m.s), cs)
    ensures var back := Serve(menv, port, ms, out); back.rest == [] && back.ss.closed && Same(ms.m.s, back.ss.m.s)
    decreases |cs|
  {
    hide Serve, Fifo, NeedsReply, BytesOf, QueueOk, NoneAt, TakesReplies, Packable;
    if |cs| == 0 {
      ServeNone(menv, port, ms);
    } else {
      StreamStep(port, cs);
      var one := Serve(env, port, ss, BytesOf(port, cs[0]));
      var rest := out[|one.output|..];
      assert out == one.output + rest;
      StaleCycle(env, menv, port, ss, cs[0], ms);
      var mid := Serve(menv, port, ms, one.output);
      ServeSplit(menv, port, ms, one.output, rest);
      assert [] + rest == rest;
      StaleAnswers(env, menv, port, NextSession(restarts[0], one.ss), cs[1..], restarts[1..], rest, s', mid.ss);
    }
  }

  /** Direct execution of the cycles of one datagram: the device afterwards, and the callbacks. */
  function GroupRun<S>(env: Env<S>, port: Port, s: S, g: seq<Sent>): (S, seq<Done>)
    requires Sendable(port, g)
  {
    DirectFrom(env, port, Machine(s, 0), g, Restarts(port, g, 0, [StreamBytes(port, g)]))
  }

  lemma {:induction false} AnsweredState<S>(env: Env<S>, port: Port, ss: Session<S>, cs: seq<Sent>, restarts: seq<bool>, out: seq<byte>, s': S)
    requires Sendable(port, cs) && port.Valid() && |restarts| == |cs| && Answered(env, port, ss, cs, restarts, out, s')
    ensures s' == DirectFrom(env, port, ss.m, cs, restarts).0
    decreases |cs|
  {
    hide Serve, Run, BytesOf, ValidOperation, OwnCallback;
    if |cs| > 0 {
      StreamStep(port, cs);
      WholeCycle(env, port, ss, cs[0]);
      var one := Serve(env, port, ss, BytesOf(port, cs[0]));
      FreshHas(one.ss.m.s);
      AnsweredState(env, port, NextSession(restarts[0], one.ss), cs[1..], restarts[1..], out[|one.output|..], s');
    }
  }

  /** A datagram of whole cycles does what the cycles do, and an answer to it that comes when none of them waits
      any more changes nothing. */
  lemma DatagramServed<S(!new)>(env: Env<S>, menv: Env<Queue>, port: Port, header: seq<byte>, g: seq<Sent>, s: S, q: Queue)
    requires Sendable(port, g) && |g| > 0 && port.Valid() && |header| == port.RecordAlignment() && HeaderOk(port, header)
    requires TakesReplies(menv) && QueueOk(q)
    ensures var one := ServeDatagram(env, port, s, header + StreamBytes(port, g));
            && one.0 == GroupRun(env, port, s, g).0
            && (NoneWait(Fifo(q), g) ==> Same(q, Exchange(menv, port, q, one.1).0))
  {
    hide *;
    var d, b := header + StreamBytes(port, g), StreamBytes(port, g);
    HeaderExtends(port, header, b);
    assert d[|header|..] == b;
    ServedTogether(env, port, s, g);
    AnswerTaken(env, menv, port, s, d, q);
    FreshHas(s);
    FreshHas(q);
    var out := Serve(env, port, Fresh(s), b);
    var restarts := Restarts(port, g, 0, [b]);
    AnsweredState(env, port, Fresh(s), g, restarts, out.output, out.ss.m.s);
    GroupRunIs(env, port, s, g);
    if NoneWait(Fifo(q), g) {
      StaleAnswers(env, menv, port, Fresh(s), g, restarts, out.output, out.ss.m.s, Fresh(q));
    }
  }

  lemma GroupRunIs<S>(env: Env<S>, port: Port, s: S, g: seq<Sent>)
    requires Sendable(port, g)
    ensures port.Valid() && forall i | 0 <= i < |g| :: ValidOperations(port, g[i].cycle.ops)
    ensures GroupRun(env, port, s, g) == DirectFrom(env, port, Machine(s, 0), g, Restarts(port, g, 0, [StreamBytes(port, g)]))
  {}

  // The cycles of each datagram.

  function Whole(gs: seq<seq<Sent>>): seq<Sent> {
    if |gs| == 0 then [] else gs[0] + Whole(gs[1..])
  }

  /** Each datagram carries the cycles of one group behind the header. */
  ghost predicate Carried(port: Port, header: seq<byte>, ds: seq<seq<byte>>, gs: seq<seq<Sent>>) {
    && port.Valid() && |header| == port.RecordAlignment() && HeaderOk(port, header) && |ds| == |gs|
    && forall i | 0 <= i < |gs| :: Carries(port, header, ds[i], gs[i])
  }

  ghost predicate Carries(port: Port, header: seq<byte>, d: seq<byte>, g: seq<Sent>) {
    |g| > 0 && Sendable(port, g) && Clean(port, g) && d == header + StreamBytes(port, g)
  }

  /** The datagrams of a flush, and the groups of its cycles. */
  lemma {:induction false} GroupsOf(port: Port, header: seq<byte>, ds: seq<seq<byte>>, cs: seq<Sent>) returns (gs: seq<seq<Sent>>)
    requires Sendable(port, cs) && Clean(port, cs) && port.Valid() && |header| == port.RecordAlignment() && HeaderOk(port, header)
    requires Datagrams(header, ds, BytesList(port, cs))
    ensures Carried(port, header, ds, gs) && Whole(gs) == cs
    decreases |ds|
  {
    hide *;
    if |ds| == 0 {
      gs := [];
      NoGroups(port, header, ds, cs);
    } else {
      var k := DatagramsFront(header, ds, BytesList(port, cs));
      BytesListParts(port, cs, k);
      NoneApart(cs);
      CleanParts(port, cs, k, []);
      var rest := GroupsOf(port, header, ds[1..], cs[k..]);
      gs := [cs[..k]] + rest;
      MoreGroups(port, header, ds, cs[..k], rest);
    }
  }

  lemma NoneApart(cs: seq<Sent>)
    ensures Apart([], cs)
  {}

  lemma NoGroups(port: Port, header: seq<byte>, ds: seq<seq<byte>>, cs: seq<Sent>)
    requires Sendable(port, cs) && port.Valid() && |header| == port.RecordAlignment() && HeaderOk(port, header)
    requires |ds| == 0 && Datagrams(header, ds, BytesList(port, cs))
    ensures Carried(port, header, ds, []) && Whole([]) == cs
  {}

  lemma MoreGroups(port: Port, header: seq<byte>, ds: seq<seq<byte>>, g: seq<Sent>, rest: seq<seq<Sent>>)
    requires |ds| > 0 && Carried(port, header, ds[1..], rest)
    requires |g| > 0 && Sendable(port, g) && Clean(port, g) && ds[0] == header + StreamBytes(port, g)
    ensures Carried(port, header, ds, [g] + rest) && Whole([g] + rest) == g + Whole(rest)
  {
    hide Sendable, Clean, StreamBytes, HeaderOk, Port.Valid, Port.RecordAlignment;
    assert ([g] + rest)[1..] == rest;
    forall i | 0 <= i < |ds| ensures Carries(port, header, ds[i], ([g] + rest)[i]) {
      if i > 0 {
        assert ds[i] == ds[1..][i - 1];
      }
    }
  }

  /** No later cycle goes to the return address of a cycle that waits for its reply. */
  predicate Spread(cs: seq<Sent>) {
    forall i, j | 0 <= i < j < |cs| && NeedsReply(cs[i].cycle.ops, cs[i].checked) :: cs[i].rba != cs[j].rba
  }

  predicate GroupsApart(gs: seq<seq<Sent>>) {
    forall i, j | 0 <= i < j < |gs| :: Apart(Awaiting(gs[i]), gs[j])
  }

  lemma {:induction false} AwaitingFrom(cs: seq<Sent>, k: nat) returns (i: nat)
    requires k < |Awaiting(cs)|
    ensures i < |cs| && NeedsReply(cs[i].cycle.ops, cs[i].checked) && Awaiting(cs)[k].address == cs[i].rba
  {
    hide NeedsReply, FindRead, FindBus;
    if NeedsReply(cs[0].cycle.ops, cs[0].checked) && k == 0 {
      i := 0;
    } else {
      i := AwaitingFrom(cs[1..], if NeedsReply(cs[0].cycle.ops, cs[0].checked) then k - 1 else k);
      i := i + 1;
    }
  }

  lemma {:induction false} AwaitedWaits(cs: seq<Sent>, i: nat) returns (k: nat)
    requires i < |cs| && NeedsReply(cs[i].cycle.ops, cs[i].checked)
    ensures k < |Awaiting(cs)| && Awaiting(cs)[k].address == cs[i].rba
  {
    hide NeedsReply, FindRead, FindBus;
    if i == 0 {
      k := 0;
    } else {
      k := AwaitedWaits(cs[1..], i - 1);
      k := if NeedsReply(cs[0].cycle.ops, cs[0].checked) then k + 1 else k;
    }
  }

  lemma {:induction false} WholeHas(gs: seq<seq<Sent>>, j: nat, i: nat) returns (k: nat)
    requires j < |gs| && i < |gs[j]|
    ensures k < |Whole(gs)| && Whole(gs)[k] == gs[j][i]
  {
    if j == 0 {
      k := i;
    } else {
      k := WholeHas(gs[1..], j - 1, i);
      k := |gs[0]| + k;
    }
  }

  lemma {:induction false} SpreadApart(gs: seq<seq<Sent>>)
    requires Spread(Whole(gs))
    ensures GroupsApart(gs)
  {
    hide NeedsReply, Awaiting;
    if |gs| > 0 {
      var rest := Whole(gs[1..]);
      assert Spread(rest) by {
        assert forall i | 0 <= i < |rest| :: rest[i] == Whole(gs)[|gs[0]| + i];
      }
      SpreadApart(gs[1..]);
      forall i, j | 0 <= i < j < |gs| ensures Apart(Awaiting(gs[i]), gs[j]) {
        if i == 0 {
          FirstApart(gs, j);
        } else {
          assert gs[i] == gs[1..][i - 1] && gs[j] == gs[1..][j - 1];
        }
      }
    }
  }

  lemma FirstApart(gs: seq<seq<Sent>>, j: nat)
    requires Spread(Whole(gs)) && 0 < j < |gs|
    ensures Apart(Awaiting(gs[0]), gs[j])
  {
    hide NeedsReply, Awaiting;
    forall c, k | 0 <= c < |gs[j]| && 0 <= k < |Awaiting(gs[0])| ensures Awaiting(gs[0])[k].address != gs[j][c].rba {
      var i := AwaitingFrom(gs[0], k);
      var n := WholeHas(gs[1..], j - 1, c);
      assert Whole(gs)[i] == gs[0][i] && Whole(gs)[|gs[0]| + n] == gs[j][c];
    }
  }

  // Any order.

  /** The datagrams that reach the slave: which, in which order, and how often. The device afterwards, and the
      answer to each. */
  function Arrivals<S>(env: Env<S>, port: Port, s: S, ds: seq<seq<byte>>, order: seq<nat>): (out: (S, seq<seq<seq<byte>>>))
    requires port.Valid() && forall j | 0 <= j < |order| :: order[j] < |ds|
    ensures |out.1| == |order|
    decreases |order|
  {
    if |order| == 0 then (s, []) else
      var one := ServeDatagram(env, port, s, ds[order[0]]);
      var rest := Arrivals(env, port, one.0, ds, order[1..]);
      (rest.0, [one.1] + rest.1)
  }

  /** The answers that reach the master: again which, in which order, and how often. */
  function Returns(menv: Env<Queue>, port: Port, q: Queue, answers: seq<seq<seq<byte>>>, taken: seq<nat>): Queue
    requires port.Valid() && forall j | 0 <= j < |taken| :: taken[j] < |answers|
    decreases |taken|
  {
    if |taken| == 0 then q else Returns(menv, port, Exchange(menv, port, q, answers[taken[0]]).0, answers, taken[1..])
  }

  /** Direct execution of the cycles of each datagram that arrives: the device afterwards, and the callbacks with
      the results of each arrival. */
  function Executions<S>(env: Env<S>, port: Port, s: S, gs: seq<seq<Sent>>, order: seq<nat>): (out: (S, seq<seq<Done>>))
    requires (forall i | 0 <= i < |gs| :: Sendable(port, gs[i])) && forall j | 0 <= j < |order| :: order[j] < |gs|
    ensures |out.1| == |order|
    decreases |order|
  {
    if |order| == 0 then (s, []) else
      var one := GroupRun(env, port, s, gs[order[0]]);
      var rest := Executions(env, port, one.0, gs, order[1..]);
      (rest.0, [one.1] + rest.1)
  }

  /** Only the first answer to a datagram that reaches the master calls back, with the results of the arrival
      that it answers. */
  function FirstCallbacks(calls: seq<seq<Done>>, order: seq<nat>, taken: seq<nat>, done: set<nat>): seq<Done>
    requires |calls| == |order| && forall j | 0 <= j < |taken| :: taken[j] < |order|
    decreases |taken|
  {
    if |taken| == 0 then [] else
      var g := order[taken[0]];
      (if g in done then [] else calls[taken[0]]) + FirstCallbacks(calls, order, taken[1..], done + {g})
  }

  /** The datagrams to which an answer has reached the master. */
  function Reached(order: seq<nat>, taken: seq<nat>): set<nat>
    requires forall j | 0 <= j < |taken| :: taken[j] < |order|
  {
    if |taken| == 0 then {} else {order[taken[0]]} + Reached(order, taken[1..])
  }

  /** What still waits of the groups from a to b. */
  function Left(gs: seq<seq<Sent>>, done: set<nat>, a: nat, b: nat): (rs: seq<Response>)
    requires a <= b <= |gs|
    ensures AllOk(rs)
    decreases b - a
  {
    if a == b then [] else
      var rest := Left(gs, done, a + 1, b);
      if a in done then rest else AllOkJoin(Awaiting(gs[a]), rest); Awaiting(gs[a]) + rest
  }

  lemma {:induction false} LeftJoin(gs: seq<seq<Sent>>, done: set<nat>, a: nat, b: nat, c: nat)
    requires a <= b <= c <= |gs|
    ensures Left(gs, done, a, c) == Left(gs, done, a, b) + Left(gs, done, b, c)
    decreases b - a
  {
    hide Awaiting;
    if a == b {
      assert [] + Left(gs, done, b, c) == Left(gs, done, b, c);
    } else {
      LeftJoin(gs, done, a + 1, b, c);
      if a !in done {
        Regroup(Awaiting(gs[a]), Left(gs, done, a + 1, b), Left(gs, done, b, c));
      }
    }
  }

  lemma {:induction false} LeftWithout(gs: seq<seq<Sent>>, done: set<nat>, g: nat, a: nat, b: nat)
    requires a <= b <= |gs| && !(a <= g < b)
    ensures Left(gs, done + {g}, a, b) == Left(gs, done, a, b)
    decreases b - a
  {
    hide Awaiting;
    if a < b {
      LeftWithout(gs, done, g, a + 1, b);
    }
  }

  /** One more group is done. */
  lemma LeftSplit(gs: seq<seq<Sent>>, done: set<nat>, g: nat)
    requires g < |gs| && g !in done
    ensures Left(gs, done, 0, |gs|) == Left(gs, done, 0, g) + Awaiting(gs[g]) + Left(gs, done, g + 1, |gs|)
    ensures Left(gs, done + {g}, 0, |gs|) == Left(gs, done, 0, g) + Left(gs, done, g + 1, |gs|)
  {
    LeftJoin(gs, done, 0, g, |gs|);
    LeftJoin(gs, done + {g}, 0, g, |gs|);
    LeftWithout(gs, done, g, 0, g);
    LeftWithout(gs, done, g, g + 1, |gs|);
    hide Awaiting, AllOk;
    Regroup(Left(gs, done, 0, g), Awaiting(gs[g]), Left(gs, done, g + 1, |gs|));
  }

  lemma {:induction false} LeftFrom(gs: seq<seq<Sent>>, done: set<nat>, a: nat, b: nat, k: nat) returns (i: nat)
    requires a <= b <= |gs| && k < |Left(gs, done, a, b)|
    ensures a <= i < b && i !in done && Left(gs, done, a, b)[k] in Awaiting(gs[i])
    decreases b - a
  {
    hide Awaiting;
    if a !in done && k < |Awaiting(gs[a])| {
      i := a;
    } else {
      i := LeftFrom(gs, done, a + 1, b, if a in done then k else k - |Awaiting(gs[a])|);
    }
  }

  /** Nothing in front of a group waits at an address of one of its cycles. */
  lemma LeftApart(gs: seq<seq<Sent>>, done: set<nat>, older: seq<Response>, g: nat)
    requires g < |gs| && GroupsApart(gs) && Apart(older, gs[g])
    ensures Apart(older + Left(gs, done, 0, g), gs[g])
  {
    hide Awaiting, Left;
    var before := older + Left(gs, done, 0, g);
    forall i, k | 0 <= i < |gs[g]| && 0 <= k < |before| ensures before[k].address != gs[g][i].rba {
      if k < |older| {
        assert NoneAt(older, gs[g][i].rba);
      } else {
        var n := LeftFrom(gs, done, 0, g, k - |older|);
        assert Apart(Awaiting(gs[n]), gs[g]) && NoneAt(Awaiting(gs[n]), gs[g][i].rba);
      }
    }
  }

  /** A group that is done does not wait. */
  lemma DoneWaitsNot(gs: seq<seq<Sent>>, done: set<nat>, older: seq<Response>, g: nat)
    requires g < |gs| && g in done && GroupsApart(gs) && Apart(older, gs[g])
    ensures NoneWait(older + Left(gs, done, 0, |gs|), gs[g])
  {
    hide Awaiting, Left, NeedsReply;
    var rs := older + Left(gs, done, 0, |gs|);
    forall i, k | 0 <= i < |gs[g]| && NeedsReply(gs[g][i].cycle.ops, gs[g][i].checked) && 0 <= k < |rs|
      ensures rs[k].address != gs[g][i].rba
    {
      if k < |older| {
        assert NoneAt(older, gs[g][i].rba);
      } else {
        var n := LeftFrom(gs, done, 0, |gs|, k - |older|);
        if n < g {
          assert Apart(Awaiting(gs[n]), gs[g]) && NoneAt(Awaiting(gs[n]), gs[g][i].rba);
        } else {
          LaterApart(gs, g, n, i, rs[k]);
        }
      }
    }
  }

  lemma LaterApart(gs: seq<seq<Sent>>, g: nat, n: nat, i: nat, r: Response)
    requires g < n < |gs| && GroupsApart(gs) && i < |gs[g]| && NeedsReply(gs[g][i].cycle.ops, gs[g][i].checked) && r in Awaiting(gs[n])
    ensures r.address != gs[g][i].rba
  {
    hide Awaiting, NeedsReply;
    var w := AwaitedWaits(gs[g], i);
    var k :| 0 <= k < |Awaiting(gs[n])| && Awaiting(gs[n])[k] == r;
    var j := AwaitingFrom(gs[n], k);
    assert Apart(Awaiting(gs[g]), gs[n]) && NoneAt(Awaiting(gs[g]), gs[n][j].rba);
  }

  /** The answer to an arrival, and the callbacks it holds, seen from the state in which it was served. */
  lemma {:induction false} ArrivedAt<S(!new)>(env: Env<S>, menv: Env<Queue>, port: Port, header: seq<byte>, ds: seq<seq<byte>>, gs: seq<seq<Sent>>,
    s: S, order: seq<nat>, j: nat) returns (sj: S)
    requires Carried(port, header, ds, gs) && (forall k | 0 <= k < |order| :: order[k] < |gs|) && j < |order|
    requires TakesReplies(menv)
    ensures Sendable(port, gs[order[j]]) && forall i | 0 <= i < |gs| :: Sendable(port, gs[i])
    ensures Arrivals(env, port, s, ds, order).1[j] == ServeDatagram(env, port, sj, header + StreamBytes(port, gs[order[j]])).1
    ensures Executions(env, port, s, gs, order).1[j] == GroupRun(env, port, sj, gs[order[j]]).1
    decreases |order|
  {
    hide ServeDatagram, GroupRun, StreamBytes, Sendable, Clean, TakesReplies, HeaderOk, Port.Valid, Port.RecordAlignment;
    var g := order[0];
    assert Carries(port, header, ds[g], gs[g]) && Carries(port, header, ds[order[j]], gs[order[j]]);
    if j == 0 {
      sj := s;
    } else {
      NoQueue();
      DatagramServed(env, menv, port, header, gs[g], s, Queue([], [], []));
      sj := ArrivedAt(env, menv, port, header, ds, gs, ServeDatagram(env, port, s, ds[g]).0, order[1..], j - 1);
    }
  }

  lemma NoQueue()
    ensures QueueOk(Queue([], [], []))
  {}

  lemma {:induction false} AllArrived<S(!new)>(env: Env<S>, menv: Env<Queue>, port: Port, header: seq<byte>, ds: seq<seq<byte>>, gs: seq<seq<Sent>>,
    s: S, order: seq<nat>)
    requires Carried(port, header, ds, gs) && (forall k | 0 <= k < |order| :: order[k] < |gs|) && TakesReplies(menv)
    ensures forall i | 0 <= i < |gs| :: Sendable(port, gs[i])
    ensures Arrivals(env, port, s, ds, order).0 == Executions(env, port, s, gs, order).0
    decreases |order|
  {
    hide ServeDatagram, GroupRun, StreamBytes, Sendable, Clean, TakesReplies, HeaderOk, Port.Valid, Port.RecordAlignment;
    assert forall i | 0 <= i < |gs| :: Carries(port, header, ds[i], gs[i]);
    if |order| > 0 {
      var g := order[0];
      NoQueue();
      DatagramServed(env, menv, port, header, gs[g], s, Queue([], [], []));
      AllArrived(env, menv, port, header, ds, gs, ServeDatagram(env, port, s, ds[g]).0, order[1..]);
    }
  }

  /** What a master expects: older responses, and behind them those of the groups that are not done. */
  ghost predicate Expecting(q: Queue, older: seq<Response>, gs: seq<seq<Sent>>, done: set<nat>) {
    QueueOk(q) && AllOk(older) && Fifo(q) == older + Left(gs, done, 0, |gs|)
  }

  /** One answer. */
  lemma OneReturns<S(!new)>(env: Env<S>, menv: Env<Queue>, port: Port, header: seq<byte>, gs: seq<seq<Sent>>, g: nat, sj: S,
    q: Queue, older: seq<Response>, done: set<nat>)
    requires g < |gs| && Sendable(port, gs[g]) && Clean(port, gs[g]) && |gs[g]| > 0
    requires port.Valid() && |header| == port.RecordAlignment() && HeaderOk(port, header)
    requires TakesReplies(menv) && Expecting(q, older, gs, done) && GroupsApart(gs) && Apart(older, gs[g])
    ensures var q' := Exchange(menv, port, q, ServeDatagram(env, port, sj, header + StreamBytes(port, gs[g])).1).0;
            && Expecting(q', older, gs, done + {g})
            && q'.log == q.log + if g in done then [] else GroupRun(env, port, sj, gs[g]).1
  {
    hide *;
    if g in done {
      assert done + {g} == done;
      DoneWaitsNot(gs, done, older, g);
      ExpectingIs(q, older, gs, done);
      DatagramServed(env, menv, port, header, gs[g], sj, q);
      assert q.log + [] == q.log;
      StillExpecting(q, Exchange(menv, port, q, ServeDatagram(env, port, sj, header + StreamBytes(port, gs[g])).1).0, older, gs, done);
    } else {
      LeftSplit(gs, done, g);
      ExpectingIs(q, older, gs, done);
      LeftApart(gs, done, older, g);
      HeaderExtends(port, header, StreamBytes(port, gs[g]));
      var a, b := Left(gs, done, 0, g), Left(gs, done, g + 1, |gs|);
      AllOkJoin(older, a);
      Regroup(older, a, b);
      Regroup3(older, a, Awaiting(gs[g]), b);
      OneExchanged(env, menv, port, header, gs[g], sj, q, older + a, b);
      GroupRunIs(env, port, sj, gs[g]);
      NowExpecting(Exchange(menv, port, q, ServeDatagram(env, port, sj, header + StreamBytes(port, gs[g])).1).0, older, gs, done + {g});
    }
  }

  lemma Regroup3<T>(o: seq<T>, a: seq<T>, g: seq<T>, b: seq<T>)
    ensures o + (a + g + b) == o + a + g + b
  {}

  lemma ExpectingIs(q: Queue, older: seq<Response>, gs: seq<seq<Sent>>, done: set<nat>)
    requires Expecting(q, older, gs, done)
    ensures QueueOk(q) && AllOk(older) && Fifo(q) == older + Left(gs, done, 0, |gs|)
  {}

  lemma NowExpecting(q: Queue, older: seq<Response>, gs: seq<seq<Sent>>, done: set<nat>)
    requires QueueOk(q) && AllOk(older) && Fifo(q) == older + Left(gs, done, 0, |gs|)
    ensures Expecting(q, older, gs, done)
  {}

  lemma StillExpecting(q: Queue, q': Queue, older: seq<Response>, gs: seq<seq<Sent>>, done: set<nat>)
    requires Expecting(q, older, gs, done) && Same(q, q')
    ensures Expecting(q', older, gs, done) && q'.log == q.log
  {}

  lemma {:induction false} AllReturned<S(!new)>(env: Env<S>, menv: Env<Queue>, port: Port, header: seq<byte>, ds: seq<seq<byte>>, gs: seq<seq<Sent>>,
    s: S, order: seq<nat>, q: Queue, older: seq<Response>, done: set<nat>, taken: seq<nat>)
    requires Carried(port, header, ds, gs) && (forall k | 0 <= k < |order| :: order[k] < |gs|) && (forall k | 0 <= k < |taken| :: taken[k] < |order|)
    requires TakesReplies(menv) && Expecting(q, older, gs, done) && GroupsApart(gs) && forall i | 0 <= i < |gs| :: Apart(older, gs[i])
    ensures forall i | 0 <= i < |gs| :: Sendable(port, gs[i])
    ensures var back := Returns(menv, port, q, Arrivals(env, port, s, ds, order).1, taken);
            && Expecting(back, older, gs, done + Reached(order, taken))
            && back.log == q.log + FirstCallbacks(Executions(env, port, s, gs, order).1, order, taken, done)
    decreases |taken|
  {
    hide ServeDatagram, GroupRun, StreamBytes, Sendable, Clean, TakesReplies, HeaderOk, Port.Valid, Port.RecordAlignment, Exchange, Expecting, GroupsApart, Apart;
    hide Arrivals, Executions;
    AllArrived(env, menv, port, header, ds, gs, s, order);
    if |taken| == 0 {
      assert done + {} == done && q.log + [] == q.log;
    } else {
      var j := taken[0];
      var g := order[j];
      assert Carries(port, header, ds[g], gs[g]);
      var sj := ArrivedAt(env, menv, port, header, ds, gs, s, order, j);
      OneReturns(env, menv, port, header, gs, g, sj, q, older, done);
      var answers, calls := Arrivals(env, port, s, ds, order).1, Executions(env, port, s, gs, order).1;
      var q1 := Exchange(menv, port, q, answers[j]).0;
      AllReturned(env, menv, port, header, ds, gs, s, order, q1, older, done + {g}, taken[1..]);
      assert done + {g} + Reached(order, taken[1..]) == done + Reached(order, taken);
      Regroup(q.log, if g in done then [] else calls[j], FirstCallbacks(calls, order, taken[1..], done + {g}));
    }
  }

  /** The groups of a flush. */
  lemma FlushGroups(t: Transport, device: nat, time: nat, s: Sender, cs: seq<QueuedCycle>, oom: nat -> bool) returns (gs: seq<seq<Sent>>)
    requires t.Ok() && t.mtu != 0 && SenderOk(t, s) && |s.cur| == 0 && |s.done| == 0 && |s.sent| == 0 && Short(cs) && QueueOk(s.queue)
    ensures var out := Finish(t, FlushCycles(t, device, time, s, cs, oom));
            Carried(t.port, t.PacketHeader(), out.sent, gs) && Whole(gs) == Sents(t, device, time, s, cs, oom)
  {
    hide *;
    ShortIs(cs);
    PacketHeaderOk(t);
    var sent := Sents(t, device, time, s, cs, oom);
    var out := Finish(t, FlushCycles(t, device, time, s, cs, oom));
    FlushSends(t, device, time, s, cs, oom);
    PacketAtomicity(t, device, time, s, cs, oom);
    assert out.sent[|s.sent|..] == out.sent;
    AcceptedAre(t, device, time, s, cs, oom);
    SendableIs(t.port, sent);
    gs := GroupsOf(t.port, t.PacketHeader(), out.sent, sent);
  }

  /** From a flush to its callbacks, whatever datagrams and answers the network loses, doubles or reorders. The
      device goes through direct executions of the datagrams that arrive. The first answer to a datagram that
      reaches the master calls back its awaited cycles, with the results of the execution that it answers; any
      further one changes nothing; and the cycles of all other datagrams, and all older responses, still wait. */
  lemma AnyDelivery<S(!new)>(env: Env<S>, menv: Env<Queue>, t: Transport, device: nat, time: nat, s: Sender, cs: seq<QueuedCycle>,
    oom: nat -> bool, bus: S, gs: seq<seq<Sent>>, order: seq<nat>, taken: seq<nat>)
    requires t.Ok() && t.mtu != 0 && SenderOk(t, s) && |s.cur| == 0 && |s.done| == 0 && |s.sent| == 0 && Short(cs)
    requires TakesReplies(menv) && QueueOk(s.queue) && Apart(Fifo(s.queue), Whole(gs)) && Spread(Whole(gs))
    requires Carried(t.port, t.PacketHeader(), Finish(t, FlushCycles(t, device, time, s, cs, oom)).sent, gs)
    requires Whole(gs) == Sents(t, device, time, s, cs, oom)
    requires (forall j | 0 <= j < |order| :: order[j] < |gs|) && forall j | 0 <= j < |taken| :: taken[j] < |order|
    ensures t.port.Valid() && forall i | 0 <= i < |gs| :: Sendable(t.port, gs[i])
    ensures var out := Finish(t, FlushCycles(t, device, time, s, cs, oom));
            var slave, direct := Arrivals(env, t.port, bus, out.sent, order), Executions(env, t.port, bus, gs, order);
            var master := Returns(menv, t.port, out.queue, slave.1, taken);
            && slave.0 == direct.0
            && Fifo(master) == Fifo(s.queue) + Left(gs, Reached(order, taken), 0, |gs|)
            && master.log == out.queue.log + FirstCallbacks(direct.1, order, taken, {})
  {
    hide *;
    ShortIs(cs);
    var mid := FlushCycles(t, device, time, s, cs, oom);
    var out := Finish(t, mid);
    var older := Fifo(s.queue);
    FlushSends(t, device, time, s, cs, oom);
    Emptied(t, s, mid);
    NoneOk(s.queue);
    NothingDone(gs);
    SpreadApart(gs);
    EachApart(older, gs);
    CarriedIs(t.port, t.PacketHeader(), out.sent, gs);
    NowExpecting(mid.queue, older, gs, {});
    AllArrived(env, menv, t.port, t.PacketHeader(), out.sent, gs, bus, order);
    AllReturned(env, menv, t.port, t.PacketHeader(), out.sent, gs, bus, order, mid.queue, older, {}, taken);
    assert {} + Reached(order, taken) == Reached(order, taken);
    ExpectingIs(Returns(menv, t.port, mid.queue, Arrivals(env, t.port, bus, out.sent, order).1, taken), older, gs, Reached(order, taken));
  }

  lemma CarriedIs(port: Port, header: seq<byte>, ds: seq<seq<byte>>, gs: seq<seq<Sent>>)
    requires Carried(port, header, ds, gs)
    ensures port.Valid() && |ds| == |gs|
  {}

  lemma {:induction false} NothingDone(gs: seq<seq<Sent>>)
    ensures Left(gs, {}, 0, |gs|) == Awaiting(Whole(gs))
  {
    hide Awaiting;
    NoneLeft(gs, 0);
    assert gs[0..] == gs;
  }

  lemma {:induction false} NoneLeft(gs: seq<seq<Sent>>, a: nat)
    requires a <= |gs|
    ensures Left(gs, {}, a, |gs|) == Awaiting(Whole(gs[a..]))
    decreases |gs| - a
  {
    if a < |gs| {
      hide NeedsReply, FindRead, FindBus;
      NoneLeft(gs, a + 1);
      assert gs[a..][1..] == gs[a + 1..];
      AwaitingConcat(gs[a], Whole(gs[a + 1..]));
    }
  }

  lemma EachApart(older: seq<Response>, gs: seq<seq<Sent>>)
    requires Apart(older, Whole(gs))
    ensures forall i | 0 <= i < |gs| :: Apart(older, gs[i])
  {
    hide NoneAt;
    forall i, c | 0 <= i < |gs| && 0 <= c < |gs[i]| ensures NoneAt(older, gs[i][c].rba) {
      var k := WholeHas(gs, i, c);
    }
  }

  // At any point of the life of the library.

  /** A cycle that waits for its reply uses up a turn. */
  lemma TurnUsed(sent: seq<Sent>, i: nat, j: nat)
    requires i < j <= |sent| && NeedsReply(sent[i].cycle.ops, sent[i].checked)
    ensures |Awaiting(sent[..i])| < |Awaiting(sent[..j])| <= |Awaiting(sent)|
  {
    hide *;
    AwaitingSplit(sent, j);
    AwaitingSplit(sent[..j], i);
    assert sent[..j][..i] == sent[..i];
    FirstWaits(sent[..j][i..]);
  }

  lemma FirstWaits(sent: seq<Sent>)
    requires |sent| > 0 && NeedsReply(sent[0].cycle.ops, sent[0].checked)
    ensures |Awaiting(sent)| > 0
  {
    hide NeedsReply, NewResponse;
  }

  lemma LaterTurn(sent: seq<Sent>, n: nat, i: nat, j: nat)
    requires InTurns(sent, n) && |Awaiting(sent)| < 0x4000 && i < j < |sent| && NeedsReply(sent[i].cycle.ops, sent[i].checked)
    ensures sent[i].rba != sent[j].rba
  {
    hide *;
    TurnUsed(sent, i, j);
    TurnIs(sent, n, i);
    TurnIs(sent, n, j);
    TwoClaims(n + |Awaiting(sent[..i])|, n + |Awaiting(sent[..j])|);
  }

  lemma TurnIs(sent: seq<Sent>, n: nat, i: nat)
    requires InTurns(sent, n) && i < |sent|
    ensures sent[i].rba == Claim(n + |Awaiting(sent[..i])|)
  {
    hide Claim, Awaiting;
  }

  lemma TwoClaims(a: nat, b: nat)
    requires a < b < a + 0x4000
    ensures Claim(a) != Claim(b)
  {
    SharedAddressIff(b, a);
    hide Claim;
    SmallRemainder(b - a, 0x4000);
  }

  /** A flush that sets up fewer than 16384 responses uses each return address once. */
  lemma TurnsSpread(sent: seq<Sent>, n: nat)
    requires InTurns(sent, n) && |Awaiting(sent)| < 0x4000
    ensures Spread(sent)
  {
    hide InTurns, NeedsReply, Awaiting;
    forall i, j | 0 <= i < j < |sent| && NeedsReply(sent[i].cycle.ops, sent[i].checked) ensures sent[i].rba != sent[j].rba {
      LaterTurn(sent, n, i, j);
    }
  }

  /** After any run with a young oldest response, a flush of a datagram device that sets up fewer than 16384
      responses: whatever the network loses, doubles or reorders. */
  lemma AnyDeliveryInRun<S(!new)>(steps: seq<Step>, l: Library, device: nat, noMemory: nat -> bool, env: Env<S>, menv: Env<Queue>, port: Port,
    bus: S, gs: seq<seq<Sent>>, order: seq<nat>, taken: seq<nat>)
    requires LibraryOk(l) && Possible(l, FlushDevice(device, noMemory)) && device < |l.devices|
    requires l.devices[device].t.mtu != 0 && l.devices[device].t.port == port && port.Valid() && TakesReplies(menv)
    requires YoungAfter(steps, l, device, noMemory) && |Awaiting(FlushedCycles(l, device, noMemory))| < 0x4000
    requires Whole(gs) == FlushedCycles(l, device, noMemory)
    requires Carried(port, l.devices[device].t.PacketHeader(), Flushed(l, device, noMemory).sent, gs)
    requires (forall j | 0 <= j < |order| :: order[j] < |gs|) && forall j | 0 <= j < |taken| :: taken[j] < |order|
    ensures forall i | 0 <= i < |gs| :: Sendable(port, gs[i])
    ensures |Flushed(l, device, noMemory).sent| == |gs| && AsQueued(steps, port, device, Whole(gs))
    ensures var flushed, sent := Next(l, FlushDevice(device, noMemory)).queue, Flushed(l, device, noMemory).sent;
            var slave, direct := Arrivals(env, port, bus, sent, order), Executions(env, port, bus, gs, order);
            var master := Returns(menv, port, flushed, slave.1, taken);
            && slave.0 == direct.0
            && Fifo(master) == Fifo(l.queue) + Left(gs, Reached(order, taken), 0, |gs|)
            && master.log == flushed.log + FirstCallbacks(direct.1, order, taken, {})
  {
    hide *;
    FlushedIs(l, device, noMemory);
    SenderIs(l);
    YoungIsApart(steps, l, device, noMemory);
    YoungAsQueued(steps, l, device, noMemory);
    var d := l.devices[device];
    TurnOf(steps, l, device, noMemory);
    SentTurns(d.t, device, l.clock, SenderOf(l), Reverse(d.ready), noMemory, Issued(INITIAL, steps));
    TurnsSpread(Whole(gs), Issued(INITIAL, steps));
    CarriedIs(port, d.t.PacketHeader(), Flushed(l, device, noMemory).sent, gs);
    AnyDelivery(env, menv, d.t, device, l.clock, SenderOf(l), Reverse(d.ready), noMemory, bus, gs, order, taken);
  }

  lemma TurnOf(steps: seq<Step>, l: Library, device: nat, noMemory: nat -> bool)
    requires YoungAfter(steps, l, device, noMemory)
    ensures LibraryOk(INITIAL) && Runs(INITIAL, steps) && l.rba == Claim(Issued(INITIAL, steps))
  {
    NothingBorn(false);
    AddressesInOrder(steps);
  }
}
