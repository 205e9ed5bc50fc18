/**
 Cycles on a stream: the master's packed cycles and the slave's replies, both cut anywhere.
 */
module Chunks {
  import opened Words
  import opened Lanes
  import opened Records
  import opened Operations
  import opened Bus
  import opened Interpreter
  import opened Packer
  import opened Responses
  import opened Delivery
  import opened History
  import opened EndToEnd
  import opened Wire
  import opened Packets
  import opened Stream

  /** A cycle that is put on the line. */
  datatype Sent = Sent(cycle: Cycle, checked: bool, rba: nat, deadline: nat)

  ghost predicate Sendable(port: Port, cs: seq<Sent>) {
    port.Valid() && forall i | 0 <= i < |cs| :: Packable(port, cs[i].cycle.ops, cs[i].checked, cs[i].rba)
  }

  function BytesOf(port: Port, c: Sent): seq<byte>
    requires Packable(port, c.cycle.ops, c.checked, c.rba)
  {
    CycleBytes(port, c.cycle.ops, c.checked, c.rba)
  }

  function StreamBytes(port: Port, cs: seq<Sent>): seq<byte>
    requires Sendable(port, cs)
  {
    if |cs| == 0 then [] else BytesOf(port, cs[0]) + StreamBytes(port, cs[1..])
  }

  /** Only the last record ends the cycle. */
  predicate OpenUntilLast(rs: seq<Record>) {
    |rs| > 0 && rs[|rs| - 1].cyc && forall i | 0 <= i < |rs| - 1 :: !rs[i].cyc
  }

  lemma {:induction false} CompileOpen(port: Port, ops: seq<Operation>, count: nat, checked: bool, rba: nat)
    requires port.Valid() && ValidOperations(port, ops) && Pending(port, ops, count, checked)
    ensures OpenUntilLast(Compile(port, ops, count, checked, rba))
    decreases |ops|, count
  {
    hide PlanRecord, MakeRecord, PlanRuns, ValidOperation, ChargeAll, OpenUntilLast;
    var p := PlanRecord(port, ops, count, checked);
    PlanCountsCorrect(port, ops, count, checked);
    MakeCyc(port, ops, p, rba);
    var r := MakeRecord(port, ops, p, rba);
    if p.last {
      OpenStep(r, []);
    } else {
      ChargeBounds(count, ops[..p.w + p.r]);
      var rest := Compile(port, ops[p.w + p.r..], p.count, checked, rba);
      CompileOpen(port, ops[p.w + p.r..], p.count, checked, rba);
      OpenStep(r, rest);
    }
  }

  lemma MakeCyc(port: Port, ops: seq<Operation>, p: Plan, rba: nat)
    requires port.Valid() && p.w + p.r <= |ops|
    ensures MakeRecord(port, ops, p, rba).cyc == p.last
  {
    hide PlanShape, LaneOf, SelectByte, LaneValues, Addresses, StatusAddress;
  }

  lemma OpenStep(r: Record, rs: seq<Record>)
    requires if rs == [] then r.cyc else !r.cyc && OpenUntilLast(rs)
    ensures OpenUntilLast([r] + rs) && (rs == [] ==> [r] + rs == [r])
  {
  }

  /** While a cycle is only partly received the line is not at rest: the cycle line is down only as long
      as not even its first record is complete. */
  lemma {:induction false} PartOpen<S>(env: Env<S>, port: Port, ss: Session<S>, rs: seq<Record>, a: seq<byte>)
    requires port.Valid() && RecordsFit(port, rs) && OpenUntilLast(rs)
    requires a != [] && |a| < |EncodeAll(port, rs)| && a == EncodeAll(port, rs)[..|a|]
    ensures var out := Serve(env, port, ss, a); out.ss.closed ==> out == Served(ss, [], a)
    decreases |rs|
  {
    hide Serve, RecordFits, ExecRecord, Encode;
    var first := Encode(port, rs[0]);
    var all := EncodeAll(port, rs);
    if |a| < |first| {
      Partial(env, port, ss, rs[0], a);
    } else {
      var rest := a[|first|..];
      assert a == first + rest && rest == EncodeAll(port, rs[1..])[..|rest|];
      ServeOne(env, port, ss, rs[0], rest);
      var ss' := ExecRecord(env, port, ss, rs[0]).0;
      RecordCloses(env, port, ss, rs[0]);
      if rest == [] {
        ServeNone(env, port, ss');
      } else {
        PartOpen(env, port, ss', rs[1..], rest);
      }
    }
  }

  lemma RecordCloses<S>(env: Env<S>, port: Port, ss: Session<S>, r: Record)
    requires port.Valid()
    ensures ExecRecord(env, port, ss, r).0.closed == r.cyc
  {
    hide AfterWrites, AfterReads;
  }

  lemma ServeNone<S>(env: Env<S>, port: Port, ss: Session<S>)
    requires port.Valid()
    ensures Serve(env, port, ss, []) == Served(ss, [], [])
  {
  }

  /** Part of a record stays unread. */
  lemma Partial<S>(env: Env<S>, port: Port, ss: Session<S>, r: Record, a: seq<byte>)
    requires port.Valid() && RecordFits(port, r) && |a| < |Encode(port, r)| && a == Encode(port, r)[..|a|]
    ensures Serve(env, port, ss, a) == Served(ss, [], a)
  {
    hide RecordFits, Encode, ServeRecord, Span, Flags;
    assert Encode(port, r) + [] == Encode(port, r);
    RecordCounts(port, r, []);
    assert |a| >= 4 ==> a[2] == |r.values| && a[3] == |r.addrs|;
    CountsShort(port, a, |r.values|, |r.addrs|);
  }

  lemma CountsShort(port: Port, a: seq<byte>, w: nat, r: nat)
    requires port.Valid() && |a| < RecordLength(port, w, r)
    requires |a| >= 4 ==> a[2] == w && a[3] == r
    ensures !Complete(port, a)
  {
  }

  /** One of the pieces ends behind byte n. */
  predicate Cut(chunks: seq<seq<byte>>, n: int)
    decreases |chunks|
  {
    |chunks| > 0 && n > 0 && (|chunks[0]| == n || Cut(chunks[1..], n - |chunks[0]|))
  }

  /** Behind which cycles the slave starts a new session, when `seen` bytes of the first cycle came before
      the pieces: those that end where a piece ends. */
  function Restarts(port: Port, cs: seq<Sent>, seen: int, chunks: seq<seq<byte>>): (restarts: seq<bool>)
    requires Sendable(port, cs)
    ensures |restarts| == |cs|
  {
    if |cs| == 0 then [] else
      var n := |BytesOf(port, cs[0])|;
      [Cut(chunks, n - seen)] + Restarts(port, cs[1..], seen - n, chunks)
  }

  /** A piece that ends inside the first cycle is none of the cuts that count. */
  lemma {:induction false} RestartsLater(port: Port, cs: seq<Sent>, seen: int, d: seq<byte>, more: seq<seq<byte>>)
    requires Sendable(port, cs) && (|cs| > 0 ==> |BytesOf(port, cs[0])| - seen > |d|)
    ensures Restarts(port, cs, seen, [d] + more) == Restarts(port, cs, seen + |d|, more)
    decreases |cs|
  {
    hide BytesOf, Packable;
    if |cs| > 0 {
      assert ([d] + more)[1..] == more;
      RestartsLater(port, cs[1..], seen - |BytesOf(port, cs[0])|, d, more);
    }
  }

  lemma {:induction false} RestartsTrimmed(port: Port, cs: seq<Sent>, seen: int, d: seq<byte>, k: nat, more: seq<seq<byte>>)
    requires Sendable(port, cs) && k < |d| && (|cs| > 0 ==> |BytesOf(port, cs[0])| - seen > k)
    ensures Restarts(port, cs, seen, [d] + more) == Restarts(port, cs, seen + k, [d[k..]] + more)
    decreases |cs|
  {
    hide BytesOf, Packable;
    if |cs| > 0 {
      assert ([d] + more)[1..] == more && ([d[k..]] + more)[1..] == more;
      RestartsTrimmed(port, cs[1..], seen - |BytesOf(port, cs[0])|, d, k, more);
    }
  }

  /** The piece ends with the first cycle. */
  lemma RestartsAtEnd(port: Port, cs: seq<Sent>, seen: int, d: seq<byte>, more: seq<seq<byte>>)
    requires Sendable(port, cs) && |cs| > 0 && |d| > 0 && |BytesOf(port, cs[0])| - seen == |d|
    ensures Sendable(port, cs[1..])
    ensures Restarts(port, cs, seen, [d] + more) == [true] + Restarts(port, cs[1..], 0, more)
  {
    hide BytesOf, Packable;
    StreamStep(port, cs);
    if |cs| > 1 {
      SomeBytes(port, cs[1..][0]);
    }
    RestartsLater(port, cs[1..], seen - |BytesOf(port, cs[0])|, d, more);
  }

  /** The piece goes on behind the first cycle. */
  lemma RestartsInside(port: Port, cs: seq<Sent>, seen: int, d: seq<byte>, k: nat, more: seq<seq<byte>>)
    requires Sendable(port, cs) && |cs| > 0 && k < |d| && |BytesOf(port, cs[0])| - seen == k
    ensures Sendable(port, cs[1..])
    ensures Restarts(port, cs, seen, [d] + more) == [false] + Restarts(port, cs[1..], 0, [d[k..]] + more)
  {
    hide BytesOf, Packable;
    StreamStep(port, cs);
    assert ([d] + more)[1..] == more && !Cut(more, k - |d|);
    assert !Cut([d] + more, |BytesOf(port, cs[0])| - seen);
    if |cs| > 1 {
      SomeBytes(port, cs[1..][0]);
    }
    RestartsTrimmed(port, cs[1..], seen - |BytesOf(port, cs[0])|, d, k, more);
  }

  /** The session in which the next cycle is served. */
  function NextSession<S>(restart: bool, ss: Session<S>): Session<S> {
    if restart then Fresh(ss.m.s) else ss
  }

  /** `out` is what a slave sends back for the cycles `cs`, starting the first in session `ss` and a new
      session where `restarts` says so; `s'` is the device's state afterwards. */
  ghost predicate Answered<S>(env: Env<S>, port: Port, ss: Session<S>, cs: seq<Sent>, restarts: seq<bool>, out: seq<byte>, s': S)
    requires Sendable(port, cs) && |restarts| == |cs|
    decreases |cs|
  {
    if |cs| == 0 then out == [] && s' == ss.m.s else
      var one := Serve(env, port, ss, BytesOf(port, cs[0]));
      && one.output <= out
      && Answered(env, port, NextSession(restarts[0], one.ss), cs[1..], restarts[1..], out[|one.output|..], s')
  }

  lemma AnsweredFirst<S>(env: Env<S>, port: Port, ss: Session<S>, cs: seq<Sent>, restart: bool, restarts: seq<bool>, rest: seq<byte>, s': S)
    requires Sendable(port, cs) && |cs| == |restarts| + 1 && Sendable(port, cs[1..])
    requires var one := Serve(env, port, ss, BytesOf(port, cs[0]));
             Answered(env, port, NextSession(restart, one.ss), cs[1..], restarts, rest, s')
    ensures Answered(env, port, ss, cs, [restart] + restarts, Serve(env, port, ss, BytesOf(port, cs[0])).output + rest, s')
  {
    hide Serve, BytesOf;
    var one := Serve(env, port, ss, BytesOf(port, cs[0]));
    assert (one.output + rest)[|one.output|..] == rest;
    assert ([restart] + restarts)[1..] == restarts;
  }

  /** A whole cycle is served to its end, and leaves the line at rest. */
  lemma WholeCycle<S>(env: Env<S>, port: Port, ss: Session<S>, c: Sent)
    requires Packable(port, c.cycle.ops, c.checked, c.rba)
    ensures var one := Serve(env, port, ss, BytesOf(port, c));
            one.rest == [] && one.ss.closed && one.ss.m == Run(env, port, ss.m, c.cycle.ops).0
  {
    hide Serve, Compile, EncodeAll, ExecRecords, Run, RecordFits, ValidOperation;
    CompileFits(port, c.cycle.ops, 0, c.checked, c.rba);
    CycleExecuted(env, port, ss, c.cycle.ops, 0, c.checked, c.rba);
    ServeAll(env, port, ss, Compile(port, c.cycle.ops, 0, c.checked, c.rba));
  }

  /** Part of a cycle never leaves the line at rest. */
  lemma PartCycle<S>(env: Env<S>, port: Port, ss: Session<S>, c: Sent, a: seq<byte>)
    requires Packable(port, c.cycle.ops, c.checked, c.rba)
    requires a != [] && |a| < |BytesOf(port, c)| && a == BytesOf(port, c)[..|a|]
    ensures var out := Serve(env, port, ss, a); out.ss.closed ==> out == Served(ss, [], a)
  {
    hide Serve, Compile, EncodeAll, RecordFits, ValidOperation;
    CompileFits(port, c.cycle.ops, 0, c.checked, c.rba);
    CompileOpen(port, c.cycle.ops, 0, c.checked, c.rba);
    PartOpen(env, port, ss, Compile(port, c.cycle.ops, 0, c.checked, c.rba), a);
  }

  /** The line stands in the middle of a cycle of which `a` was received, starting from `ss`. */
  ghost predicate Midway<S>(env: Env<S>, port: Port, ss: Session<S>, a: seq<byte>, l: Line<S>)
    requires port.Valid()
  {
    && !l.dead && l.kept == Serve(env, port, ss, a).rest
    && (if l.idle then a == [] && ss == Fresh(l.ss.m.s) else l.ss == Serve(env, port, ss, a).ss)
  }

  /** More of the cycle arrives, but not its end. */
  lemma MoreOfCycle<S>(env: Env<S>, port: Port, ss: Session<S>, a: seq<byte>, l: Line<S>, d: seq<byte>)
    requires port.Valid() && Midway(env, port, ss, a, l) && d != [] && !Receive(env, port, l, d).0.dead
    ensures var got := Receive(env, port, l, d);
            var all := Serve(env, port, ss, a + d);
            && got.0 == Line(all.ss, all.rest, all.ss.closed && all.rest == [], false) && !Stuck(port, all)
            && Serve(env, port, ss, a).output + got.1 == all.output
  {
    hide Serve, Stuck;
    ServeSplit(env, port, ss, a, d);
    if l.idle {
      ServeNone(env, port, ss);
    }
    StuckSame(port, Serve(env, port, ss, a + d), Serve(env, port, if l.idle then ss else l.ss, l.kept + d));
  }

  lemma StuckSame<S>(port: Port, a: Served<S>, b: Served<S>)
    requires port.Valid() && a.ss == b.ss && a.rest == b.rest
    ensures Stuck(port, a) == Stuck(port, b)
  {
  }

  lemma AwakeReceives<S>(env: Env<S>, port: Port, ss: Session<S>, y: seq<byte>)
    requires port.Valid()
    ensures var out := Serve(env, port, ss, [] + y);
            Receive(env, port, Line(ss, [], false, false), y)
              == (Line(out.ss, out.rest, out.ss.closed && out.rest == [], Stuck(port, out)), out.output)
  {
    hide Serve, Stuck;
  }

  /** A piece that ends one cycle and goes on serves the rest as if it had been cut between them, except
      that no new session starts there. */
  lemma AcrossCycles<S>(env: Env<S>, port: Port, ss: Session<S>, a: seq<byte>, l: Line<S>, x: seq<byte>, y: seq<byte>)
    requires port.Valid() && Midway(env, port, ss, a, l) && y != [] && !Receive(env, port, l, x + y).0.dead
    requires Serve(env, port, ss, a + x).rest == []
    ensures var one := Serve(env, port, ss, a + x);
            var got := Receive(env, port, l, x + y);
            var more := Receive(env, port, Line(one.ss, [], false, false), y);
            got.0 == more.0 && Serve(env, port, ss, a).output + got.1 == one.output + more.1
  {
    hide *;
    var one := Serve(env, port, ss, a + x);
    MoreOfCycle(env, port, ss, a, l, x + y);
    ServeSplit(env, port, ss, a + x, y);
    assert (a + x) + y == a + (x + y);
    assert [] + y == y;
    AwakeReceives(env, port, one.ss, y);
    StuckSame(port, Serve(env, port, ss, a + (x + y)), Serve(env, port, one.ss, y));
  }

  lemma PrefixPart(all: seq<byte>, more: seq<byte>, a: seq<byte>, d: seq<byte>, rest: seq<byte>)
    requires a + (d + rest) == all + more
    ensures |a + d| <= |all| ==> a + d == all[..|a + d|]
    ensures |a| <= |all| <= |a + d| ==> var k := |all| - |a|; a + d[..k] == all && d[k..] + rest == more && d[..k] + d[k..] == d
  {
    var whole := a + (d + rest);
    if |a + d| <= |all| {
      assert whole[..|a + d|] == a + d && (all + more)[..|a + d|] == all[..|a + d|];
    }
    if |a| <= |all| <= |a + d| {
      var k := |all| - |a|;
      assert whole[..|all|] == a + d[..k] && whole[|all|..] == d[k..] + rest;
    }
  }

  lemma DeliverStep<S>(env: Env<S>, port: Port, l: Line<S>, chunks: seq<seq<byte>>)
    requires port.Valid() && |chunks| > 0 && !Deliver(env, port, l, chunks).0.dead
    ensures var got := Receive(env, port, l, chunks[0]);
            && !got.0.dead && Deliver(env, port, l, chunks)
               == (Deliver(env, port, got.0, chunks[1..]).0, got.1 + Deliver(env, port, got.0, chunks[1..]).1)
  {
    hide Receive;
    var got := Receive(env, port, l, chunks[0]);
    if got.0.dead {
      DeadStays(env, port, got.0, chunks[1..]);
    }
  }

  lemma DeliverCons<S>(env: Env<S>, port: Port, l: Line<S>, d: seq<byte>, more: seq<seq<byte>>)
    requires port.Valid()
    ensures var got := Receive(env, port, l, d);
            var rest := Deliver(env, port, got.0, more);
            Deliver(env, port, l, [d] + more) == (rest.0, got.1 + rest.1)
  {
    hide Receive;
    assert ([d] + more)[1..] == more;
  }

  lemma StreamStep(port: Port, cs: seq<Sent>)
    requires Sendable(port, cs) && |cs| > 0
    ensures port.Valid() && Sendable(port, cs[1..]) && Packable(port, cs[0].cycle.ops, cs[0].checked, cs[0].rba)
    ensures StreamBytes(port, cs) == BytesOf(port, cs[0]) + StreamBytes(port, cs[1..])
    ensures |cs| == 1 ==> StreamBytes(port, cs[1..]) == []
  {
    hide BytesOf, Packable;
  }

  lemma SomeBytes(port: Port, c: Sent)
    requires Packable(port, c.cycle.ops, c.checked, c.rba)
    ensures |BytesOf(port, c)| > 0
  {
    hide Compile, Encode, RecordFits;
    CompileFits(port, c.cycle.ops, 0, c.checked, c.rba);
    var recs := Compile(port, c.cycle.ops, 0, c.checked, c.rba);
    assert EncodeAll(port, recs) == Encode(port, recs[0]) + EncodeAll(port, recs[1..]);
  }

  lemma PiecesStep(chunks: seq<seq<byte>>)
    requires Pieces(chunks) && Joined(chunks) != []
    ensures |chunks| > 0 && chunks[0] != [] && Pieces(chunks[1..]) && Joined(chunks) == chunks[0] + Joined(chunks[1..])
    ensures Joined(chunks[1..]) == [] ==> chunks[1..] == []
  {
  }

  lemma JoinedCons(y: seq<byte>, more: seq<seq<byte>>)
    requires Pieces(more) && y != []
    ensures Pieces([y] + more) && Joined([y] + more) == y + Joined(more)
  {
    assert ([y] + more)[1..] == more;
  }

  lemma MidwayIs<S>(env: Env<S>, port: Port, ss: Session<S>, a: seq<byte>, l: Line<S>)
    requires port.Valid() && !l.dead && l.kept == Serve(env, port, ss, a).rest
    requires if l.idle then a == [] && ss == Fresh(l.ss.m.s) else l.ss == Serve(env, port, ss, a).ss
    ensures Midway(env, port, ss, a, l)
  {
    hide Serve;
  }

  lemma AnsweredNone<S>(env: Env<S>, port: Port, ss: Session<S>, cs: seq<Sent>)
    requires Sendable(port, cs) && |cs| == 0
    ensures Answered(env, port, ss, cs, [], [], ss.m.s)
  {
  }

  lemma FreshHas<S>(s: S)
    ensures Fresh(s).m == Machine(s, 0) && Fresh(s).closed
  {
  }

  /** The piece that arrives ends the cycle. */
  lemma {:induction false} CycleEnds<S>(env: Env<S>, port: Port, ss: Session<S>, a: seq<byte>, l: Line<S>, cs: seq<Sent>, d: seq<byte>, more: seq<seq<byte>>)
    requires Sendable(port, cs) && |cs| > 0 && Pieces(more) && d != [] && Midway(env, port, ss, a, l)
    requires |a| < |BytesOf(port, cs[0])| <= |a + d| && a + (d + Joined(more)) == StreamBytes(port, cs)
    requires var got := Receive(env, port, l, d); !got.0.dead && !Deliver(env, port, got.0, more).0.dead
    ensures var got := Receive(env, port, l, d);
            var end := Deliver(env, port, got.0, more);
            && end.0.idle && end.0.kept == []
            && Answered(env, port, ss, cs, Restarts(port, cs, |a|, [d] + more), Serve(env, port, ss, a).output + (got.1 + end.1), end.0.ss.m.s)
    decreases |d + Joined(more)|, 0
  {
    hide *;
    StreamStep(port, cs);
    PrefixPart(BytesOf(port, cs[0]), StreamBytes(port, cs[1..]), a, d, Joined(more));
    var k := |BytesOf(port, cs[0])| - |a|;
    var x, y := d[..k], d[k..];
    var one := Serve(env, port, ss, BytesOf(port, cs[0]));
    WholeCycle(env, port, ss, cs[0]);
    var got := Receive(env, port, l, d);
    var end := Deliver(env, port, got.0, more);
    FreshHas(one.ss.m.s);
    if y == [] {
      assert x == d;
      MoreOfCycle(env, port, ss, a, l, d);
      RestartsAtEnd(port, cs, |a|, d, more);
      RestartIs(one.ss);
      if |cs| == 1 {
        PiecesEnd(more);
        AnsweredNone(env, port, Fresh(one.ss.m.s), cs[1..]);
        DeliverNone(env, port, got.0);
        NoRestarts(port, cs[1..], 0, more);
        AnsweredFirst(env, port, ss, cs, true, [], [], one.ss.m.s);
      } else {
        ServeNone(env, port, Fresh(one.ss.m.s));
        MidwayIs(env, port, Fresh(one.ss.m.s), [], got.0);
        StreamStep(port, cs[1..]);
        SomeBytes(port, cs[1..][0]);
        assert [] + Joined(more) == Joined(more) && y + Joined(more) == Joined(more);
        RestAnswered(env, port, Fresh(one.ss.m.s), [], got.0, cs[1..], more);
        assert [] + end.1 == end.1;
        AnsweredFirst(env, port, ss, cs, true, Restarts(port, cs[1..], 0, more), end.1, end.0.ss.m.s);
      }
      Regroup(Serve(env, port, ss, a).output, got.1, end.1);
    } else {
      AcrossCycles(env, port, ss, a, l, x, y);
      var v := Line(one.ss, [], false, false);
      var next := Receive(env, port, v, y);
      ServeNone(env, port, one.ss);
      MidwayIs(env, port, one.ss, [], v);
      StreamStep(port, cs[1..]);
      SomeBytes(port, cs[1..][0]);
      JoinedCons(y, more);
      DeliverCons(env, port, v, y, more);
      assert [] + Joined([y] + more) == Joined([y] + more);
      RestAnswered(env, port, one.ss, [], v, cs[1..], [y] + more);
      var out := next.1 + end.1;
      assert [] + out == out;
      RestartsInside(port, cs, |a|, d, k, more);
      RestartIs(one.ss);
      AnsweredFirst(env, port, ss, cs, false, Restarts(port, cs[1..], 0, [y] + more), out, end.0.ss.m.s);
      Regroup(Serve(env, port, ss, a).output, got.1, end.1);
      Regroup(one.output, next.1, end.1);
    }
  }

  lemma RestartIs<S>(ss: Session<S>)
    ensures NextSession(true, ss) == Fresh(ss.m.s) && NextSession(false, ss) == ss
  {
  }

  lemma NoRestarts(port: Port, cs: seq<Sent>, seen: int, chunks: seq<seq<byte>>)
    requires Sendable(port, cs) && |cs| == 0
    ensures Restarts(port, cs, seen, chunks) == []
  {
  }

  lemma PiecesEnd(more: seq<seq<byte>>)
    requires Pieces(more) && Joined(more) == []
    ensures more == []
  {
  }

  lemma DeliverNone<S>(env: Env<S>, port: Port, l: Line<S>)
    requires port.Valid()
    ensures Deliver(env, port, l, []) == (l, [])
  {
  }

  /** The cycles `cs` are on the line and `a` of the first has been received: whatever way the rest is
      cut, it is answered, and the line comes to rest behind the last cycle. */
  lemma {:induction false} RestAnswered<S>(env: Env<S>, port: Port, ss: Session<S>, a: seq<byte>, l: Line<S>,
    cs: seq<Sent>, chunks: seq<seq<byte>>)
    requires Sendable(port, cs) && |cs| > 0 && Pieces(chunks) && Midway(env, port, ss, a, l)
    requires |a| < |BytesOf(port, cs[0])| && a + Joined(chunks) == StreamBytes(port, cs)
    requires !Deliver(env, port, l, chunks).0.dead
    ensures var end := Deliver(env, port, l, chunks);
            && end.0.idle && end.0.kept == []
            && Answered(env, port, ss, cs, Restarts(port, cs, |a|, chunks), Serve(env, port, ss, a).output + end.1, end.0.ss.m.s)
    decreases |Joined(chunks)|, 1
  {
    hide *;
    StreamStep(port, cs);
    PiecesStep(chunks);
    var d, more := chunks[0], chunks[1..];
    DeliverStep(env, port, l, chunks);
    PrefixPart(BytesOf(port, cs[0]), StreamBytes(port, cs[1..]), a, d, Joined(more));
    if |a + d| < |BytesOf(port, cs[0])| {
      MoreOfCycle(env, port, ss, a, l, d);
      PartCycle(env, port, ss, cs[0], a + d);
      var got := Receive(env, port, l, d);
      MidwayIs(env, port, ss, a + d, got.0);
      assert (a + d) + Joined(more) == a + (d + Joined(more));
      assert chunks == [d] + more;
      RestartsLater(port, cs, |a|, d, more);
      RestAnswered(env, port, ss, a + d, got.0, cs, more);
      Regroup(Serve(env, port, ss, a).output, got.1, Deliver(env, port, got.0, more).1);
    } else {
      assert chunks == [d] + more;
      CycleEnds(env, port, ss, a, l, cs, d, more);
    }
  }

  /** Chunking independence of the reply: a stream of packed cycles, cut anywhere the connection
      survives, is answered cycle by cycle, and the line comes to rest behind the last one. All that the
      cuts decide is where sessions begin: behind the cycles that end with a piece. */
  lemma StreamAnswered<S>(env: Env<S>, port: Port, s: S, cs: seq<Sent>, chunks: seq<seq<byte>>)
    requires Sendable(port, cs) && Pieces(chunks) && Joined(chunks) == StreamBytes(port, cs)
    requires !Deliver(env, port, AtRest(s), chunks).0.dead
    ensures var end := Deliver(env, port, AtRest(s), chunks);
            && end.0.idle && end.0.kept == []
            && Answered(env, port, Fresh(s), cs, Restarts(port, cs, 0, chunks), end.1, end.0.ss.m.s)
  {
    hide *;
    FreshHas(s);
    RestIs(s);
    if |cs| == 0 {
      StreamNone(port, cs);
      PiecesEnd(chunks);
      DeliverNone(env, port, AtRest(s));
      AnsweredNone(env, port, Fresh(s), cs);
      NoRestarts(port, cs, 0, chunks);
    } else {
      StreamStep(port, cs);
      ServeNone(env, port, Fresh(s));
      MidwayIs(env, port, Fresh(s), [], AtRest(s));
      SomeBytes(port, cs[0]);
      assert [] + Joined(chunks) == Joined(chunks);
      RestAnswered(env, port, Fresh(s), [], AtRest(s), cs, chunks);
      var out := Deliver(env, port, AtRest(s), chunks).1;
      assert [] + out == out;
    }
  }

  lemma RestIs<S>(s: S)
    ensures AtRest(s) == Line(Fresh(s), [], true, false)
  {
  }

  lemma StreamNone(port: Port, cs: seq<Sent>)
    requires Sendable(port, cs) && |cs| == 0
    ensures StreamBytes(port, cs) == [] && port.Valid()
  {
  }

  lemma ExecStep<S>(env: Env<S>, port: Port, ss: Session<S>, rs: seq<Record>)
    requires port.Valid() && |rs| > 0
    ensures var first := ExecRecord(env, port, ss, rs[0]);
            var rest := ExecRecords(env, port, first.0, rs[1..]);
            ExecRecords(env, port, ss, rs) == (rest.0, first.1 + rest.1)
  {
    hide ExecRecord;
  }

  /** A reply ends the master's cycle exactly as the slave's own cycle ends. */
  lemma ReplyCloses<S, Q>(env: Env<S>, menv: Env<Q>, port: Port, ss: Session<S>, r: Record, ms: Session<Q>)
    requires port.Valid() && (ss.open || ms.closed)
    ensures var out := ExecRecord(env, port, ss, r);
            var got := ExecRecords(menv, port, ms, out.1).0;
            (out.0.open || got.closed) && (r.cyc ==> got.closed)
  {
    hide AfterWrites, AfterReads, DecodeSelect;
    var out := ExecRecord(env, port, ss, r);
    if |out.1| == 1 {
      assert out.1 == [out.1[0]];
      LastRecord(menv, port, ms, out.1[0]);
    }
  }

  lemma {:induction false} RepliesClose<S, Q>(env: Env<S>, menv: Env<Q>, port: Port, ss: Session<S>, rs: seq<Record>, ms: Session<Q>)
    requires port.Valid() && (ss.open || ms.closed) && OpenUntilLast(rs)
    ensures ExecRecords(menv, port, ms, ExecRecords(env, port, ss, rs).1).0.closed
    decreases |rs|
  {
    hide ExecRecord, ExecRecords;
    ReplyCloses(env, menv, port, ss, rs[0], ms);
    var out := ExecRecord(env, port, ss, rs[0]);
    ExecStep(env, port, ss, rs);
    ExecConcat(menv, port, ms, out.1, ExecRecords(env, port, out.0, rs[1..]).1);
    if |rs| == 1 {
      ExecNone(env, port, out.0, rs[1..]);
      ExecNone(menv, port, ExecRecords(menv, port, ms, out.1).0, []);
    } else {
      RepliesClose(env, menv, port, out.0, rs[1..], ExecRecords(menv, port, ms, out.1).0);
    }
  }

  /** The replies to a cycle are themselves one cycle, whose line goes down with the last of them. The slave takes
      the line for open from the first reply on until a record with reads ends a cycle; there are no replies exactly
      if it does not and nothing in the cycle is read. So once a cycle with reads has ended without one, every
      further cycle without reads is answered with an end of cycle of its own. */
  lemma {:induction false} RepliesOpen<S>(env: Env<S>, port: Port, ss: Session<S>, rs: seq<Record>)
    requires port.Valid() && OpenUntilLast(rs)
    ensures var out := ExecRecords(env, port, ss, rs).1;
            if !ss.open && Quiet(rs) then out == [] else OpenUntilLast(out)
    ensures ExecRecords(env, port, ss, rs).0.open <==> |rs[|rs| - 1].addrs| == 0 && (ss.open || !Quiet(rs))
    decreases |rs|
  {
    hide ExecRecord, ExecRecords, OpenUntilLast, Quiet;
    LastOrMore(rs);
    ReplyOpen(env, port, ss, rs[0]);
    var out := ExecRecord(env, port, ss, rs[0]);
    ExecStep(env, port, ss, rs);
    if |rs| == 1 {
      assert rs[1..] == [];
      NoneQuiet();
      OneCloses(out.1);
      ExecNone(env, port, out.0, rs[1..]);
      assert out.1 + [] == out.1;
    } else {
      RepliesOpen(env, port, out.0, rs[1..]);
      OpenBefore(out.1, ExecRecords(env, port, out.0, rs[1..]).1);
    }
  }

  lemma ReplyOpen<S>(env: Env<S>, port: Port, ss: Session<S>, r: Record)
    requires port.Valid()
    ensures var out := ExecRecord(env, port, ss, r);
            && |out.1| <= 1 && (|out.1| == 1 ==> out.1[0].cyc == r.cyc)
            && (r.cyc ==> (|out.1| == 1 <==> ss.open || |r.addrs| > 0))
            && (!r.cyc ==> (|out.1| == 1 <==> |r.addrs| > 0) && (out.0.open <==> ss.open || |r.addrs| > 0))
            && (r.cyc ==> (out.0.open <==> ss.open && |r.addrs| == 0))
  {
    hide AfterWrites, AfterReads;
  }

  lemma LastOrMore(rs: seq<Record>)
    requires OpenUntilLast(rs)
    ensures |rs| > 0 && (|rs| == 1 <==> rs[0].cyc) && (|rs| > 1 ==> OpenUntilLast(rs[1..]))
    ensures Quiet(rs) <==> |rs[0].addrs| == 0 && Quiet(rs[1..])
  {
    assert rs == [rs[0]] + rs[1..];
  }

  lemma NoneQuiet()
    ensures Quiet([])
  {}

  lemma OneCloses(a: seq<Record>)
    requires |a| <= 1
    ensures |a| == 1 && a[0].cyc ==> OpenUntilLast(a)
  {}

  lemma OpenBefore(a: seq<Record>, b: seq<Record>)
    requires |a| <= 1 && (|a| == 1 ==> !a[0].cyc)
    ensures b == [] && a == [] ==> a + b == []
    ensures OpenUntilLast(b) ==> OpenUntilLast(a + b)
  {
    if |a| == 0 {
      assert a + b == b;
    }
  }

  lemma ExecNone<S>(env: Env<S>, port: Port, ss: Session<S>, rs: seq<Record>)
    requires port.Valid() && |rs| == 0
    ensures ExecRecords(env, port, ss, rs) == (ss, [])
  {
  }

  /** Records without reads. */
  predicate Quiet(rs: seq<Record>) {
    forall i | 0 <= i < |rs| :: |rs[i].addrs| == 0
  }

  lemma {:induction false} CompileQuiet(port: Port, ops: seq<Operation>, count: nat, checked: bool, rba: nat)
    requires port.Valid() && ValidOperations(port, ops) && Pending(port, ops, count, checked) && !Asks(ops, count, checked)
    ensures Quiet(Compile(port, ops, count, checked, rba))
    decreases |ops|, count
  {
    hide PlanRecord, MakeRecord, PlanRuns, ValidOperation, ChargeAll, Asks;
    var p := PlanRecord(port, ops, count, checked);
    PlanCountsCorrect(port, ops, count, checked);
    AsksStep(port, ops, count, checked);
    MakeQuiet(port, ops, p, rba);
    if !p.last {
      ChargeBounds(count, ops[..p.w + p.r]);
      CompileQuiet(port, ops[p.w + p.r..], p.count, checked, rba);
    }
  }

  lemma MakeQuiet(port: Port, ops: seq<Operation>, p: Plan, rba: nat)
    requires port.Valid() && p.w + p.r <= |ops| && !p.status && p.r == 0
    ensures MakeRecord(port, ops, p, rba).addrs == []
  {
    hide PlanShape, LaneOf, SelectByte, LaneValues, StatusAddress;
    assert |Addresses(ops[p.w..p.w + p.r])| == 0;
  }

  /** What comes back for a quiet cycle carries nothing: at most the end of a cycle. */
  lemma {:induction false} QuietReplies<S, Q>(env: Env<S>, menv: Env<Q>, port: Port, ss: Session<S>, rs: seq<Record>, ms: Session<Q>)
    requires port.Valid() && Quiet(rs)
    ensures ExecRecords(menv, port, ms, ExecRecords(env, port, ss, rs).1).0.m.s == ms.m.s
    decreases |rs|
  {
    hide ExecRecord, ExecRecords;
    if |rs| == 0 {
      ExecNone(env, port, ss, rs);
      ExecNone(menv, port, ms, []);
    } else {
      QuietReply(env, menv, port, ss, rs[0], ms);
      var out := ExecRecord(env, port, ss, rs[0]);
      ExecStep(env, port, ss, rs);
      ExecConcat(menv, port, ms, out.1, ExecRecords(env, port, out.0, rs[1..]).1);
      QuietReplies(env, menv, port, out.0, rs[1..], ExecRecords(menv, port, ms, out.1).0);
    }
  }

  lemma QuietReply<S, Q>(env: Env<S>, menv: Env<Q>, port: Port, ss: Session<S>, r: Record, ms: Session<Q>)
    requires port.Valid() && |r.addrs| == 0
    ensures ExecRecords(menv, port, ms, ExecRecord(env, port, ss, r).1).0.m.s == ms.m.s
  {
    hide AfterWrites;
    var out := ExecRecord(env, port, ss, r).1;
    if |out| == 1 {
      assert out == [TERMINATOR];
      LastRecord(menv, port, ms, TERMINATOR);
      Idle(menv, port, ms);
    }
  }

  lemma Idle<Q>(menv: Env<Q>, port: Port, ms: Session<Q>)
    requires port.Valid()
    ensures ExecRecord(menv, port, ms, TERMINATOR).0.m == ms.m
  {
    hide DecodeSelect;
  }

  /** The answers the master still waits for, in the order the cycles were sent. */
  function Awaiting(cs: seq<Sent>): (rs: seq<Response>)
    ensures AllOk(rs)
  {
    if |cs| == 0 then []
    else if NeedsReply(cs[0].cycle.ops, cs[0].checked)
      then [NewResponse(cs[0].cycle, cs[0].rba, cs[0].deadline, cs[0].checked)] + Awaiting(cs[1..])
      else Awaiting(cs[1..])
  }

  /** Direct execution of all cycles, one after the other, each with an empty error register: the device
      afterwards, and the callbacks. */
  function Direct<S>(env: Env<S>, port: Port, s: S, cs: seq<Sent>): (S, seq<Done>)
    requires port.Valid() && forall i | 0 <= i < |cs| :: ValidOperations(port, cs[i].cycle.ops)
  {
    if |cs| == 0 then (s, []) else
      var c := cs[0];
      var out := Run(env, port, Machine(s, 0), c.cycle.ops);
      var rest := Direct(env, port, out.0.s, cs[1..]);
      (rest.0, OwnCallback(c, out.1) + rest.1)
  }

  /** Direct execution that keeps the error register, except that it is cleared where `restarts` says so. */
  function DirectFrom<S>(env: Env<S>, port: Port, m: Machine<S>, cs: seq<Sent>, restarts: seq<bool>): (S, seq<Done>)
    requires port.Valid() && |restarts| == |cs| && forall i | 0 <= i < |cs| :: ValidOperations(port, cs[i].cycle.ops)
    decreases |cs|
  {
    if |cs| == 0 then (m.s, []) else
      var c := cs[0];
      var out := Run(env, port, m, c.cycle.ops);
      var rest := DirectFrom(env, port, NextMachine(restarts[0], out.0), cs[1..], restarts[1..]);
      (rest.0, OwnCallback(c, out.1) + rest.1)
  }

  function NextMachine<S>(restart: bool, m: Machine<S>): Machine<S> {
    if restart then Machine(m.s, 0) else m
  }

  /** The callback of a cycle that is awaited. */
  function OwnCallback(c: Sent, outs: seq<Outcome>): seq<Done>
    requires |outs| == |c.cycle.ops|
  {
    if NeedsReply(c.cycle.ops, c.checked) then [Finished(c, outs)] else []
  }

  ghost predicate AllSteady(port: Port, cs: seq<Sent>) {
    && port.Valid()
    && forall i | 0 <= i < |cs| :: ValidOperations(port, cs[i].cycle.ops) && Steady(port, cs[i].cycle.ops)
  }

  /** Where the register is cleared never matters for the device, and for the callbacks it does not if all
      reads of the register are settled. */
  lemma {:induction false} DirectSame<S>(env: Env<S>, port: Port, m: Machine<S>, cs: seq<Sent>, restarts: seq<bool>)
    requires port.Valid() && |restarts| == |cs| && forall i | 0 <= i < |cs| :: ValidOperations(port, cs[i].cycle.ops)
    ensures DirectFrom(env, port, m, cs, restarts).0 == Direct(env, port, m.s, cs).0
    ensures AllSteady(port, cs) ==> DirectFrom(env, port, m, cs, restarts).1 == Direct(env, port, m.s, cs).1
    decreases |cs|
  {
    hide Run, Steady, ValidOperation, OwnCallback;
    if |cs| > 0 {
      var ops := cs[0].cycle.ops;
      RunAlike(env, port, m, Machine(m.s, 0), ops);
      if Steady(port, ops) {
        RunSteady(env, port, m, Machine(m.s, 0), ops);
      }
      DirectSame(env, port, NextMachine(restarts[0], Run(env, port, m, ops).0), cs[1..], restarts[1..]);
    }
  }

  function Finished(c: Sent, outs: seq<Outcome>): Done
    requires |outs| == |c.cycle.ops|
  {
    Done(c.cycle.id, c.cycle.device, ResultStatus(c.cycle.ops, outs, c.checked), Operations(Results(c.cycle.ops, outs, c.checked)))
  }

  /** Cycles the master packed from untouched operations. */
  ghost predicate Clean(port: Port, cs: seq<Sent>)
    requires Sendable(port, cs)
  {
    forall i | 0 <= i < |cs| :: Untouched(cs[i].cycle.ops)
  }

  /** The reply to one cycle takes the master's line back to rest. */
  lemma ReplyRests<S, Q>(env: Env<S>, menv: Env<Q>, port: Port, ss: Session<S>, c: Sent, ms: Session<Q>)
    requires Packable(port, c.cycle.ops, c.checked, c.rba) && ms.closed
    ensures var back := Serve(menv, port, ms, Serve(env, port, ss, BytesOf(port, c)).output);
            && back.rest == [] && back.ss.closed
            && (!NeedsReply(c.cycle.ops, c.checked) ==> back.ss.m.s == ms.m.s)
  {
    hide Serve, Compile, EncodeAll, ExecRecords, Run, RecordFits, ValidOperation, NeedsReply, Asks, OpenUntilLast, Quiet;
    var ops := c.cycle.ops;
    CompileFits(port, ops, 0, c.checked, c.rba);
    CompileOpen(port, ops, 0, c.checked, c.rba);
    var rs := Compile(port, ops, 0, c.checked, c.rba);
    ServeAll(env, port, ss, rs);
    ServeAll(menv, port, ms, ExecRecords(env, port, ss, rs).1);
    RepliesClose(env, menv, port, ss, rs, ms);
    AsksIsNeedsReply(ops, c.checked);
    if !NeedsReply(ops, c.checked) {
      CompileQuiet(port, ops, 0, c.checked, c.rba);
      QuietReplies(env, menv, port, ss, rs, ms);
    }
  }

  /** No response waits at this return address. */
  predicate NoneAt(rs: seq<Response>, address: nat) {
    forall k | 0 <= k < |rs| :: rs[k].address != address
  }

  predicate Apart(rs: seq<Response>, cs: seq<Sent>) {
    forall i | 0 <= i < |cs| :: NoneAt(rs, cs[i].rba)
  }

  lemma OneDelivered<S(!new)>(env: Env<S>, menv: Env<Queue>, port: Port, ss: Session<S>, c: Sent, ms: Session<Queue>,
    before: seq<Response>, after: seq<Response>)
    requires Packable(port, c.cycle.ops, c.checked, c.rba) && Untouched(c.cycle.ops)
    requires TakesReplies(menv) && ms.closed && QueueOk(ms.m.s) && AllOk(before) && AllOk(after) && NoneAt(before, c.rba)
    requires Fifo(ms.m.s) == before + (if NeedsReply(c.cycle.ops, c.checked) then [NewResponse(c.cycle, c.rba, c.deadline, c.checked)] else []) + after
    ensures var direct := Run(env, port, ss.m, c.cycle.ops);
            var one := Serve(env, port, ss, BytesOf(port, c));
            var back := Serve(menv, port, ms, one.output);
            && one.ss.m == direct.0 && back.rest == [] && back.ss.closed && QueueOk(back.ss.m.s)
            && Fifo(back.ss.m.s) == before + after
            && back.ss.m.s.log == ms.m.s.log + OwnCallback(c, direct.1)
  {
    hide Serve, Run, Fifo, NewResponse, NeedsReply, CycleBytes, ValidOperation, Fresh, Untouched, AllOk, QueueOk, Results, ResultStatus;
    var ops := c.cycle.ops;
    WholeCycle(env, port, ss, c);
    ReplyRests(env, menv, port, ss, c, ms);
    if NeedsReply(ops, c.checked) {
      FreshHas(ms.m.s);
      EndToEndOnBytes(env, menv, port, ss, ms.m.s, before, after, c.cycle, c.deadline, c.checked, c.rba);
      ServeBlind(menv, port, ms, Fresh(ms.m.s), Serve(env, port, ss, BytesOf(port, c)).output);
    } else {
      assert before + [] + after == before + after;
    }
  }

  lemma {:induction false} AnswersDelivered<S(!new)>(env: Env<S>, menv: Env<Queue>, port: Port, ss: Session<S>, cs: seq<Sent>, restarts: seq<bool>,
    out: seq<byte>, s': S, ms: Session<Queue>, before: seq<Response>, after: seq<Response>)
    requires Sendable(port, cs) && Clean(port, cs) && |restarts| == |cs| && Answered(env, port, ss, cs, restarts, out, s') && Apart(before, cs)
    requires TakesReplies(menv) && ms.closed && QueueOk(ms.m.s) && AllOk(before) && AllOk(after)
    requires Fifo(ms.m.s) == before + Awaiting(cs) + after
    ensures var back := Serve(menv, port, ms, out);
            var direct := DirectFrom(env, port, ss.m, cs, restarts);
            && s' == direct.0 && back.rest == [] && back.ss.closed && QueueOk(back.ss.m.s)
            && Fifo(back.ss.m.s) == before + after && back.ss.m.s.log == ms.m.s.log + direct.1
    decreases |cs|
  {
    hide Serve, Run, Fifo, NewResponse, NeedsReply, BytesOf, ValidOperation, Untouched, AllOk, QueueOk, OwnCallback;
    if |cs| == 0 {
      ServeNone(menv, port, ms);
      assert before + Awaiting(cs) + after == before + after;
      assert ms.m.s.log + [] == ms.m.s.log;
    } else {
      var c := cs[0];
      var one := Serve(env, port, ss, BytesOf(port, c));
      var rest := out[|one.output|..];
      assert out == one.output + rest;
      var mine := if NeedsReply(c.cycle.ops, c.checked) then [NewResponse(c.cycle, c.rba, c.deadline, c.checked)] else [];
      assert Awaiting(cs) == mine + Awaiting(cs[1..]);
      Regroup4(before, mine, Awaiting(cs[1..]), after);
      AllOkJoin(Awaiting(cs[1..]), after);
      OneDelivered(env, menv, port, ss, c, ms, before, Awaiting(cs[1..]) + after);
      Regroup(before, Awaiting(cs[1..]), after);
      var mid := Serve(menv, port, ms, one.output);
      ServeSplit(menv, port, ms, one.output, rest);
      assert [] + rest == rest;
      FreshHas(one.ss.m.s);
      var ss' := NextSession(restarts[0], one.ss);
      AnswersDelivered(env, menv, port, ss', cs[1..], restarts[1..], rest, s', mid.ss, before, after);
      Regroup(ms.m.s.log, OwnCallback(c, Run(env, port, ss.m, c.cycle.ops).1), DirectFrom(env, port, ss'.m, cs[1..], restarts[1..]).1);
    }
  }

  lemma Regroup4<T>(a: seq<T>, b: seq<T>, c: seq<T>, d: seq<T>)
    ensures a + (b + c) + d == a + b + (c + d)
  {
  }

  lemma AllOkJoin(a: seq<Response>, b: seq<Response>)
    requires AllOk(a) && AllOk(b)
    ensures AllOk(a + b)
  {
  }

  lemma {:induction false} WholeCycles<S>(env: Env<S>, port: Port, ss: Session<S>, cs: seq<Sent>)
    requires Sendable(port, cs) && ss.closed
    ensures var out := Serve(env, port, ss, StreamBytes(port, cs)); out.rest == [] && out.ss.closed
    decreases |cs|
  {
    hide Serve, StreamBytes, BytesOf, Packable, Run, ValidOperation;
    if |cs| == 0 {
      StreamNone(port, cs);
      ServeNone(env, port, ss);
    } else {
      StreamStep(port, cs);
      WholeCycle(env, port, ss, cs[0]);
      var one := Serve(env, port, ss, BytesOf(port, cs[0]));
      ServeSplit(env, port, ss, BytesOf(port, cs[0]), StreamBytes(port, cs[1..]));
      assert [] + StreamBytes(port, cs[1..]) == StreamBytes(port, cs[1..]);
      WholeCycles(env, port, one.ss, cs[1..]);
    }
  }

  /** Where a stream of cycles must not be cut: exactly behind the first bytes of a cycle that do not
      make up a record header yet. */
  lemma BadCutIff<S>(env: Env<S>, port: Port, s: S, cs: seq<Sent>, c: Sent, a: seq<byte>)
    requires Sendable(port, cs) && port.Valid() && Packable(port, c.cycle.ops, c.checked, c.rba)
    requires |a| < |BytesOf(port, c)| && a == BytesOf(port, c)[..|a|]
    ensures Stuck(port, Serve(env, port, Fresh(s), StreamBytes(port, cs) + a)) <==> 0 < |a| < port.RecordAlignment()
  {
    hide Serve, StreamBytes, BytesOf, Packable, Port.RecordAlignment;
    FreshHas(s);
    WholeCycles(env, port, Fresh(s), cs);
    var mid := Serve(env, port, Fresh(s), StreamBytes(port, cs));
    ServeSplit(env, port, Fresh(s), StreamBytes(port, cs), a);
    assert [] + a == a;
    if a == [] {
      ServeNone(env, port, mid.ss);
    } else {
      PartCycle(env, port, mid.ss, c, a);
      if |a| < port.RecordAlignment() {
        ShortWaits(env, port, mid.ss, a);
      }
    }
  }

  lemma ShortWaits<S>(env: Env<S>, port: Port, ss: Session<S>, a: seq<byte>)
    requires port.Valid() && |a| < port.RecordAlignment()
    ensures Serve(env, port, ss, a) == Served(ss, [], a)
  {
  }

  /** End to end on a stream: requests and replies may be cut anywhere both connections survive. The
      device ends as direct execution of all cycles in order leaves it, every awaited cycle is called
      back once with its own results, in order, and both ends come to rest. The results are those of direct
      execution where the error register is cleared behind each cycle with which a piece of the request
      stream ends, and of any direct execution if all reads of that register are settled. */
  lemma StreamEndToEnd<S(!new)>(env: Env<S>, menv: Env<Queue>, port: Port, s: S, q: Queue, cs: seq<Sent>,
    before: seq<Response>, after: seq<Response>, requests: seq<seq<byte>>, replies: seq<seq<byte>>)
    requires Sendable(port, cs) && port.Valid() && Clean(port, cs)
    requires TakesReplies(menv) && QueueOk(q) && AllOk(before) && AllOk(after) && Apart(before, cs)
    requires Fifo(q) == before + Awaiting(cs) + after
    requires Pieces(requests) && Joined(requests) == StreamBytes(port, cs)
    requires Pieces(replies) && Joined(replies) == Deliver(env, port, AtRest(s), requests).1
    requires !Deliver(env, port, AtRest(s), requests).0.dead && !Deliver(menv, port, AtRest(q), replies).0.dead
    ensures var slave := Deliver(env, port, AtRest(s), requests).0;
            var master := Deliver(menv, port, AtRest(q), replies).0;
            var direct := DirectFrom(env, port, Machine(s, 0), cs, Restarts(port, cs, 0, requests));
            && slave.ss.m.s == direct.0 == Direct(env, port, s, cs).0 && slave.idle && slave.kept == []
            && master.kept == [] && QueueOk(master.ss.m.s) && Fifo(master.ss.m.s) == before + after
            && master.ss.m.s.log == q.log + direct.1
            && (AllSteady(port, cs) ==> direct.1 == Direct(env, port, s, cs).1)
  {
    hide Serve, Deliver, StreamBytes, Joined, Pieces, Clean, Sendable, Fifo, Awaiting, Direct, DirectFrom, Answered, Restarts, QueueOk, AllOk, BadCut, Fresh, Apart, AllSteady;
    FreshHas(s);
    FreshHas(q);
    StreamAnswered(env, port, s, cs, requests);
    var out := Deliver(env, port, AtRest(s), requests);
    var restarts := Restarts(port, cs, 0, requests);
    AnswersDelivered(env, menv, port, Fresh(s), cs, restarts, out.1, out.0.ss.m.s, Fresh(q), before, after);
    SameBus(menv, port, q, replies);
    ValidAll(port, cs);
    DirectSame(env, port, Machine(s, 0), cs, restarts);
  }

  lemma ValidAll(port: Port, cs: seq<Sent>)
    requires Sendable(port, cs)
    ensures forall i | 0 <= i < |cs| :: ValidOperations(port, cs[i].cycle.ops)
  {
  }
}
