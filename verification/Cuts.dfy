/**
 The one thing the cutting of a stream can change: a read of the error register that shows what an earlier
 cycle left there.
 */
module Cuts {
  import opened Words
  import opened Lanes
  import opened Operations
  import opened Bus
  import opened Interpreter
  import opened Packer
  import opened Meaning
  import opened Responses
  import opened Delivery
  import opened History
  import opened EndToEnd
  import opened Wire
  import opened Stream
  import opened Chunks
  import opened RoundTrip
  import Handlers

  /** A device that refuses everything. */
  function Refusing(): Env<nat> {
    Env((s: nat, size: nat, b: nat, l: nat) => BusReply(s, 0, true),
        (s: nat, size: nat, b: nat, l: nat, v: nat) => BusReply(s, 0, true),
        (s: nat, size: nat, a: nat, v: nat) => s)
  }

  function Poke(port: Port): Operation {
    Operation(true, false, 0, 0, port.data, Auto, false)
  }

  function LookBack(port: Port): Operation
    requires port.Valid()
  {
    Operation(false, true, StatusAddress(port), 0, port.data, Auto, false)
  }

  /** A cycle that writes a word, and one that reads the newest bits of the error register. */
  function Pair(port: Port): seq<Sent>
    requires port.Valid()
  {
    [Sent(Cycle(0, 0, [Poke(port)]), false, 0x8000, 0), Sent(Cycle(1, 0, [LookBack(port)]), false, 0x8000, 0)]
  }

  lemma PairValid(port: Port)
    requires port.Valid()
    ensures ValidOperation(port, Poke(port)) && ValidOperation(port, LookBack(port))
  {
    Pow256Monotone(1, port.addr);
    assert Pow256(1) == 256;
    hide Pow256;
  }

  lemma LooksAtStatus(port: Port)
    requires port.Valid() && ValidOperation(port, LookBack(port))
    ensures ConfigAddress(port, LookBack(port)) == StatusAddress(port)
  {
    hide Pow256, WordAddress, ValidOperation;
    StatusWord(port);
    assert LowAddress(port, LookBack(port)) == 0;
  }

  lemma PairSendable(port: Port)
    requires port.Valid()
    ensures Sendable(port, Pair(port)) && Clean(port, Pair(port))
  {
    PairValid(port);
    hide ValidOperation, StatusAddress;
  }

  /** What the read shows of a register that holds `err`. */
  lemma Shown(port: Port, m: Machine<nat>)
    requires port.Valid() && ValidOperation(port, Poke(port)) && ValidOperation(port, LookBack(port))
    ensures Run(Refusing(), port, m, [Poke(port)]) == (Machine(m.s, ShiftIn(m.err, true)), [Outcome(0, true)])
    ensures Run(Refusing(), port, m, [LookBack(port)]).1 == [Outcome(m.err % Pow256(port.data), false)]
  {
    hide ValidOperation, ConfigAddress, StatusAddress, Pow256, ReadConfig, Run, BigAddress, LittleAddress;
    StatusConfig(port, m.err);
    LooksAtStatus(port);
    RunHead(Refusing(), port, m, [Poke(port)]);
    RunHead(Refusing(), port, m, [LookBack(port)]);
    assert [Poke(port)][1..] == [] && [LookBack(port)][1..] == [];
    assert ExecOperation(Refusing(), port, m, Poke(port)) == (Machine(m.s, ShiftIn(m.err, true)), Outcome(0, true));
    assert ExecOperation(Refusing(), port, m, LookBack(port)) == (m, Outcome(m.err % Pow256(port.data), false));
    RunNothing(Refusing(), port, Machine(m.s, ShiftIn(m.err, true)));
    RunNothing(Refusing(), port, m);
    assert [Outcome(0, true)] + [] == [Outcome(0, true)];
    assert [Outcome(m.err % Pow256(port.data), false)] + [] == [Outcome(m.err % Pow256(port.data), false)];
  }

  /** The same two cycles, with and without a session boundary between them: the read sees the refused write
      or does not. */
  lemma CallbackIs(port: Port, restart: bool, last: bool)
    requires port.Valid() && forall i | 0 <= i < 2 :: ValidOperations(port, Pair(port)[i].cycle.ops)
    ensures DirectFrom(Refusing(), port, Machine(0, 0), Pair(port), [restart, last]).1
         == [Chunks.Finished(Pair(port)[1], [Outcome(if restart then 0 else 1, false)])]
  {
    hide Run, ValidOperation, Chunks.Finished, Pow256, StatusAddress;
    PairValid(port);
    Shown(port, Machine(0, 0));
    Shown(port, Machine(0, 1));
    Pow256Monotone(1, port.data);
    assert Pow256(1) == 256 by { Pow256Values(); }
    var cs, flags := Pair(port), [restart, last];
    var mid := NextMachine(restart, Machine(0, ShiftIn(0, true)));
    assert mid == Machine(0, if restart then 0 else 1);
    assert cs[1..] == [cs[1]] && flags[1..] == [last] && cs[1..][1..] == [];
    assert !cs[1].cycle.ops[0].write;
    assert DirectFrom(Refusing(), port, mid, cs[1..], flags[1..]).1 == OwnCallback(cs[1], [Outcome(mid.err, false)]) + [];
  }

  lemma ShownValues(port: Port, c: Sent, a: nat, b: nat)
    requires port.Valid() && c.cycle.ops == [LookBack(port)] && a != b
    ensures Chunks.Finished(c, [Outcome(a, false)]) != Chunks.Finished(c, [Outcome(b, false)])
  {
  }

  /** Behind a whole number of cycles a stream may be cut. */
  lemma GoodCut<S(!new)>(env: Env<S>, port: Port, s: S, chunks: seq<seq<byte>>, k: nat, cs: seq<Sent>)
    requires Sendable(port, cs) && k <= |chunks| && Joined(chunks[..k]) == StreamBytes(port, cs)
    ensures !CutIsBad(env, port, s, [], chunks, k)
  {
    hide Serve, StreamBytes, Sendable;
    StreamValid(port, cs);
    FreshHas(s);
    WholeCycles(env, port, Fresh(s), cs);
    assert [] + Joined(chunks[..k]) == Joined(chunks[..k]);
  }

  lemma StreamValid(port: Port, cs: seq<Sent>)
    requires Sendable(port, cs)
    ensures port.Valid()
  {
  }

  /** Two ways to send two cycles: in one piece, and cut between them. */
  function Whole(port: Port, cs: seq<Sent>): seq<seq<byte>>
    requires Sendable(port, cs)
  {
    [StreamBytes(port, cs)]
  }

  function Halves(port: Port, cs: seq<Sent>): seq<seq<byte>>
    requires Sendable(port, cs) && |cs| == 2
  {
    [BytesOf(port, cs[0]), BytesOf(port, cs[1])]
  }

  lemma CutStep(x: seq<byte>, more: seq<seq<byte>>, n: int)
    ensures Cut([x] + more, n) <==> n > 0 && (|x| == n || Cut(more, n - |x|))
    ensures !Cut([], n)
  {
    assert ([x] + more)[1..] == more;
  }

  lemma BothJoin(port: Port, cs: seq<Sent>)
    requires Sendable(port, cs) && |cs| == 2
    ensures Pieces(Whole(port, cs)) && Joined(Whole(port, cs)) == StreamBytes(port, cs)
    ensures Pieces(Halves(port, cs)) && Joined(Halves(port, cs)) == StreamBytes(port, cs)
    ensures Restarts(port, cs, 0, Whole(port, cs)) == [false, true] && Restarts(port, cs, 0, Halves(port, cs)) == [true, true]
  {
    hide BytesOf, Packable;
    var a, b := BytesOf(port, cs[0]), BytesOf(port, cs[1]);
    SomeBytes(port, cs[0]);
    SomeBytes(port, cs[1]);
    assert cs[1..] == [cs[1]] && cs[1..][1..] == [];
    assert StreamBytes(port, cs[1..]) == b + [] == b;
    assert StreamBytes(port, cs) == a + b;
    assert Whole(port, cs)[1..] == [] && Halves(port, cs)[1..] == [b] && Halves(port, cs)[1..][1..] == [];
    assert (a + b) + [] == a + b;
    CutStep(a + b, [], |a|);
    CutStep(a + b, [], |a| + |b|);
    CutStep(a, [b], |a|);
    CutStep(a, [b], |a| + |b|);
    CutStep(b, [], |b|);
    assert [b] + [] == [b] && Whole(port, cs) == [a + b] + [] && Halves(port, cs) == [a] + [b];
    assert Restarts(port, cs[1..], 0 - |a|, Whole(port, cs)) == [true];
    assert Restarts(port, cs[1..], 0 - |a|, Halves(port, cs)) == [true];
  }

  lemma FirstHalf(port: Port, cs: seq<Sent>)
    requires Sendable(port, cs) && |cs| == 2
    ensures Sendable(port, cs[..1]) && Joined(Halves(port, cs)[..1]) == StreamBytes(port, cs[..1])
  {
    hide BytesOf, Packable;
    var a := BytesOf(port, cs[0]);
    assert cs[..1] == [cs[0]] && cs[..1][1..] == [] && Halves(port, cs)[..1] == [a] && a + [] == a;
  }

  lemma BothLive<S(!new)>(env: Env<S>, port: Port, s: S, cs: seq<Sent>)
    requires Sendable(port, cs) && |cs| == 2 && port.Valid()
    ensures !Deliver(env, port, AtRest(s), Whole(port, cs)).0.dead && !Deliver(env, port, AtRest(s), Halves(port, cs)).0.dead
  {
    hide *;
    BothJoin(port, cs);
    FirstHalf(port, cs);
    var whole, halves := Whole(port, cs), Halves(port, cs);
    Lengths(port, cs);
    assert whole[..1] == whole && halves[..2] == halves;
    GoodCut(env, port, s, whole, 1, cs);
    GoodCut(env, port, s, halves, 1, cs[..1]);
    GoodCut(env, port, s, halves, 2, cs);
    SameBus(env, port, s, whole);
    SameBus(env, port, s, halves);
    NoBadCut(env, port, s, whole);
    NoBadCut(env, port, s, halves);
  }

  lemma Lengths(port: Port, cs: seq<Sent>)
    requires Sendable(port, cs) && |cs| == 2
    ensures |Whole(port, cs)| == 1 && |Halves(port, cs)| == 2
  {
    hide BytesOf, StreamBytes;
  }

  lemma NoBadCut<S(!new)>(env: Env<S>, port: Port, s: S, chunks: seq<seq<byte>>)
    requires port.Valid() && forall k | 0 < k <= |chunks| :: !CutIsBad(env, port, s, [], chunks, k)
    ensures !BadCut(env, port, s, [], chunks)
  {
    hide CutIsBad;
  }

  lemma PairIs(port: Port)
    requires port.Valid()
    ensures |Pair(port)| == 2 && Pair(port)[1].cycle.ops == [LookBack(port)] && Apart([], Pair(port))
    ensures Sendable(port, Pair(port)) ==> forall i | 0 <= i < 2 :: ValidOperations(port, Pair(port)[i].cycle.ops)
  {
    hide Poke, LookBack;
  }

  /** A master that waits for the answers to some cycles and nothing else. */
  lemma Fronted(cs: seq<Sent>)
    ensures var q := Queue(Awaiting(cs), [], []);
            Handlers.WellNamed<Queue>([]) && QueueOk(q) && AllOk([]) && Fifo(q) == [] + Awaiting(cs) + [] && q.log == []
  {
    hide Awaiting;
    assert Reverse(Queue(Awaiting(cs), [], []).last) == [];
  }

  /** One stream, cut in two ways that both survive, is answered with different bytes: a cycle writes to a
      device that refuses, the next one reads the error register, and whether it sees the refusal depends on
      whether a piece ends between them. */
  lemma CutsShow(port: Port)
    requires port.Valid()
    ensures Sendable(port, Pair(port)) && |Pair(port)| == 2
    ensures Joined(Whole(port, Pair(port))) == Joined(Halves(port, Pair(port)))
    ensures var whole := Deliver(Refusing(), port, AtRest(0), Whole(port, Pair(port)));
            var halves := Deliver(Refusing(), port, AtRest(0), Halves(port, Pair(port)));
            !whole.0.dead && !halves.0.dead && whole.1 != halves.1
  {
    hide *;
    PairSendable(port);
    PairIs(port);
    var cs := Pair(port);
    BothJoin(port, cs);
    BothLive(Refusing(), port, 0, cs);
    StreamAnswered(Refusing(), port, 0, cs, Whole(port, cs));
    StreamAnswered(Refusing(), port, 0, cs, Halves(port, cs));
    var whole, halves := Deliver(Refusing(), port, AtRest(0), Whole(port, cs)), Deliver(Refusing(), port, AtRest(0), Halves(port, cs));
    AnswerShows(port, [false, true], whole.1, whole.0.ss.m.s);
    AnswerShows(port, [true, true], halves.1, halves.0.ss.m.s);
    CallbackIs(port, false, true);
    CallbackIs(port, true, true);
    ShownValues(port, cs[1], 1, 0);
  }

  /** What a master makes of the answer to the pair. */
  ghost function Understood(port: Port, out: seq<byte>): seq<Done>
    requires port.Valid()
  {
    Serve(Handlers.SocketEnv([], 0, 0, TakeReply), port, Fresh(Queue(Awaiting(Pair(port)), [], [])), out).ss.m.s.log
  }

  lemma AnswerShows(port: Port, restarts: seq<bool>, out: seq<byte>, s: nat)
    requires port.Valid() && Sendable(port, Pair(port)) && |restarts| == |Pair(port)|
    requires forall i | 0 <= i < |Pair(port)| :: ValidOperations(port, Pair(port)[i].cycle.ops)
    requires Answered(Refusing(), port, Fresh(0), Pair(port), restarts, out, s)
    ensures Understood(port, out) == DirectFrom(Refusing(), port, Machine(0, 0), Pair(port), restarts).1
  {
    hide Answered, DirectFrom, Awaiting, Serve, Sendable, Pair, Fifo, ValidOperations, Handlers.SocketEnv, TakesReplies;
    var q := Queue(Awaiting(Pair(port)), [], []);
    PairIs(port);
    PairSendable(port);
    Fronted(Pair(port));
    FreshHas(q);
    FreshHas(0);
    SocketTakesReplies([], 0, 0);
    AnswersDelivered(Refusing(), Handlers.SocketEnv([], 0, 0, TakeReply), port, Fresh(0), Pair(port), restarts, out, s, Fresh(q), [], []);
    var direct := DirectFrom(Refusing(), port, Machine(0, 0), Pair(port), restarts).1;
    assert [] + direct == direct;
  }
}
