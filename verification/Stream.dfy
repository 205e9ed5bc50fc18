/**
 A slave on a stream: what it does when the bytes arrive in pieces that were cut anywhere.
 */
module Stream {
  import opened Words
  import opened Lanes
  import opened Records
  import opened Operations
  import opened Bus
  import opened Interpreter
  import opened Wire

  lemma {:induction false} ParseWordsPrefix(bytes: seq<byte>, more: seq<byte>, n: nat, align: nat)
    requires |bytes| >= Span(n, align)
    ensures ParseWords(bytes + more, n, align) == ParseWords(bytes, n, align)
    decreases n
  {
    if n != 0 {
      assert (bytes + more)[..align] == bytes[..align];
      assert (bytes + more)[align..] == bytes[align..] + more;
      ParseWordsPrefix(bytes[align..], more, n - 1, align);
    }
  }

  lemma ParseBlockPrefix(bytes: seq<byte>, more: seq<byte>, n: nat, align: nat)
    requires |bytes| >= Span(BlockWords(n), align)
    ensures ParseBase(bytes + more, n, align) == ParseBase(bytes, n, align)
    ensures ParseBlock(bytes + more, n, align) == ParseBlock(bytes, n, align)
  {
    if n != 0 {
      assert (bytes + more)[..align] == bytes[..align];
      assert (bytes + more)[align..] == bytes[align..] + more;
      ParseWordsPrefix(bytes[align..], more, n, align);
    }
  }

  /** A record is parsed the same whatever follows it. */
  lemma ParsePrefix(port: Port, a: seq<byte>, b: seq<byte>)
    requires port.Valid() && Complete(port, a)
    ensures Complete(port, a + b) && ParseRecord(port, a + b) == ParseRecord(port, a)
    ensures var n := RecordLength(port, a[2], a[3]); 0 < n <= |a| && (a + b)[2] == a[2] && (a + b)[3] == a[3] && (a + b)[n..] == a[n..] + b
  {
    hide ParseBlock, ParseBase, HasFlag;
    var align, h := port.Alignment(), port.RecordAlignment();
    var w := Span(BlockWords(a[2]), align);
    assert (a + b)[h..] == a[h..] + b;
    assert (a + b)[h..][w..] == a[h..][w..] + b;
    ParseBlockPrefix(a[h..], b, a[2], align);
    ParseBlockPrefix(a[h..][w..], b, a[3], align);
  }

  /** Serving a stream in two pieces is serving it in one. */
  lemma {:induction false} ServeSplit<S>(env: Env<S>, port: Port, ss: Session<S>, a: seq<byte>, b: seq<byte>)
    requires port.Valid()
    ensures var first := Serve(env, port, ss, a);
            var later := Serve(env, port, first.ss, first.rest + b);
            Serve(env, port, ss, a + b) == Served(later.ss, first.output + later.output, later.rest)
    decreases |a|
  {
    if Complete(port, a) {
      ParsePrefix(port, a, b);
      hide Complete, ParseRecord, RecordLength, EncodeAll, ExecRecord;
      var n := RecordLength(port, a[2], a[3]);
      var one := ServeRecord(env, port, ss, a);
      ServeSplit(env, port, one.0, a[n..], b);
      var mid := Serve(env, port, one.0, a[n..]);
      Regroup(one.1, mid.output, Serve(env, port, mid.ss, mid.rest + b).output);
    } else {
      var later := Serve(env, port, ss, a + b);
      assert [] + later.output == later.output;
    }
  }

  /** Two sessions a device cannot tell apart: only error history and reply bookkeeping may differ. */
  predicate Alike<S(==)>(a: Session<S>, b: Session<S>) {
    a.m.s == b.m.s && a.closed == b.closed
  }

  lemma {:induction false} WritesBlind<S>(env: Env<S>, port: Port, lane: Lane, fifo: bool, t: Target, a: Machine<S>, b: Machine<S>, ws: seq<nat>)
    requires a.s == b.s
    ensures ExecWrites(env, port, lane, fifo, t, a, ws).s == ExecWrites(env, port, lane, fifo, t, b, ws).s
    decreases |ws|
  {
    if |ws| > 0 {
      WritesBlind(env, port, lane, fifo, if fifo then t else Advance(port, t), ExecWrite(env, lane, t, a, ws[0]),
        ExecWrite(env, lane, t, b, ws[0]), ws[1..]);
    }
  }

  lemma {:induction false} ReadsBlind<S>(env: Env<S>, port: Port, lane: Lane, config: bool, a: Machine<S>, b: Machine<S>, ras: seq<nat>)
    requires a.s == b.s && port.Valid() && lane.size <= 8
    ensures ExecReads(env, port, lane, config, a, ras).0.s == ExecReads(env, port, lane, config, b, ras).0.s
    decreases |ras|
  {
    hide ReadConfig, WordAddress, ToLanes, LowBig;
    if |ras| > 0 {
      ReadsBlind(env, port, lane, config, ExecRead(env, port, lane, config, a, ras[0]).0,
        ExecRead(env, port, lane, config, b, ras[0]).0, ras[1..]);
    }
  }

  lemma RecordBlind<S>(env: Env<S>, port: Port, a: Session<S>, b: Session<S>, r: Record)
    requires port.Valid() && a.m.s == b.m.s
    ensures Alike(ExecRecord(env, port, a, r).0, ExecRecord(env, port, b, r).0)
  {
    hide DecodeSelect, ExecWrites, ExecReads, WriteTarget;
    var lane := DecodeSelect(r.select, port.data);
    if |r.values| > 0 {
      WritesBlind(env, port, lane, r.wff, WriteTarget(port, lane, r.wca, r.bwa), a.m, b.m, r.values);
    }
    ReadsBlind(env, port, lane, r.rca, AfterWrites(env, port, a.m, r), AfterWrites(env, port, b.m, r), r.addrs);
  }

  /** Error history and reply bookkeeping never reach the device: whatever the bytes are, the device ends
      in the same state, the same bytes stay unread and the cycle line is the same. */
  lemma {:induction false} ServeBlind<S>(env: Env<S>, port: Port, a: Session<S>, b: Session<S>, input: seq<byte>)
    requires port.Valid() && Alike(a, b)
    ensures Alike(Serve(env, port, a, input).ss, Serve(env, port, b, input).ss)
    ensures Serve(env, port, a, input).rest == Serve(env, port, b, input).rest
    decreases |input|
  {
    if Complete(port, input) {
      hide Complete, RecordLength, ParseRecord, ExecRecord, EncodeAll;
      LengthPositive(port, input);
      RecordBlind(env, port, a, b, ParseRecord(port, input));
      ServeBlind(env, port, ServeRecord(env, port, a, input).0, ServeRecord(env, port, b, input).0,
        input[RecordLength(port, input[2], input[3])..]);
    }
  }

  lemma LengthPositive(port: Port, input: seq<byte>)
    requires port.Valid() && Complete(port, input)
    ensures |input| >= 4 && 0 < RecordLength(port, input[2], input[3]) <= |input|
  {
  }

  /** One connection: the session, the bytes of an unfinished record, whether the last call returned at
      rest, and whether the connection was given up. */
  datatype Line<S> = Line(ss: Session<S>, kept: seq<byte>, idle: bool, dead: bool)

  /** The slave cannot go on: the cycle line is low, and what is left over is not even a record header. */
  predicate Stuck<S>(port: Port, out: Served<S>)
    requires port.Valid()
  {
    out.ss.closed && 0 < |out.rest| < port.RecordAlignment()
  }

  /** Bytes arrive. A call that starts at rest forgets the error history and any open cycle; one that
      was left waiting goes on with the bytes it kept. */
  function Receive<S>(env: Env<S>, port: Port, l: Line<S>, chunk: seq<byte>): (out: (Line<S>, seq<byte>))
    requires port.Valid()
  {
    if l.dead then (l, []) else
      var out := Serve(env, port, if l.idle then Fresh(l.ss.m.s) else l.ss, l.kept + chunk);
      if l.idle && |chunk| < 2 then (l.(dead := true), [])
      else (Line(out.ss, out.rest, out.ss.closed && out.rest == [], Stuck(port, out)), out.output)
  }

  function Deliver<S>(env: Env<S>, port: Port, l: Line<S>, chunks: seq<seq<byte>>): (out: (Line<S>, seq<byte>))
    requires port.Valid()
    decreases |chunks|
  {
    if |chunks| == 0 then (l, []) else
      var first := Receive(env, port, l, chunks[0]);
      var rest := Deliver(env, port, first.0, chunks[1..]);
      (rest.0, first.1 + rest.1)
  }

  function Joined(chunks: seq<seq<byte>>): seq<byte> {
    if |chunks| == 0 then [] else chunks[0] + Joined(chunks[1..])
  }

  /** No piece is empty: the transport reports an empty read as nothing there or as the end. */
  predicate Pieces(chunks: seq<seq<byte>>) {
    forall i | 0 <= i < |chunks| :: chunks[i] != []
  }

  /** Where the line stands after `seen`, compared with a slave that got `seen` in one piece. */
  ghost predicate InStep<S(!new)>(env: Env<S>, port: Port, s: S, seen: seq<byte>, l: Line<S>)
    requires port.Valid()
  {
    var whole := Serve(env, port, Fresh(s), seen);
    && !l.dead && Alike(l.ss, whole.ss) && l.kept == whole.rest && l.idle == (whole.ss.closed && whole.rest == [])
    && !Stuck(port, whole)
  }

  lemma ReceiveInStep<S(!new)>(env: Env<S>, port: Port, s: S, seen: seq<byte>, l: Line<S>, chunk: seq<byte>)
    requires port.Valid() && InStep(env, port, s, seen, l) && chunk != []
    ensures var l' := Receive(env, port, l, chunk).0;
            if Stuck(port, Serve(env, port, Fresh(s), seen + chunk)) then l'.dead else InStep(env, port, s, seen + chunk, l')
  {
    hide Serve, Port.RecordAlignment;
    var whole := Serve(env, port, Fresh(s), seen);
    var ss := if l.idle then Fresh(l.ss.m.s) else l.ss;
    ServeSplit(env, port, Fresh(s), seen, chunk);
    ServeBlind(env, port, ss, whole.ss, l.kept + chunk);
    if l.idle && |chunk| < 2 {
      TooShort(env, port, whole.ss, chunk);
      assert l.kept + chunk == chunk;
    }
  }

  lemma TooShort<S>(env: Env<S>, port: Port, ss: Session<S>, chunk: seq<byte>)
    requires port.Valid() && 0 < |chunk| < 2 && ss.closed
    ensures Serve(env, port, ss, chunk) == Served(ss, [], chunk) && Stuck(port, Served(ss, [], chunk))
  {
  }

  /** The line as a connection starts, or after any call that returned normally. */
  function AtRest<S>(s: S): Line<S> {
    Line(Fresh(s), [], true, false)
  }

  /** Some cut, among the first `n`, leaves part of a record header behind a closed cycle. */
  ghost predicate BadCut<S(!new)>(env: Env<S>, port: Port, s: S, seen: seq<byte>, chunks: seq<seq<byte>>)
    requires port.Valid()
  {
    exists k | 0 < k <= |chunks| :: CutIsBad(env, port, s, seen, chunks, k)
  }

  predicate CutIsBad<S>(env: Env<S>, port: Port, s: S, seen: seq<byte>, chunks: seq<seq<byte>>, k: nat)
    requires port.Valid() && k <= |chunks|
  {
    Stuck(port, Serve(env, port, Fresh(s), seen + Joined(chunks[..k])))
  }

  lemma {:induction false} DeadStays<S>(env: Env<S>, port: Port, l: Line<S>, chunks: seq<seq<byte>>)
    requires port.Valid() && l.dead
    ensures Deliver(env, port, l, chunks) == (l, [])
    decreases |chunks|
  {
    if |chunks| > 0 {
      DeadStays(env, port, l, chunks[1..]);
      var nothing: seq<byte> := [];
      assert nothing + nothing == nothing;
    }
  }

  lemma JoinedStep(seen: seq<byte>, chunks: seq<seq<byte>>, k: nat)
    requires 0 < k <= |chunks|
    ensures (seen + chunks[0]) + Joined(chunks[1..][..k - 1]) == seen + Joined(chunks[..k])
    ensures (seen + chunks[0]) + Joined(chunks[1..]) == seen + Joined(chunks)
  {
    assert chunks[..k][1..] == chunks[1..][..k - 1] && chunks[..k][0] == chunks[0];
    Regroup(seen, chunks[0], Joined(chunks[1..][..k - 1]));
    Regroup(seen, chunks[0], Joined(chunks[1..]));
  }

  lemma BadCutStep<S(!new)>(env: Env<S>, port: Port, s: S, seen: seq<byte>, chunks: seq<seq<byte>>)
    requires port.Valid() && |chunks| > 0
    ensures BadCut(env, port, s, seen, chunks)
       <==> CutIsBad(env, port, s, seen, chunks, 1) || BadCut(env, port, s, seen + chunks[0], chunks[1..])
  {
    hide Serve, Stuck;
    forall k | 0 < k <= |chunks|
      ensures k > 1 ==> (CutIsBad(env, port, s, seen, chunks, k) <==> CutIsBad(env, port, s, seen + chunks[0], chunks[1..], k - 1))
    {
      JoinedStep(seen, chunks, k);
    }
    if BadCut(env, port, s, seen, chunks) {
      var k :| 0 < k <= |chunks| && CutIsBad(env, port, s, seen, chunks, k);
      if k > 1 {
        assert CutIsBad(env, port, s, seen + chunks[0], chunks[1..], k - 1);
      }
    }
    if BadCut(env, port, s, seen + chunks[0], chunks[1..]) {
      var k :| 0 < k <= |chunks[1..]| && CutIsBad(env, port, s, seen + chunks[0], chunks[1..], k);
      assert CutIsBad(env, port, s, seen, chunks, k + 1);
    }
  }

  /** A connection survives a cutting exactly if no cut leaves part of a header behind a closed cycle,
      and then it stands where it would stand had the bytes come in one piece. */
  lemma {:induction false} DeliverInStep<S(!new)>(env: Env<S>, port: Port, s: S, seen: seq<byte>, l: Line<S>, chunks: seq<seq<byte>>)
    requires port.Valid() && InStep(env, port, s, seen, l) && Pieces(chunks)
    ensures var end := Deliver(env, port, l, chunks).0;
            && (end.dead <==> BadCut(env, port, s, seen, chunks))
            && (!end.dead ==> InStep(env, port, s, seen + Joined(chunks), end))
    decreases |chunks|
  {
    hide InStep, Stuck, Serve, Receive;
    if |chunks| == 0 {
      assert seen + Joined(chunks) == seen;
      StillAlive(env, port, s, seen, l);
    } else {
      var l' := Receive(env, port, l, chunks[0]).0;
      ReceiveInStep(env, port, s, seen, l, chunks[0]);
      BadCutStep(env, port, s, seen, chunks);
      JoinedStep(seen, chunks, 1);
      assert chunks[1..][..0] == [] && (seen + chunks[0]) + [] == seen + chunks[0];
      if l'.dead {
        DeadStays(env, port, l', chunks[1..]);
        DeadIsBad(env, port, s, seen, chunks[0], l');
      } else {
        StillAlive(env, port, s, seen + chunks[0], l');
        DeliverInStep(env, port, s, seen + chunks[0], l', chunks[1..]);
      }
    }
  }

  lemma StillAlive<S(!new)>(env: Env<S>, port: Port, s: S, seen: seq<byte>, l: Line<S>)
    requires port.Valid() && InStep(env, port, s, seen, l)
    ensures !l.dead && !Stuck(port, Serve(env, port, Fresh(s), seen))
  {
  }

  lemma DeadIsBad<S(!new)>(env: Env<S>, port: Port, s: S, seen: seq<byte>, chunk: seq<byte>, l: Line<S>)
    requires port.Valid() && l.dead
    requires !Stuck(port, Serve(env, port, Fresh(s), seen + chunk)) ==> InStep(env, port, s, seen + chunk, l)
    ensures Stuck(port, Serve(env, port, Fresh(s), seen + chunk))
  {
  }

  lemma StartInStep<S(!new)>(env: Env<S>, port: Port, s: S)
    requires port.Valid()
    ensures InStep(env, port, s, [], AtRest(s))
  {
  }

  /** Chunking independence of the bus, for any bytes at all: however the stream is cut, a connection
      that survives has put the device through the same states as the uncut stream. */
  lemma SameBus<S(!new)>(env: Env<S>, port: Port, s: S, chunks: seq<seq<byte>>)
    requires port.Valid() && Pieces(chunks)
    ensures var end := Deliver(env, port, AtRest(s), chunks).0;
            var whole := Serve(env, port, Fresh(s), Joined(chunks));
            && (end.dead <==> BadCut(env, port, s, [], chunks))
            && (!end.dead ==> end.ss.m.s == whole.ss.m.s && end.kept == whole.rest && end.ss.closed == whole.ss.closed)
  {
    hide Serve, Deliver, Stuck, BadCut;
    StartInStep(env, port, s);
    DeliverInStep(env, port, s, [], AtRest(s), chunks);
    assert [] + Joined(chunks) == Joined(chunks);
  }
}
