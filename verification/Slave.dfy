/**
 The slave as it runs: one buffer holds the request and receives the reply. `wptr` writes the reply
 behind `rptr`, which still reads the request.
 */
module SlaveDevice {
  import opened Words
  import opened Lanes
  import opened Records
  import opened Operations
  import opened Bus
  import opened Interpreter

  /** What a shared buffer holds: the reply sent so far, a gap, the request still unread, and the
      bytes before and behind the message, which belong to nobody here. */
  datatype Region = Region(wptr: nat, rptr: nat, front: seq<byte>, sent: seq<byte>, unread: seq<byte>, back: seq<byte>)
  {
    ghost function Skip(n: nat): (g: Region)
      requires n <= |unread|
      ensures g.rptr == rptr + n && g.wptr == wptr && g.unread == unread[n..]
    {
      this.(rptr := rptr + n, unread := unread[n..])
    }

    ghost function Put(bytes: seq<byte>): (g: Region)
      ensures g.wptr == wptr + |bytes| && g.rptr == rptr && g.unread == unread
    {
      this.(wptr := wptr + |bytes|, sent := sent + bytes)
    }
  }

  /** The buffer has this content, and the reply has not overtaken the unread request. */
  ghost predicate Holds(buf: array<byte>, g: Region)
    reads buf
    ensures Holds(buf, g) ==> g.wptr <= g.rptr <= g.rptr + |g.unread| <= buf.Length
  {
    && |g.front| + |g.sent| == g.wptr <= g.rptr && g.rptr + |g.unread| + |g.back| == buf.Length
    && buf[..|g.front|] == g.front && buf[|g.front|..g.wptr] == g.sent
    && buf[g.rptr..g.rptr + |g.unread|] == g.unread && buf[g.rptr + |g.unread|..] == g.back
  }

  lemma HoldsSkip(buf: array<byte>, g: Region, n: nat)
    requires Holds(buf, g) && n <= |g.unread|
    ensures Holds(buf, g.Skip(n))
  {}

  /** Write bytes at the end of the reply; they fit into the gap. */
  method Append(buf: array<byte>, ghost g: Region, at: nat, bytes: seq<byte>)
    requires Holds(buf, g) && g.wptr == at && at + |bytes| <= g.rptr
    modifies buf
    ensures Holds(buf, g.Put(bytes))
  {
    forall i | 0 <= i < |bytes| {
      buf[at + i] := bytes[i];
    }
  }

  method LoadWord(buf: array<byte>, ghost g: Region, at: nat, align: nat) returns (v: nat)
    requires Holds(buf, g) && g.rptr == at && align <= |g.unread|
    ensures v == FromBytes(g.unread[..align])
  {
    v := FromBytes(buf[at..at + align]);
    assert buf[at..at + align] == g.unread[..align];
  }

  class Slave<S> {
    const env: Env<S>
    const port: Port
    var m: Machine<S>
    var open: bool
    var closed: bool
    var replied: bool

    function Session(): Session<S>
      reads this
    {
      Interpreter.Session(m, open, closed, replied)
    }

    lemma SessionFields()
      ensures Session() == Interpreter.Session(m, open, closed, replied)
    {}

    constructor (env: Env<S>, port: Port, s: S)
      ensures this.env == env && this.port == port && Session() == Fresh(s)
    {
      this.env, this.port := env, port;
      m, open, closed, replied := Machine(s, 0), false, true, false;
    }

    /** Execute the writes of a record; they only read the buffer. */
    method DoWrites(buf: array<byte>, ghost g: Region, start: nat, lane: Lane, fifo: bool, config: bool, wcount: nat)
      requires port.Valid()
      requires Holds(buf, g) && g.rptr == start && Span(BlockWords(wcount), port.Alignment()) <= |g.unread|
      modifies this`m
      ensures m == WriteBlock(env, port, lane, fifo, config, old(m), g.unread, wcount)
    {
      hide *;
      WriteBlockIs(env, port, lane, fifo, config, m, g.unread, wcount);
      if wcount == 0 {
        return;
      }
      var align := port.Alignment();
      BlockStep(g.unread, wcount, align);
      var bwa := LoadWord(buf, g, start, align);
      var t := WriteTarget(port, lane, config, bwa);
      var rptr, left := start + align, wcount;
      ghost var h := g.Skip(align);
      HoldsSkip(buf, g, align);
      ghost var all := ExecWrites(env, port, lane, fifo, t, m, ParseWords(h.unread, left, align));
      while left > 0
        invariant 0 <= left <= wcount && h.rptr == rptr && Span(left, align) <= |h.unread|
        invariant Holds(buf, h)
        invariant all == ExecWrites(env, port, lane, fifo, t, m, ParseWords(h.unread, left, align))
      {
        WordsStep(h.unread, left, align);
        WritesStep(env, port, lane, fifo, t, m, ParseWords(h.unread, left, align));
        HoldsSkip(buf, h, align);
        var w := LoadWord(buf, h, rptr, align);
        m := ExecWrite(env, lane, t, m, w);
        t := if fifo then t else Advance(port, t);
        rptr, left, h := rptr + align, left - 1, h.Skip(align);
      }
      WritesDone(env, port, lane, fifo, t, m, h.unread, align);
    }

    /** Execute the reads of a record, writing each value behind the addresses still to be read. */
    method DoReads(buf: array<byte>, ghost g: Region, rptr0: nat, wptr0: nat, lane: Lane, config: bool, rcount: nat)
      requires port.Valid() && lane.size <= 8
      requires Holds(buf, g) && g.rptr == rptr0 && g.wptr == wptr0 && Span(rcount, port.Alignment()) <= |g.unread|
      modifies this`m, buf
      ensures var align := port.Alignment();
              var out := ExecReads(env, port, lane, config, old(m), ParseWords(g.unread, rcount, align));
              m == out.0 && Holds(buf, g.Skip(Span(rcount, align)).Put(WordBytes(out.1, align)))
    {
      hide *;
      var align := port.Alignment();
      var rptr, wptr, left := rptr0, wptr0, rcount;
      ghost var h, m0 := g, m;
      ReadsBegin(env, port, lane, config, m, g, rcount, align);
      while left > 0
        invariant 0 <= left <= rcount && h.rptr == rptr && h.wptr == wptr && Span(left, align) <= |h.unread|
        invariant Holds(buf, h)
        invariant ReadsRemain(env, port, lane, config, m0, g, rcount, m, h, left, align)
      {
        ReadsNext(env, port, lane, config, m0, g, rcount, m, h, left, align);
        HoldsSkip(buf, h, align);
        var ra := LoadWord(buf, h, rptr, align);
        var out := ExecRead(env, port, lane, config, m, ra);
        rptr, h, left := rptr + align, h.Skip(align), left - 1;
        m := out.0;
        Append(buf, h, wptr, ToBytes(out.1, align));
        wptr, h := wptr + align, h.Put(ToBytes(out.1, align));
      }
      ReadsEnd(env, port, lane, config, m0, g, rcount, m, h, align);
    }

    /** Answer the reads of a record: reply header, the return address echoed, then the values. */
    method DoReply(buf: array<byte>, ghost g: Region, rptr: nat, wptr: nat, flags: byte, select: byte, rcount: byte)
      requires port.Valid() && rcount > 0
      requires Holds(buf, g) && g.rptr == rptr && g.wptr == wptr && wptr + port.RecordAlignment() <= rptr
      requires Span(BlockWords(rcount), port.Alignment()) <= |g.unread|
      modifies this`m, this`open, this`replied, buf
      ensures var align := port.Alignment();
              var out := ExecReads(env, port, DecodeSelect(select, port.data), HasFlag(flags, RECORD_RCA), old(m),
                                   ParseBlock(g.unread, rcount, align));
              && m == out.0 && replied && open == !HasFlag(flags, RECORD_CYC)
              && Holds(buf, g.Skip(Span(BlockWords(rcount), align))
                             .Put(ReplyBytes(port, flags, select, ParseBase(g.unread, rcount, align), out.1)))
    {
      hide *;
      var align := port.Alignment();
      BlockStep(g.unread, rcount, align);
      replied := true;
      var header := Header(port, ReplyFlags(flags), select, rcount, 0);
      Append(buf, g, wptr, header);
      ghost var h := g.Put(header);
      open := !HasFlag(flags, RECORD_CYC);
      var bra := LoadWord(buf, h, rptr, align);
      HoldsSkip(buf, h, align);
      h := h.Skip(align);
      Append(buf, h, wptr + port.RecordAlignment(), ToBytes(bra, align));
      h := h.Put(ToBytes(bra, align));
      ghost var m0 := m;
      var lane := DecodeSelect(select, port.data);
      DoReads(buf, h, rptr + align, wptr + port.RecordAlignment() + align, lane, HasFlag(flags, RECORD_RCA), rcount);
      ghost var values := ExecReads(env, port, lane, HasFlag(flags, RECORD_RCA), m0, ParseWords(h.unread, rcount, align)).1;
      ReplyLayout(port, g, flags, select, bra, values);
    }

    /** What a record sends back: its reply, or the end of a cycle that an earlier reply left open. */
    method DoAnswer(buf: array<byte>, ghost g: Region, rptr: nat, wptr: nat, flags: byte, select: byte, rcount: byte)
      returns (wptr': nat)
      requires port.Valid()
      requires Holds(buf, g) && g.rptr == rptr && g.wptr == wptr && wptr + port.RecordAlignment() <= rptr
      requires Span(BlockWords(rcount), port.Alignment()) <= |g.unread|
      modifies this`m, this`open, this`closed, this`replied, buf
      ensures var out := AnswerBlock(env, port, flags, select, old(Session()), g.unread, rcount);
              var h := g.Skip(Span(BlockWords(rcount), port.Alignment())).Put(out.1);
              Session() == out.0 && Holds(buf, h) && h.wptr == wptr'
    {
      hide *;
      SessionFields();
      AnswerBlockIs(env, port, flags, select, Session(), g, rcount);
      closed := HasFlag(flags, RECORD_CYC);
      wptr' := wptr;
      if rcount > 0 {
        DoReply(buf, g, rptr, wptr, flags, select, rcount);
        wptr' := wptr' + port.RecordAlignment() + Span(BlockWords(rcount), port.Alignment());
      }
      if open && closed {
        Append(buf, g, wptr', Header(port, RECORD_CYC, 0, 0, 0));
        wptr' := wptr' + port.RecordAlignment();
      }
      SessionFields();
    }

    /** One turn of the slave's loop: a whole record is at `rptr`. */
    method DoRecord(buf: array<byte>, ghost g: Region, rptr: nat, wptr: nat) returns (rptr': nat, wptr': nat)
      requires port.Valid() && Holds(buf, g) && g.rptr == rptr && g.wptr == wptr && Complete(port, g.unread)
      modifies this`m, this`open, this`closed, this`replied, buf
      ensures var out := ServeRecord(env, port, old(Session()), g.unread);
              var h := g.Skip(RecordLength(port, g.unread[2], g.unread[3])).Put(out.1);
              Session() == out.0 && Holds(buf, h) && h.rptr == rptr' && h.wptr == wptr'
    {
      hide *;
      SessionFields();
      RecordStep(env, port, Session(), g.unread);
      HeaderBytes(buf, g);
      var flags, select, wcount, rcount := buf[rptr], buf[rptr + 1], buf[rptr + 2], buf[rptr + 3];
      ghost var header, align := port.RecordAlignment(), port.Alignment();
      rptr' := rptr + port.RecordAlignment();
      HoldsSkip(buf, g, header);
      ghost var h := g.Skip(header);
      DoWrites(buf, h, rptr', DecodeSelect(select, port.data), HasFlag(flags, RECORD_WFF), HasFlag(flags, RECORD_WCA), wcount);
      SessionFields();
      rptr' := rptr' + Span(BlockWords(wcount), port.Alignment());
      HoldsSkip(buf, h, Span(BlockWords(wcount), align));
      h := h.Skip(Span(BlockWords(wcount), align));
      wptr' := DoAnswer(buf, h, rptr', wptr, flags, select, rcount);
      rptr' := rptr' + Span(BlockWords(rcount), port.Alignment());
      SkipThree(g, header, Span(BlockWords(wcount), align), Span(BlockWords(rcount), align));
    }

    /** Serve the message in buf[start..eos] in place. The reply ends up in buf[start..wptr]; what is
        not a whole record yet stays in buf[rptr..eos]. */
    method Serve(buf: array<byte>, start: nat, eos: nat) returns (rptr: nat, wptr: nat)
      requires port.Valid() && start <= eos <= buf.Length
      modifies this`m, this`open, this`closed, this`replied, buf
      ensures var out := Interpreter.Serve(env, port, old(Session()), old(buf[start..eos]));
              && Session() == out.ss
              && start <= wptr <= rptr <= eos
              && buf[start..wptr] == out.output && buf[rptr..eos] == out.rest
      ensures buf[..start] == old(buf[..start]) && buf[eos..] == old(buf[eos..])
    {
      hide *;
      ghost var g := Region(start, start, buf[..start], [], buf[start..eos], buf[eos..]);
      HoldsAtStart(buf, g);
      rptr, wptr := start, start;
      ghost var h, ss0 := g, Session();
      ServeBegin(env, port, ss0, g);
      CompleteIs(port, h.unread);
      while rptr + port.RecordAlignment() <= eos
          && rptr + RecordLength(port, buf[rptr + 2], buf[rptr + 3]) <= eos
        invariant Holds(buf, h) && h.rptr == rptr && h.wptr == wptr && rptr + |h.unread| == eos
        invariant h.front == g.front && h.back == g.back
        invariant ServeRemain(env, port, ss0, g, Session(), h)
        invariant 4 <= port.RecordAlignment()
        invariant Complete(port, h.unread)
             <==> (port.RecordAlignment() <= |h.unread| && RecordLength(port, h.unread[2], h.unread[3]) <= |h.unread|)
        decreases |h.unread|
      {
        HeaderBytes(buf, h);
        ServeNext(env, port, ss0, g, Session(), h);
        ghost var ss := Session();
        rptr, wptr := DoRecord(buf, h, rptr, wptr);
        h := h.Skip(RecordLength(port, h.unread[2], h.unread[3])).Put(ServeRecord(env, port, ss, h.unread).1);
        CompleteIs(port, h.unread);
      }
      if rptr + port.RecordAlignment() <= eos {
        HeaderBytes(buf, h);
      }
      ServeEnd(env, port, ss0, g, Session(), h);
      HoldsAtEnd(buf, h);
    }
  }

  lemma HoldsAtStart(buf: array<byte>, g: Region)
    requires |g.front| == g.wptr == g.rptr && |g.sent| == 0 && g.rptr + |g.unread| <= buf.Length
    requires buf[..g.wptr] == g.front && buf[g.rptr..g.rptr + |g.unread|] == g.unread
    requires buf[g.rptr + |g.unread|..] == g.back
    ensures Holds(buf, g)
  {}

  lemma HoldsAtEnd(buf: array<byte>, g: Region)
    requires Holds(buf, g)
    ensures |g.front| <= g.wptr <= g.rptr
    ensures buf[..|g.front|] == g.front && buf[|g.front|..g.wptr] == g.sent
    ensures buf[g.rptr..g.rptr + |g.unread|] == g.unread && buf[g.rptr + |g.unread|..] == g.back
  {}

  lemma CompleteIs(port: Port, input: seq<byte>)
    requires port.Valid()
    ensures 4 <= port.RecordAlignment()
    ensures Complete(port, input) <==> port.RecordAlignment() <= |input| && RecordLength(port, input[2], input[3]) <= |input|
  {}

  /** Serving from `ss0, g` amounts to what `h` has sent and serving from `ss, h`. */
  ghost predicate ServeRemain<S>(env: Env<S>, port: Port, ss0: Session<S>, g: Region, ss: Session<S>, h: Region)
    requires port.Valid()
  {
    var all, rest := Interpreter.Serve(env, port, ss0, g.unread), Interpreter.Serve(env, port, ss, h.unread);
    all.ss == rest.ss && all.rest == rest.rest && g.sent + all.output == h.sent + rest.output
  }

  lemma ServeBegin<S>(env: Env<S>, port: Port, ss: Session<S>, g: Region)
    requires port.Valid()
    ensures ServeRemain(env, port, ss, g, ss, g)
  {}

  lemma ServeNext<S>(env: Env<S>, port: Port, ss0: Session<S>, g: Region, ss: Session<S>, h: Region)
    requires port.Valid() && Complete(port, h.unread) && ServeRemain(env, port, ss0, g, ss, h)
    ensures 0 < RecordLength(port, h.unread[2], h.unread[3]) <= |h.unread|
    ensures var first := ServeRecord(env, port, ss, h.unread);
            var h' := h.Skip(RecordLength(port, h.unread[2], h.unread[3])).Put(first.1);
            && ServeRemain(env, port, ss0, g, first.0, h')
            && h'.front == h.front && h'.back == h.back
  {
    hide ServeRecord;
    var first := ServeRecord(env, port, ss, h.unread);
    var rest := Interpreter.Serve(env, port, first.0, h.unread[RecordLength(port, h.unread[2], h.unread[3])..]);
    Regroup(h.sent, first.1, rest.output);
  }

  lemma ServeEnd<S>(env: Env<S>, port: Port, ss0: Session<S>, g: Region, ss: Session<S>, h: Region)
    requires port.Valid() && !Complete(port, h.unread) && |g.sent| == 0 && ServeRemain(env, port, ss0, g, ss, h)
    ensures var all := Interpreter.Serve(env, port, ss0, g.unread);
            all.ss == ss && all.rest == h.unread && all.output == h.sent
  {
    hide ServeRecord;
    assert g.sent + Interpreter.Serve(env, port, ss0, g.unread).output == Interpreter.Serve(env, port, ss0, g.unread).output;
    assert h.sent + [] == h.sent;
  }

  /** The writes of a record, from the bytes behind its header. */
  function WriteBlock<S>(env: Env<S>, port: Port, lane: Lane, fifo: bool, config: bool, m: Machine<S>,
    body: seq<byte>, wcount: nat): Machine<S>
    requires port.Valid() && Span(BlockWords(wcount), port.Alignment()) <= |body|
  {
    var align := port.Alignment();
    if wcount == 0 then m else
      ExecWrites(env, port, lane, fifo, WriteTarget(port, lane, config, ParseBase(body, wcount, align)),
                 m, ParseBlock(body, wcount, align))
  }

  lemma WriteBlockIs<S>(env: Env<S>, port: Port, lane: Lane, fifo: bool, config: bool, m: Machine<S>,
    body: seq<byte>, wcount: nat)
    requires port.Valid() && Span(BlockWords(wcount), port.Alignment()) <= |body|
    ensures var align := port.Alignment();
            WriteBlock(env, port, lane, fifo, config, m, body, wcount) == if wcount == 0 then m else
      ExecWrites(env, port, lane, fifo, WriteTarget(port, lane, config, ParseBase(body, wcount, align)),
                 m, ParseBlock(body, wcount, align))
  {}

  /** The answer to a record whose writes are done, from the bytes behind its writes. */
  function AnswerBlock<S>(env: Env<S>, port: Port, flags: byte, select: byte, ss: Session<S>,
    tail: seq<byte>, rcount: byte): (Session<S>, seq<byte>)
    requires port.Valid() && Span(BlockWords(rcount), port.Alignment()) <= |tail|
  {
    var cyc, align := HasFlag(flags, RECORD_CYC), port.Alignment();
    if rcount == 0 then
      (Session(ss.m, ss.open, cyc, ss.replied), if ss.open && cyc then Header(port, RECORD_CYC, 0, 0, 0) else [])
    else
      var out := ExecReads(env, port, DecodeSelect(select, port.data), HasFlag(flags, RECORD_RCA), ss.m,
                           ParseBlock(tail, rcount, align));
      (Session(out.0, !cyc, cyc, true), ReplyBytes(port, flags, select, ParseBase(tail, rcount, align), out.1))
  }

  lemma AnswerBlockIs<S>(env: Env<S>, port: Port, flags: byte, select: byte, ss: Session<S>, g: Region, rcount: byte)
    requires port.Valid() && Span(BlockWords(rcount), port.Alignment()) <= |g.unread|
    ensures var cyc, align := HasFlag(flags, RECORD_CYC), port.Alignment();
            AnswerBlock(env, port, flags, select, ss, g.unread, rcount) == (
              if rcount == 0 then
                (Session(ss.m, ss.open, cyc, ss.replied), if ss.open && cyc then Header(port, RECORD_CYC, 0, 0, 0) else [])
              else
                var out := ExecReads(env, port, DecodeSelect(select, port.data), HasFlag(flags, RECORD_RCA), ss.m,
                                     ParseBlock(g.unread, rcount, align));
                (Session(out.0, !cyc, cyc, true), ReplyBytes(port, flags, select, ParseBase(g.unread, rcount, align), out.1)))
    ensures rcount == 0 ==> Span(BlockWords(rcount), port.Alignment()) == 0 && g.Skip(0) == g && g.Put([]) == g
  {
    assert g.sent + [] == g.sent;
  }

  lemma SkipThree(g: Region, a: nat, b: nat, c: nat)
    requires a + b + c <= |g.unread|
    ensures g.Skip(a).Skip(b).Skip(c) == g.Skip(a + b + c)
  {}

  lemma HeaderBytes(buf: array<byte>, g: Region)
    requires Holds(buf, g) && |g.unread| >= 4
    ensures buf[g.rptr] == g.unread[0] && buf[g.rptr + 1] == g.unread[1]
    ensures buf[g.rptr + 2] == g.unread[2] && buf[g.rptr + 3] == g.unread[3]
  {}

  /** Serving one record, by the parts the loop works through. */
  lemma RecordStep<S>(env: Env<S>, port: Port, ss: Session<S>, input: seq<byte>)
    requires port.Valid() && Complete(port, input)
    ensures 4 <= port.RecordAlignment() <= |input| && Span(BlockWords(0), port.Alignment()) == 0
    ensures RecordLength(port, input[2], input[3])
         == port.RecordAlignment() + Span(BlockWords(input[2]), port.Alignment()) + Span(BlockWords(input[3]), port.Alignment())
         <= |input|
    ensures var flags, lane := input[0], DecodeSelect(input[1], port.data);
            var body := input[port.RecordAlignment()..];
            var m := WriteBlock(env, port, lane, HasFlag(flags, RECORD_WFF), HasFlag(flags, RECORD_WCA), ss.m, body, input[2]);
            ServeRecord(env, port, ss, input)
              == AnswerBlock(env, port, flags, input[1], ss.(m := m), body[Span(BlockWords(input[2]), port.Alignment())..], input[3])
  {
    hide DecodeSelect, ExecWrites, ExecReads, ParseBlock, ParseBase, HasFlag, WriteTarget, ToBytes, WordBytes, Header;
    var r := ParseRecord(port, input);
    ParsedRecordFits(port, input);
    ReplyFits(env, port, ss, r);
    var replies := ExecRecord(env, port, ss, r).1;
    if |replies| == 1 {
      assert EncodeAll(port, replies) == Encode(port, replies[0]) + [];
      assert EncodeAll(port, replies) == Encode(port, replies[0]);
      ReplyEncoding(port, input[0], replies[0]);
      assert input[3] > 0 ==> Flags(replies[0]) == ReplyFlags(input[0]);
    }
  }

  lemma ReplyEncoding(port: Port, flags: byte, reply: Record)
    requires port.Valid() && RecordFits(port, reply) && |reply.addrs| == 0
    ensures reply == TERMINATOR ==> Encode(port, reply) == Header(port, RECORD_CYC, 0, 0, 0)
    ensures |reply.values| > 0
      && Flags(reply) == ReplyFlags(flags)
      ==> Encode(port, reply) == ReplyBytes(port, flags, reply.select, reply.bwa, reply.values)
  {}

  function ReplyFlags(flags: byte): byte {
    (if HasFlag(flags, RECORD_CYC) then RECORD_CYC else 0)
    + (if HasFlag(flags, RECORD_BCA) then RECORD_WCA else 0)
    + (if HasFlag(flags, RECORD_RFF) then RECORD_WFF else 0)
  }

  function ReplyBytes(port: Port, flags: byte, select: byte, bra: nat, values: seq<nat>): (s: seq<byte>)
    requires port.Valid() && 0 < |values| <= 255
    ensures |s| == port.RecordAlignment() + Span(BlockWords(|values|), port.Alignment())
  {
    Header(port, ReplyFlags(flags), select, |values|, 0) + ToBytes(bra, port.Alignment())
    + WordBytes(values, port.Alignment())
  }

  lemma ReplyLayout(port: Port, g: Region, flags: byte, select: byte, bra: nat, values: seq<nat>)
    requires port.Valid() && 0 < |values| <= 255 && Span(BlockWords(|values|), port.Alignment()) <= |g.unread|
    ensures var align := port.Alignment();
            && align + Span(|values|, align) == Span(BlockWords(|values|), align)
            && g.Skip(Span(BlockWords(|values|), align)).Put(ReplyBytes(port, flags, select, bra, values))
               == g.Put(Header(port, ReplyFlags(flags), select, |values|, 0)).Skip(align).Put(ToBytes(bra, align))
                   .Skip(Span(|values|, align)).Put(WordBytes(values, align))
  {
    hide Header, ReplyFlags, ToBytes, WordBytes, Port.Alignment;
    var align := port.Alignment();
    var a, b, c := Header(port, ReplyFlags(flags), select, |values|, 0), ToBytes(bra, align), WordBytes(values, align);
    assert g.sent + (a + b + c) == g.sent + a + b + c;
    assert g.unread[align..][Span(|values|, align)..] == g.unread[Span(BlockWords(|values|), align)..];
  }

  lemma BlockStep(tail: seq<byte>, n: nat, align: nat)
    requires n > 0 && |tail| >= Span(BlockWords(n), align)
    ensures Span(BlockWords(n), align) == align + Span(n, align)
    ensures ParseBase(tail, n, align) == FromBytes(tail[..align])
    ensures ParseBlock(tail, n, align) == ParseWords(tail[align..], n, align)
  {}

  lemma WordsStep(bytes: seq<byte>, n: nat, align: nat)
    requires n > 0 && |bytes| >= Span(n, align)
    ensures Span(n, align) == align + Span(n - 1, align)
    ensures var ws := ParseWords(bytes, n, align);
            |ws| == n && ws[0] == FromBytes(bytes[..align]) && ws[1..] == ParseWords(bytes[align..], n - 1, align)
  {}

  lemma WritesStep<S>(env: Env<S>, port: Port, lane: Lane, fifo: bool, t: Target, m: Machine<S>, ws: seq<nat>)
    requires |ws| > 0
    ensures ExecWrites(env, port, lane, fifo, t, m, ws)
         == ExecWrites(env, port, lane, fifo, if fifo then t else Advance(port, t), ExecWrite(env, lane, t, m, ws[0]), ws[1..])
  {}

  lemma WritesDone<S>(env: Env<S>, port: Port, lane: Lane, fifo: bool, t: Target, m: Machine<S>, bytes: seq<byte>, align: nat)
    ensures ExecWrites(env, port, lane, fifo, t, m, ParseWords(bytes, 0, align)) == m
  {}

  /** The reads done since `m0, g` and the `left` ones still to do from `m, h` amount to all of them. */
  ghost predicate ReadsRemain<S>(env: Env<S>, port: Port, lane: Lane, config: bool,
    m0: Machine<S>, g: Region, all: nat, m: Machine<S>, h: Region, left: nat, align: nat)
    requires port.Valid() && lane.size <= 8
  {
    && Span(all, align) <= |g.unread| && Span(left, align) <= |h.unread|
    && var out := ExecReads(env, port, lane, config, m0, ParseWords(g.unread, all, align));
       var rest := ExecReads(env, port, lane, config, m, ParseWords(h.unread, left, align));
       && out.0 == rest.0
       && g.Skip(Span(all, align)).Put(WordBytes(out.1, align)) == h.Skip(Span(left, align)).Put(WordBytes(rest.1, align))
  }

  lemma ReadsBegin<S>(env: Env<S>, port: Port, lane: Lane, config: bool, m: Machine<S>, g: Region, all: nat, align: nat)
    requires port.Valid() && lane.size <= 8 && Span(all, align) <= |g.unread|
    ensures ReadsRemain(env, port, lane, config, m, g, all, m, g, all, align)
  {}

  lemma ReadsNext<S>(env: Env<S>, port: Port, lane: Lane, config: bool,
    m0: Machine<S>, g: Region, all: nat, m: Machine<S>, h: Region, left: nat, align: nat)
    requires port.Valid() && lane.size <= 8 && left > 0
    requires ReadsRemain(env, port, lane, config, m0, g, all, m, h, left, align)
    ensures align + Span(left - 1, align) == Span(left, align) <= |h.unread|
    ensures var first := ExecRead(env, port, lane, config, m, FromBytes(h.unread[..align]));
            ReadsRemain(env, port, lane, config, m0, g, all, first.0, h.Skip(align).Put(ToBytes(first.1, align)), left - 1, align)
  {
    hide ExecRead, FromBytes, ToBytes;
    var ras := ParseWords(h.unread, left, align);
    var first := ExecRead(env, port, lane, config, m, ras[0]);
    var rest := ExecReads(env, port, lane, config, first.0, ras[1..]);
    Regroup(h.sent, ToBytes(first.1, align), WordBytes(rest.1, align));
    assert h.unread[align..][Span(left - 1, align)..] == h.unread[Span(left, align)..];
  }

  lemma ReadsEnd<S>(env: Env<S>, port: Port, lane: Lane, config: bool,
    m0: Machine<S>, g: Region, all: nat, m: Machine<S>, h: Region, align: nat)
    requires port.Valid() && lane.size <= 8
    requires ReadsRemain(env, port, lane, config, m0, g, all, m, h, 0, align)
    ensures Span(all, align) <= |g.unread|
    ensures var out := ExecReads(env, port, lane, config, m0, ParseWords(g.unread, all, align));
            out.0 == m && h == g.Skip(Span(all, align)).Put(WordBytes(out.1, align))
  {
    assert h.sent + [] == h.sent;
  }
}
