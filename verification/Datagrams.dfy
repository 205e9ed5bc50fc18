/**
 The whole way over datagrams: each datagram of a flush is served by itself, and each answer comes back in a
 datagram of its own.
 */
module DatagramDelivery {
  import opened Words
  import opened Lanes
  import opened Records
  import opened Operations
  import opened Bus
  import opened Interpreter
  import opened Packer
  import opened Responses
  import opened Delivery
  import opened EndToEnd
  import opened Wire
  import opened Flush
  import opened Packets
  import opened Stream
  import opened Chunks
  import opened RoundTrip

  /** A datagram of this version that carries records of the port's widths and is no probe. */
  predicate HeaderOk(port: Port, d: seq<byte>)
    requires port.Valid()
  {
    && |d| >= port.RecordAlignment() && d[0] == 0x4E && d[1] == 0x6F
    && d[2] / 16 == 1 && d[2] % 4 == 0 && d[3] == port.addr * 16 + port.data
  }

  /** The header goes back with the flag that says that the records hold no reads. */
  function ReplyHeader(port: Port, d: seq<byte>): (h: seq<byte>)
    requires port.Valid() && HeaderOk(port, d)
    ensures |h| == port.RecordAlignment()
  {
    d[..port.RecordAlignment()][2 := if d[2] / 4 % 2 == 1 then d[2] else d[2] + 4]
  }

  /** One datagram: a session of its own. A record that goes beyond its end stops the slave before it replies;
      a rest too short for a record header only stops it afterwards. */
  function ServeDatagram<S>(env: Env<S>, port: Port, s: S, d: seq<byte>): (out: (S, seq<seq<byte>>))
    requires port.Valid()
    ensures |out.1| <= 1
  {
    if !HeaderOk(port, d) then (s, []) else
      var out := Serve(env, port, Fresh(s), d[port.RecordAlignment()..]);
      (out.ss.m.s, if out.ss.replied && |out.rest| < port.RecordAlignment() then [ReplyHeader(port, d) + out.output] else [])
  }

  /** Datagrams one after the other: the state afterwards, and what is sent back. */
  function Exchange<S>(env: Env<S>, port: Port, s: S, ds: seq<seq<byte>>): (S, seq<seq<byte>>)
    requires port.Valid()
  {
    if |ds| == 0 then (s, []) else
      var first := ServeDatagram(env, port, s, ds[0]);
      var rest := Exchange(env, port, first.0, ds[1..]);
      (rest.0, first.1 + rest.1)
  }

  /** A slave that has nothing to send back has sent nothing. */
  lemma {:induction false} SilentServe<S>(env: Env<S>, port: Port, ss: Session<S>, input: seq<byte>)
    requires port.Valid() && !ss.replied && !ss.open
    ensures var out := Serve(env, port, ss, input); if out.ss.replied then out.output != [] else out.output == [] && !out.ss.open
    ensures var out := Serve(env, port, ss, input); ss.replied ==> out.ss.replied
    decreases |input|
  {
    if Complete(port, input) {
      hide Complete, RecordLength, ParseRecord, ExecRecord, EncodeAll;
      LengthPositive(port, input);
      var one := ServeRecord(env, port, ss, input);
      SilentRecord(env, port, ss, input);
      var more := input[RecordLength(port, input[2], input[3])..];
      if one.0.replied {
        RepliedStays(env, port, one.0, more);
      } else {
        SilentServe(env, port, one.0, more);
      }
    }
  }

  lemma SilentRecord<S>(env: Env<S>, port: Port, ss: Session<S>, input: seq<byte>)
    requires port.Valid() && Complete(port, input)
    ensures var one := ServeRecord(env, port, ss, input);
            && (ss.replied ==> one.0.replied)
            && (!ss.replied && !ss.open && !one.0.replied ==> one.1 == [] && !one.0.open)
            && (!ss.replied && one.0.replied ==> one.1 != [])
  {
    hide AfterWrites, AfterReads, ParseRecord, Block;
  }

  lemma {:induction false} RepliedStays<S>(env: Env<S>, port: Port, ss: Session<S>, input: seq<byte>)
    requires port.Valid() && ss.replied
    ensures Serve(env, port, ss, input).ss.replied
    decreases |input|
  {
    if Complete(port, input) {
      SilentRecord(env, port, ss, input);
      hide Complete, RecordLength, ParseRecord, ExecRecord, EncodeAll;
      LengthPositive(port, input);
      RepliedStays(env, port, ServeRecord(env, port, ss, input).0, input[RecordLength(port, input[2], input[3])..]);
    }
  }

  /** What the other side makes of the answer to a datagram, sent or not. */
  lemma AnswerTaken<S, Q>(env: Env<S>, menv: Env<Q>, port: Port, s: S, d: seq<byte>, q: Q)
    requires port.Valid() && HeaderOk(port, d)
    requires var out := Serve(env, port, Fresh(s), d[port.RecordAlignment()..]); out.rest == []
    ensures var out := Serve(env, port, Fresh(s), d[port.RecordAlignment()..]);
            && ServeDatagram(env, port, s, d).0 == out.ss.m.s
            && (ServeDatagram(env, port, s, d).1 == [] <==> out.output == [])
            && Exchange(menv, port, q, ServeDatagram(env, port, s, d).1).0 == Serve(menv, port, Fresh(q), out.output).ss.m.s
  {
    hide Serve, Port.RecordAlignment;
    var align := port.RecordAlignment();
    var out := Serve(env, port, Fresh(s), d[align..]);
    SilentServe(env, port, Fresh(s), d[align..]);
    var sent := ServeDatagram(env, port, s, d).1;
    if out.ss.replied {
      var r := ReplyHeader(port, d) + out.output;
      assert sent == [r] && sent[1..] == [];
      assert r[align..] == out.output;
      assert HeaderOk(port, r);
    } else {
      ServeNone(menv, port, Fresh(q));
    }
  }

  /** The magic number, version 1, no probe, and the widths of the port. */
  predicate Acceptable(port: Port, d: seq<byte>)
    requires port.Valid()
  {
    && |d| >= port.RecordAlignment() && d[0] == 0x4E && d[1] == 0x6F
    && !Bit(d[2], 0) && !Bit(d[2], 1) && Bit(d[2], 4) && !Bit(d[2], 5) && !Bit(d[2], 6) && !Bit(d[2], 7)
    && d[3] / 16 == port.addr && d[3] % 16 == port.data
  }

  /** The bytes of a header go back as they came, but for bit 2, which says that no reads follow. */
  predicate SentBack(h: seq<byte>, d: seq<byte>) {
    && 4 <= |h| <= |d| && Bit(h[2], 2) && (forall i | 0 <= i < 8 && i != 2 :: Bit(h[2], i) == Bit(d[2], i))
    && forall i | 0 <= i < |h| && i != 2 :: h[i] == d[i]
  }

  /** Any datagram at all: only an acceptable one reaches the device, and it is answered exactly if there is
      something to send back and what is left over at its end is too short for a record header. */
  lemma DatagramAnswered<S>(env: Env<S>, port: Port, s: S, d: seq<byte>)
    requires port.Valid()
    ensures !Acceptable(port, d) ==> ServeDatagram(env, port, s, d) == (s, [])
    ensures Acceptable(port, d) ==>
              var n := port.RecordAlignment();
              var got, out := ServeDatagram(env, port, s, d), Serve(env, port, Fresh(s), d[n..]);
              && got.0 == out.ss.m.s && (|got.1| == 1 <==> out.output != [] && |out.rest| < n)
              && (|got.1| == 1 ==> |got.1[0]| >= n && SentBack(got.1[0][..n], d) && got.1[0][n..] == out.output)
  {
    var n := port.RecordAlignment();
    hide Serve, SentBack, Port.RecordAlignment;
    if n <= |d| {
      HeaderBits(port, d);
      if Acceptable(port, d) {
        SilentServe(env, port, Fresh(s), d[n..]);
        HeaderBack(port, d);
        var h := ReplyHeader(port, d);
        assert (h + Serve(env, port, Fresh(s), d[n..]).output)[..n] == h;
      }
    }
  }

  lemma HeaderBits(port: Port, d: seq<byte>)
    requires port.Valid() && |d| >= port.RecordAlignment()
    ensures HeaderOk(port, d) <==> Acceptable(port, d)
  {
    ByteBits(d[2]);
    hide Bit;
    HighNibble(d[2]);
    WidthByte(d[3], port.addr, port.data);
    hide IsWidth;
  }

  lemma HighNibble(b: byte)
    ensures b / 16 == 1 <==> b / 16 % 2 == 1 && b / 32 % 2 == 0 && b / 64 % 2 == 0 && b / 128 % 2 == 0
    ensures b % 4 == 0 <==> b % 2 == 0 && b / 2 % 2 == 0
  {}

  lemma WidthByte(b: byte, addr: nat, data: nat)
    requires data < 16
    ensures b == addr * 16 + data <==> b / 16 == addr && b % 16 == data
  {
    assert b == b / 16 * 16 + b % 16;
  }

  /** The bits of a byte, from the lowest. */
  lemma ByteBits(b: byte)
    ensures Bit(b, 0) == (b % 2 == 1) && Bit(b, 1) == (b / 2 % 2 == 1) && Bit(b, 2) == (b / 4 % 2 == 1) && Bit(b, 3) == (b / 8 % 2 == 1)
    ensures Bit(b, 4) == (b / 16 % 2 == 1) && Bit(b, 5) == (b / 32 % 2 == 1) && Bit(b, 6) == (b / 64 % 2 == 1) && Bit(b, 7) == (b / 128 % 2 == 1)
  {
    LowBits(b);
    LowBits(b / 8);
    LowBits(b / 8 / 8);
    BitDown(b, 3);
    BitDown(b, 4);
    BitDown(b, 5);
    BitDown(b, 6);
    BitDown(b / 8, 3);
    BitDown(b, 7);
    BitDown(b / 8, 4);
    hide Bit;
    assert b / 8 / 8 == b / 64 && b / 8 / 2 == b / 16 && b / 8 / 4 == b / 32 && b / 64 / 2 == b / 128;
  }

  lemma LowBits(v: nat)
    ensures Bit(v, 0) == (v % 2 == 1) && Bit(v, 1) == (v / 2 % 2 == 1) && Bit(v, 2) == (v / 4 % 2 == 1)
  {
    BitOne(v);
    BitTwo(v);
  }

  lemma HeaderBack(port: Port, d: seq<byte>)
    requires port.Valid() && HeaderOk(port, d)
    ensures SentBack(ReplyHeader(port, d), d)
  {
    var b := d[2];
    var b' := if b / 4 % 2 == 1 then b else b + 4;
    hide *;
    HeadBit(b, b');
    BackIs(port, d);
  }

  /** Setting bit 2 of a byte. */
  lemma HeadBit(b: byte, b': byte)
    requires b' == if b / 4 % 2 == 1 then b else b + 4
    ensures Bit(b', 2) && forall i | 0 <= i < 8 && i != 2 :: Bit(b', i) == Bit(b, i)
  {
    hide *;
    OneBitMore(b, b');
    forall i | 3 <= i < 8 ensures Bit(b', i) == Bit(b, i) {
      BitDown(b, i);
      BitDown(b', i);
    }
    LowBits(b);
    LowBits(b');
  }

  lemma OneBitMore(b: byte, b': byte)
    requires b' == if b / 4 % 2 == 1 then b else b + 4
    ensures b' / 8 == b / 8 && b' % 2 == b % 2 && b' / 2 % 2 == b / 2 % 2 && b' / 4 % 2 == 1
  {
    var q, r := b / 8, b % 8;
    Octal(b, q, r);
    Octal(b', q, if r < 4 then r + 4 else r);
  }

  lemma Octal(b: nat, q: nat, r: nat)
    requires b == 8 * q + r && r < 8
    ensures b / 8 == q && b / 4 % 2 == r / 4 && b / 2 % 2 == r / 2 % 2 && b % 2 == r % 2
  {
    DivModUnique(b, 4, 2 * q + r / 4, r % 4);
    DivModUnique(b, 2, 4 * q + r / 2, r % 2);
  }

  lemma BackIs(port: Port, d: seq<byte>)
    requires port.Valid() && HeaderOk(port, d)
    requires var b' := if d[2] / 4 % 2 == 1 then d[2] else d[2] + 4; b' < 256 && Bit(b', 2) && forall i | 0 <= i < 8 && i != 2 :: Bit(b', i) == Bit(d[2], i)
    ensures SentBack(ReplyHeader(port, d), d)
  {
    hide Bit;
  }

  // From the datagrams of a flush to the cycles in them.

  function BytesList(port: Port, cs: seq<Sent>): (bs: seq<seq<byte>>)
    requires Sendable(port, cs)
    ensures |bs| == |cs|
  {
    if |cs| == 0 then [] else [BytesOf(port, cs[0])] + BytesList(port, cs[1..])
  }

  lemma {:induction false} BytesListParts(port: Port, cs: seq<Sent>, k: nat)
    requires Sendable(port, cs) && k <= |cs|
    ensures Sendable(port, cs[..k]) && Sendable(port, cs[k..])
    ensures BytesList(port, cs)[..k] == BytesList(port, cs[..k]) && BytesList(port, cs)[k..] == BytesList(port, cs[k..])
    ensures Flatten(BytesList(port, cs[..k])) == StreamBytes(port, cs[..k])
    decreases k
  {
    hide BytesOf, Packable;
    if k > 0 {
      BytesListParts(port, cs[1..], k - 1);
      assert cs[1..][..k - 1] == cs[..k][1..] && cs[1..][k - 1..] == cs[k..];
      assert BytesList(port, cs)[k..] == BytesList(port, cs[1..])[k - 1..];
    }
  }

  /** The datagrams, seen from the first one on. */
  lemma {:induction false} DatagramsFront(header: seq<byte>, ds: seq<seq<byte>>, requests: seq<seq<byte>>) returns (k: nat)
    requires Datagrams(header, ds, requests) && |ds| > 0
    ensures 0 < k <= |requests| && ds[0] == header + Flatten(requests[..k]) && Datagrams(header, ds[1..], requests[k..])
    decreases |ds|
  {
    hide *;
    var n := |ds| - 1;
    var last := LastBegins(header, ds, requests);
    if n == 0 {
      k := |requests|;
      OnlyDatagram(header, ds, requests, last);
    } else {
      k := DatagramsFront(header, ds[..n], requests[..last]);
      assert requests[..last][..k] == requests[..k];
      LastDatagram(header, ds, requests, k, last);
    }
  }

  lemma LastBegins(header: seq<byte>, ds: seq<seq<byte>>, requests: seq<seq<byte>>) returns (last: nat)
    requires Datagrams(header, ds, requests) && |ds| > 0
    ensures last < |requests| && ds[|ds| - 1] == header + Flatten(requests[last..]) && Datagrams(header, ds[..|ds| - 1], requests[..last])
  {
    hide Flatten;
    last :| 0 <= last < |requests| && ds[|ds| - 1] == header + Flatten(requests[last..]) && Datagrams(header, ds[..|ds| - 1], requests[..last]);
  }

  lemma OnlyDatagram(header: seq<byte>, ds: seq<seq<byte>>, requests: seq<seq<byte>>, last: nat)
    requires |ds| == 1 && last < |requests| && ds[0] == header + Flatten(requests[last..]) && Datagrams(header, ds[..0], requests[..last])
    ensures ds[0] == header + Flatten(requests[..|requests|]) && Datagrams(header, ds[1..], requests[|requests|..])
  {
    hide Flatten;
    assert last == 0 && requests[0..] == requests == requests[..|requests|];
  }

  lemma LastDatagram(header: seq<byte>, ds: seq<seq<byte>>, requests: seq<seq<byte>>, k: nat, last: nat)
    requires |ds| > 1 && k <= last < |requests| && ds[|ds| - 1] == header + Flatten(requests[last..])
    requires Datagrams(header, ds[..|ds| - 1][1..], requests[..last][k..])
    ensures Datagrams(header, ds[1..], requests[k..])
  {
    hide Flatten;
    var n := |ds| - 1;
    assert ds[1..][..n - 1] == ds[..n][1..] && requests[k..][..last - k] == requests[..last][k..] && requests[k..][last - k..] == requests[last..];
    assert ds[1..][n - 1] == ds[n];
  }

  function Payloads(port: Port, ds: seq<seq<byte>>): (ps: seq<seq<byte>>)
    requires port.Valid() && forall i | 0 <= i < |ds| :: |ds[i]| >= port.RecordAlignment()
  {
    if |ds| == 0 then [] else [ds[0][port.RecordAlignment()..]] + Payloads(port, ds[1..])
  }

  lemma {:induction false} DatagramsLong(header: seq<byte>, ds: seq<seq<byte>>, requests: seq<seq<byte>>)
    requires Datagrams(header, ds, requests)
    ensures forall i | 0 <= i < |ds| :: |ds[i]| >= |header|
    decreases |ds|
  {
    hide Flatten;
    if |ds| > 0 {
      var k := DatagramsFront(header, ds, requests);
      DatagramsLong(header, ds[1..], requests[k..]);
      assert forall i | 0 < i < |ds| :: ds[i] == ds[1..][i - 1];
    }
  }

  /** Cycles behind the end of a piece are cut by the later pieces. */
  lemma {:induction false} RestartsConcat(port: Port, a: seq<Sent>, b: seq<Sent>, seen: int, x: seq<byte>, more: seq<seq<byte>>)
    requires Sendable(port, a) && Sendable(port, b) && Sendable(port, a + b) && |a| > 0 && |StreamBytes(port, a)| - seen == |x|
    requires seen <= 0
    ensures Restarts(port, a + b, seen, [x] + more) == Restarts(port, a, seen, [x]) + Restarts(port, b, 0, more)
    ensures Restarts(port, a, seen, [x])[|a| - 1]
    decreases |a|
  {
    hide *;
    StreamStep(port, a);
    SomeBytes(port, a[0]);
    var n := |BytesOf(port, a[0])|;
    assert (a + b)[1..] == a[1..] + b && (a + b)[0] == a[0];
    RestartsStep(port, a, seen, [x]);
    RestartsStep(port, a + b, seen, [x] + more);
    if |a| == 1 {
      assert a[1..] + b == b;
      LastCut(port, a[1..], b, seen - n, x, more, n - seen);
    } else {
      StreamStep(port, a[1..]);
      SomeBytes(port, a[1..][0]);
      RestartsConcat(port, a[1..], b, seen - n, x, more);
      FirstCut(x, more, n - seen);
      Regroup([Cut([x], n - seen)], Restarts(port, a[1..], seen - n, [x]), Restarts(port, b, 0, more));
    }
  }

  /** The piece ends with the cycle. */
  lemma LastCut(port: Port, none: seq<Sent>, b: seq<Sent>, seen: int, x: seq<byte>, more: seq<seq<byte>>, n: nat)
    requires Sendable(port, none) && Sendable(port, b) && none == [] && n == |x| > 0 && seen + |x| == 0
    ensures Cut([x], n) && Cut([x] + more, n)
    ensures [true] + Restarts(port, b, seen, [x] + more) == [true] + Restarts(port, none, seen, [x]) + Restarts(port, b, 0, more)
  {
    hide BytesOf, Packable;
    if |b| > 0 {
      StreamStep(port, b);
      SomeBytes(port, b[0]);
    }
    RestartsLater(port, b, seen, x, more);
    hide StreamBytes, Sendable;
    assert [true] + [] + Restarts(port, b, 0, more) == [true] + Restarts(port, b, 0, more);
  }

  lemma RestartsStep(port: Port, cs: seq<Sent>, seen: int, chunks: seq<seq<byte>>)
    requires Sendable(port, cs) && |cs| > 0
    ensures Sendable(port, cs[1..]) && Packable(port, cs[0].cycle.ops, cs[0].checked, cs[0].rba)
    ensures var n := |BytesOf(port, cs[0])|; Restarts(port, cs, seen, chunks) == [Cut(chunks, n - seen)] + Restarts(port, cs[1..], seen - n, chunks)
  {
    hide BytesOf, Packable, Cut;
  }

  lemma FirstCut(x: seq<byte>, more: seq<seq<byte>>, n: int)
    requires n <= |x|
    ensures Cut([x] + more, n) == Cut([x], n)
  {
    assert ([x] + more)[1..] == more && [x][1..] == [];
    NeverCut(more, n - |x|);
  }

  lemma NeverCut(chunks: seq<seq<byte>>, n: int)
    requires n <= 0
    ensures !Cut(chunks, n)
  {
  }

  lemma {:induction false} DirectFromConcat<S>(env: Env<S>, port: Port, m: Machine<S>, a: seq<Sent>, b: seq<Sent>, ra: seq<bool>, rb: seq<bool>)
    requires port.Valid() && |ra| == |a| > 0 && |rb| == |b| && ra[|a| - 1]
    requires forall i | 0 <= i < |a| :: ValidOperations(port, a[i].cycle.ops)
    requires forall i | 0 <= i < |b| :: ValidOperations(port, b[i].cycle.ops)
    ensures forall i | 0 <= i < |a + b| :: ValidOperations(port, (a + b)[i].cycle.ops)
    ensures var first := DirectFrom(env, port, m, a, ra);
            var rest := DirectFrom(env, port, Machine(first.0, 0), b, rb);
            DirectFrom(env, port, m, a + b, ra + rb) == (rest.0, first.1 + rest.1)
    decreases |a|
  {
    hide Run, ValidOperations, OwnCallback;
    var out := Run(env, port, m, a[0].cycle.ops);
    var m' := NextMachine(ra[0], out.0);
    assert (a + b)[1..] == a[1..] + b && (ra + rb)[1..] == ra[1..] + rb && (a + b)[0] == a[0] && (ra + rb)[0] == ra[0];
    var own := OwnCallback(a[0], out.1);
    if |a| == 1 {
      assert a[1..] + b == b && ra[1..] + rb == rb;
      assert own + [] == own;
    } else {
      DirectFromConcat(env, port, m', a[1..], b, ra[1..], rb);
      var first := DirectFrom(env, port, m', a[1..], ra[1..]);
      Regroup(own, first.1, DirectFrom(env, port, Machine(first.0, 0), b, rb).1);
    }
  }

  lemma {:induction false} AwaitingConcat(a: seq<Sent>, b: seq<Sent>)
    ensures Awaiting(a + b) == Awaiting(a) + Awaiting(b)
    decreases |a|
  {
    hide NeedsReply, NewResponse;
    if |a| == 0 {
      assert a + b == b;
    } else {
      AwaitingConcat(a[1..], b);
      assert (a + b)[1..] == a[1..] + b;
      if NeedsReply(a[0].cycle.ops, a[0].checked) {
        Regroup([NewResponse(a[0].cycle, a[0].rba, a[0].deadline, a[0].checked)], Awaiting(a[1..]), Awaiting(b));
      }
    }
  }

  /** A datagram of whole cycles is served in one session, like a stream in one piece. */
  lemma ServedTogether<S(!new)>(env: Env<S>, port: Port, s: S, cs: seq<Sent>)
    requires Sendable(port, cs) && |cs| > 0 && port.Valid()
    ensures var out := Serve(env, port, Fresh(s), StreamBytes(port, cs));
            out.rest == [] && Answered(env, port, Fresh(s), cs, Restarts(port, cs, 0, [StreamBytes(port, cs)]), out.output, out.ss.m.s)
  {
    hide Serve, BytesOf, Answered, Restarts, Packable;
    StreamStep(port, cs);
    SomeBytes(port, cs[0]);
    FreshHas(s);
    var b := StreamBytes(port, cs);
    hide StreamBytes, Sendable;
    WholeCycles(env, port, Fresh(s), cs);
    InOnePiece(env, port, s, b);
    StreamAnswered(env, port, s, cs, [b]);
  }

  lemma InOnePiece<S>(env: Env<S>, port: Port, s: S, b: seq<byte>)
    requires port.Valid() && b != []
    requires var out := Serve(env, port, Fresh(s), b); out.rest == [] && out.ss.closed
    ensures Pieces([b]) && Joined([b]) == b
    ensures var out := Serve(env, port, Fresh(s), b);
            var got := Deliver(env, port, AtRest(s), [b]);
            !got.0.dead && got.1 == out.output && got.0.ss.m.s == out.ss.m.s
  {
    hide Serve;
    assert b + [] == b && [b][1..] == [] && [] + b == b;
    if |b| < 2 {
      TooShort(env, port, Fresh(s), b);
    }
    var out := Serve(env, port, Fresh(s), b);
    assert out.output + [] == out.output;
  }

  /** One datagram and its answer. */
  lemma OneExchanged<S(!new)>(env: Env<S>, menv: Env<Queue>, port: Port, header: seq<byte>, cs: seq<Sent>, s: S, q: Queue,
    before: seq<Response>, after: seq<Response>)
    requires Sendable(port, cs) && Clean(port, cs) && |cs| > 0 && port.Valid() && |header| == port.RecordAlignment()
    requires HeaderOk(port, header + StreamBytes(port, cs))
    requires TakesReplies(menv) && QueueOk(q) && AllOk(before) && AllOk(after) && Apart(before, cs) && Fifo(q) == before + Awaiting(cs) + after
    ensures forall i | 0 <= i < |cs| :: ValidOperations(port, cs[i].cycle.ops)
    ensures var one := ServeDatagram(env, port, s, header + StreamBytes(port, cs));
            var back := Exchange(menv, port, q, one.1).0;
            var direct := DirectFrom(env, port, Machine(s, 0), cs, Restarts(port, cs, 0, [StreamBytes(port, cs)]));
            one.0 == direct.0 && QueueOk(back) && Fifo(back) == before + after && back.log == q.log + direct.1
  {
    hide *;
    var d, b := header + StreamBytes(port, cs), StreamBytes(port, cs);
    assert d[|header|..] == b;
    ServedTogether(env, port, s, cs);
    AnswerTaken(env, menv, port, s, d, q);
    FreshHas(s);
    FreshHas(q);
    ValidAll(port, cs);
    var out := Serve(env, port, Fresh(s), b);
    AnswersDelivered(env, menv, port, Fresh(s), cs, Restarts(port, cs, 0, [b]), out.output, out.ss.m.s, Fresh(q), before, after);
  }

  lemma CleanParts(port: Port, cs: seq<Sent>, k: nat, before: seq<Response>)
    requires Sendable(port, cs) && Clean(port, cs) && Apart(before, cs) && k <= |cs|
    ensures Sendable(port, cs[..k]) && Clean(port, cs[..k]) && Apart(before, cs[..k])
    ensures Sendable(port, cs[k..]) && Clean(port, cs[k..]) && Apart(before, cs[k..])
    ensures cs[..k] + cs[k..] == cs
  {
    hide Packable, Untouched, NoneAt;
  }

  lemma {:induction false} ExchangeConcat<S>(env: Env<S>, port: Port, s: S, a: seq<seq<byte>>, b: seq<seq<byte>>)
    requires port.Valid()
    ensures Exchange(env, port, s, a + b).0 == Exchange(env, port, Exchange(env, port, s, a).0, b).0
    decreases |a|
  {
    hide ServeDatagram;
    if |a| == 0 {
      assert a + b == b;
    } else {
      assert (a + b)[1..] == a[1..] + b;
      ExchangeConcat(env, port, ServeDatagram(env, port, s, a[0]).0, a[1..], b);
    }
  }

  /** All datagrams and their answers, in order and none lost. */
  lemma {:induction false} AllExchanged<S(!new)>(env: Env<S>, menv: Env<Queue>, port: Port, header: seq<byte>, ds: seq<seq<byte>>, cs: seq<Sent>,
    s: S, q: Queue, before: seq<Response>, after: seq<Response>)
    requires Sendable(port, cs) && Clean(port, cs) && port.Valid() && |header| == port.RecordAlignment() && HeaderOk(port, header)
    requires Datagrams(header, ds, BytesList(port, cs)) && forall i | 0 <= i < |ds| :: |ds[i]| >= port.RecordAlignment()
    requires TakesReplies(menv) && QueueOk(q) && AllOk(before) && AllOk(after) && Apart(before, cs) && Fifo(q) == before + Awaiting(cs) + after
    ensures forall i | 0 <= i < |cs| :: ValidOperations(port, cs[i].cycle.ops)
    ensures var slave := Exchange(env, port, s, ds);
            var master := Exchange(menv, port, q, slave.1).0;
            var direct := DirectFrom(env, port, Machine(s, 0), cs, Restarts(port, cs, 0, Payloads(port, ds)));
            slave.0 == direct.0 && QueueOk(master) && Fifo(master) == before + after && master.log == q.log + direct.1
    decreases |ds|
  {
    hide *;
    ValidAll(port, cs);
    if |ds| == 0 {
      NothingExchanged(env, menv, port, header, ds, cs, s, q, before, after);
    } else {
      var k := DatagramsFront(header, ds, BytesList(port, cs));
      BytesListParts(port, cs, k);
      CleanParts(port, cs, k, before);
      var front, back := cs[..k], cs[k..];
      var b := StreamBytes(port, front);
      HeaderExtends(port, header, b);
      AwaitingConcat(front, back);
      Regroup4(before, Awaiting(front), Awaiting(back), after);
      AllOkJoin(Awaiting(back), after);
      OneExchanged(env, menv, port, header, front, s, q, before, Awaiting(back) + after);
      Regroup(before, Awaiting(back), after);
      var one := ServeDatagram(env, port, s, ds[0]);
      var q1 := Exchange(menv, port, q, one.1).0;
      AllExchanged(env, menv, port, header, ds[1..], back, one.0, q1, before, after);
      ExchangeStep(env, port, s, ds);
      ExchangeConcat(menv, port, q, one.1, Exchange(env, port, one.0, ds[1..]).1);
      assert (header + b)[|header|..] == b;
      PayloadsStep(port, ds);
      RestartsConcat(port, front, back, 0, b, Payloads(port, ds[1..]));
      var ra, rb := Restarts(port, front, 0, [b]), Restarts(port, back, 0, Payloads(port, ds[1..]));
      ValidAll(port, front);
      ValidAll(port, back);
      DirectFromConcat(env, port, Machine(s, 0), front, back, ra, rb);
      Regroup(q.log, DirectFrom(env, port, Machine(s, 0), front, ra).1, DirectFrom(env, port, Machine(one.0, 0), back, rb).1);
    }
  }

  lemma NothingExchanged<S>(env: Env<S>, menv: Env<Queue>, port: Port, header: seq<byte>, ds: seq<seq<byte>>, cs: seq<Sent>,
    s: S, q: Queue, before: seq<Response>, after: seq<Response>)
    requires Sendable(port, cs) && port.Valid() && |ds| == 0 && Datagrams(header, ds, BytesList(port, cs))
    requires Fifo(q) == before + Awaiting(cs) + after
    ensures cs == [] && Exchange(env, port, s, ds) == (s, []) && Exchange(menv, port, q, []).0 == q && Fifo(q) == before + after
    ensures Restarts(port, cs, 0, Payloads(port, ds)) == [] && DirectFrom(env, port, Machine(s, 0), [], []) == (s, []) && q.log + [] == q.log
  {
    hide Fifo;
    assert before + [] + after == before + after;
  }

  lemma HeaderExtends(port: Port, header: seq<byte>, b: seq<byte>)
    requires port.Valid() && HeaderOk(port, header)
    ensures HeaderOk(port, header + b)
  {
  }

  lemma ExchangeStep<S>(env: Env<S>, port: Port, s: S, ds: seq<seq<byte>>)
    requires port.Valid() && |ds| > 0
    ensures var one := ServeDatagram(env, port, s, ds[0]);
            var rest := Exchange(env, port, one.0, ds[1..]);
            Exchange(env, port, s, ds) == (rest.0, one.1 + rest.1)
  {
    hide ServeDatagram;
  }

  lemma PayloadsStep(port: Port, ds: seq<seq<byte>>)
    requires port.Valid() && |ds| > 0 && forall i | 0 <= i < |ds| :: |ds[i]| >= port.RecordAlignment()
    ensures Payloads(port, ds) == [ds[0][port.RecordAlignment()..]] + Payloads(port, ds[1..])
  {
  }

  /** What the flush accepts is what it sends, cycle by cycle. */
  lemma {:induction false} AcceptedAre(t: Transport, device: nat, time: nat, s: Sender, cs: seq<QueuedCycle>, oom: nat -> bool)
    requires t.Ok() && SenderOk(t, s) && |s.cur| == 0 && Short(cs) && Sendable(t.port, Sents(t, device, time, s, cs, oom))
    ensures AcceptedRequests(t, device, time, s, cs, oom) == BytesList(t.port, Sents(t, device, time, s, cs, oom))
    decreases |cs|
  {
    hide Packets.Request, Accepts, FlushCycle, BytesOf, Packable, SentOf, Untouched;
    if |cs| > 0 {
      var c, o := cs[0], oom(cs[0].id);
      var s1 := FlushCycle(t, device, time, s, c, o);
      var rest := Sents(t, device, time, s1, cs[1..], oom);
      if Accepts(t, s.rba, c, o) {
        SentIs(t, device, time, s.rba, c, o);
        var x := SentOf(t, device, time, s.rba, c);
        assert Sents(t, device, time, s, cs, oom)[1..] == rest;
        AcceptedAre(t, device, time, s1, cs[1..], oom);
      } else {
        assert Sents(t, device, time, s, cs, oom) == rest;
        AcceptedAre(t, device, time, s1, cs[1..], oom);
      }
    }
  }

  lemma PacketHeaderOk(t: Transport)
    requires t.Ok()
    ensures t.port.Valid() && HeaderOk(t.port, t.PacketHeader()) && |t.PacketHeader()| == t.port.RecordAlignment()
  {
  }

  /** From a flush to its callbacks over datagrams, in order and none lost: each datagram is served by itself,
      and each answer comes back in a datagram of its own. The bus ends as direct execution of the accepted
      cycles in queue order leaves it, each awaited cycle is called back once, in order, with the results of
      direct execution, and older responses stay untouched. The error register is cleared where a datagram
      ends, which only reads of that register that are not settled can tell. */
  lemma DatagramRoundTrip<S(!new)>(env: Env<S>, menv: Env<Queue>, t: Transport, device: nat, time: nat, s: Sender, cs: seq<QueuedCycle>,
    oom: nat -> bool, bus: S)
    requires t.Ok() && t.mtu != 0 && SenderOk(t, s) && |s.cur| == 0 && |s.done| == 0 && |s.sent| == 0 && Short(cs)
    requires TakesReplies(menv) && QueueOk(s.queue) && Apart(Fifo(s.queue), Sents(t, device, time, s, cs, oom))
    ensures var sent := Sents(t, device, time, s, cs, oom);
            var out := Finish(t, FlushCycles(t, device, time, s, cs, oom));
            var slave := Exchange(env, t.port, bus, out.sent);
            var master := Exchange(menv, t.port, out.queue, slave.1).0;
            && Sendable(t.port, sent) && (forall i | 0 <= i < |sent| :: ValidOperations(t.port, sent[i].cycle.ops))
            && (forall i | 0 <= i < |out.sent| :: |out.sent[i]| >= t.port.RecordAlignment())
            && slave.0 == Direct(env, t.port, bus, sent).0 && Fifo(master) == Fifo(s.queue)
            && master.log == out.queue.log + DirectFrom(env, t.port, Machine(bus, 0), sent, Restarts(t.port, sent, 0, Payloads(t.port, out.sent))).1
            && (AllSteady(t.port, sent) ==> master.log == out.queue.log + Direct(env, t.port, bus, sent).1)
  {
    hide *;
    ShortIs(cs);
    PacketHeaderOk(t);
    var sent := Sents(t, device, time, s, cs, oom);
    var mid := FlushCycles(t, device, time, s, cs, oom);
    var out := Finish(t, mid);
    FlushSends(t, device, time, s, cs, oom);
    PacketAtomicity(t, device, time, s, cs, oom);
    assert out.sent[|s.sent|..] == out.sent;
    AcceptedAre(t, device, time, s, cs, oom);
    DatagramsLong(t.PacketHeader(), out.sent, BytesList(t.port, sent));
    Emptied(t, s, mid);
    SendableIs(t.port, sent);
    var older := Fifo(s.queue);
    assert older + Awaiting(sent) + [] == older + Awaiting(sent) && older + [] == older;
    NoneOk(s.queue);
    AllExchanged(env, menv, t.port, t.PacketHeader(), out.sent, sent, bus, mid.queue, older, []);
    DirectSame(env, t.port, Machine(bus, 0), sent, Restarts(t.port, sent, 0, Payloads(t.port, out.sent)));
  }
}
