/**
 What the slave does with records: the reference interpreter. It is written on parsed records and
 on byte strings; Slave.dfy runs the same thing in place on one buffer.
 */
module Interpreter {
  import opened Words
  import opened Lanes
  import opened Records
  import opened Operations
  import opened Bus

  /** One slave session: the machine, whether a reply with an open cycle is on the line, whether the
      last record closed its cycle, and whether there is anything to send back. */
  datatype Session<S> = Session(m: Machine<S>, open: bool, closed: bool, replied: bool)

  /** A session as it starts: no error history, no open cycle. */
  function Fresh<S>(s: S): Session<S> {
    Session(Machine(s, 0), false, true, false)
  }

  /** Where the next write of a record goes: a configuration address, or the byte addresses seen by
      big- and little-endian devices. */
  datatype Target = ConfigTarget(a: nat) | BusTarget(big: nat, little: nat)

  /** Low address bits for a big-endian device; meaningful when the lane is accepted. */
  function LowBig(port: Port, lane: Lane): nat {
    if lane.shift + lane.size <= port.data then port.data - (lane.shift + lane.size) else 0
  }

  function WriteTarget(port: Port, lane: Lane, config: bool, bwa: nat): Target
    requires port.Valid()
  {
    if config then ConfigTarget(bwa)
    else BusTarget(WordAddress(port, bwa) + LowBig(port, lane), WordAddress(port, bwa) + lane.shift)
  }

  /** The address registers move by one bus word, modulo the machine word. */
  function Advance(port: Port, t: Target): Target {
    match t
    case ConfigTarget(a) => ConfigTarget((a + port.data) % WORD64)
    case BusTarget(b, l) => BusTarget((b + port.data) % WORD64, (l + port.data) % WORD64)
  }

  function FromLanes(w: nat, lane: Lane): nat {
    (w / Pow256(lane.shift)) % Pow256(lane.size)
  }

  function ToLanes(v: nat, lane: Lane): nat {
    ShiftUp(v % Pow256(lane.size), lane.shift)
  }

  function ExecWrite<S>(env: Env<S>, lane: Lane, t: Target, m: Machine<S>, w: nat): Machine<S> {
    match t
    case ConfigTarget(a) =>
      if lane.ok then Machine(env.config(m.s, lane.size, a, FromLanes(w, lane)), m.err) else m
    case BusTarget(b, l) =>
      if lane.ok then
        var reply := env.write(m.s, lane.size, b, l, FromLanes(w, lane));
        Machine(reply.s, ShiftIn(m.err, reply.fail))
      else
        Machine(m.s, ShiftIn(m.err, true))
  }

  function ExecWrites<S>(env: Env<S>, port: Port, lane: Lane, fifo: bool, t: Target, m: Machine<S>, ws: seq<nat>)
    : (r: Machine<S>)
    decreases |ws|
  {
    if |ws| == 0 then m else
      ExecWrites(env, port, lane, fifo, if fifo then t else Advance(port, t), ExecWrite(env, lane, t, m, ws[0]), ws[1..])
  }

  /** One read: the machine afterwards and the word put on the wire. */
  function ExecRead<S>(env: Env<S>, port: Port, lane: Lane, config: bool, m: Machine<S>, ra: nat): (Machine<S>, nat)
    requires port.Valid() && lane.size <= 8
  {
    if !lane.ok then
      (if config then m else Machine(m.s, ShiftIn(m.err, true)), ToLanes(0, lane))
    else
      var word := WordAddress(port, ra);
      if config then
        (m, ToLanes(ReadConfig(lane.size, word + LowBig(port, lane), m.err), lane))
      else
        var reply := env.read(m.s, lane.size, word + LowBig(port, lane), word + lane.shift);
        (Machine(reply.s, ShiftIn(m.err, reply.fail)), ToLanes(reply.value, lane))
  }

  function ExecReads<S>(env: Env<S>, port: Port, lane: Lane, config: bool, m: Machine<S>, ras: seq<nat>)
    : (r: (Machine<S>, seq<nat>))
    requires port.Valid() && lane.size <= 8
    ensures |r.1| == |ras|
    decreases |ras|
  {
    if |ras| == 0 then (m, []) else
      var first := ExecRead(env, port, lane, config, m, ras[0]);
      var rest := ExecReads(env, port, lane, config, first.0, ras[1..]);
      (rest.0, [first.1] + rest.1)
  }

  function AfterWrites<S>(env: Env<S>, port: Port, m: Machine<S>, r: Record): Machine<S>
    requires port.Valid()
  {
    if |r.values| == 0 then m else
      var lane := DecodeSelect(r.select, port.data);
      ExecWrites(env, port, lane, r.wff, WriteTarget(port, lane, r.wca, r.bwa), m, r.values)
  }

  function AfterReads<S>(env: Env<S>, port: Port, m: Machine<S>, r: Record): (out: (Machine<S>, seq<nat>))
    requires port.Valid()
    ensures |out.1| == |r.addrs|
  {
    ExecReads(env, port, DecodeSelect(r.select, port.data), r.rca, m, r.addrs)
  }

  /** The reply to a record with reads: its values, as writes to the return address. */
  function ReplyRecord(r: Record, values: seq<nat>): Record {
    Record(r.cyc, r.bca, r.rff, false, false, false, r.select, r.bra, values, 0, [])
  }

  function ExecRecord<S>(env: Env<S>, port: Port, ss: Session<S>, r: Record): (out: (Session<S>, seq<Record>))
    requires port.Valid()
    ensures |out.1| <= 1
  {
    var written := AfterWrites(env, port, ss.m, r);
    if |r.addrs| > 0 then
      var answered := AfterReads(env, port, written, r);
      (Session(answered.0, !r.cyc, r.cyc, true), [ReplyRecord(r, answered.1)])
    else
      (Session(written, ss.open, r.cyc, ss.replied), if ss.open && r.cyc then [TERMINATOR] else [])
  }

  function ExecRecords<S>(env: Env<S>, port: Port, ss: Session<S>, rs: seq<Record>)
    : (out: (Session<S>, seq<Record>))
    requires port.Valid()
    decreases |rs|
  {
    if |rs| == 0 then (ss, []) else
      var first := ExecRecord(env, port, ss, rs[0]);
      var rest := ExecRecords(env, port, first.0, rs[1..]);
      (rest.0, first.1 + rest.1)
  }

  /** An error register after a number of faults. */
  function FaultsOn(err: nat, n: nat): nat
    decreases n
  {
    if n == 0 then err else FaultsOn(ShiftIn(err, true), n - 1)
  }

  /** A record whose select byte is refused leaves the device alone: on the bus each of its operations is a fault,
      in configuration space nothing happens; its reads are answered with zero. */
  lemma RefusedRecord<S>(env: Env<S>, port: Port, m: Machine<S>, r: Record)
    requires port.Valid() && !DecodeSelect(r.select, port.data).ok
    ensures AfterWrites(env, port, m, r) == Machine(m.s, if r.wca then m.err else FaultsOn(m.err, |r.values|))
    ensures var out := AfterReads(env, port, m, r);
            out.0 == Machine(m.s, if r.rca then m.err else FaultsOn(m.err, |r.addrs|)) && forall i | 0 <= i < |r.addrs| :: out.1[i] == 0
  {
    hide DecodeSelect;
    var lane := DecodeSelect(r.select, port.data);
    RefusedWrites(env, port, lane, r.wff, WriteTarget(port, lane, r.wca, r.bwa), m, r.values);
    RefusedReads(env, port, lane, r.rca, m, r.addrs);
  }

  lemma {:induction false} RefusedWrites<S>(env: Env<S>, port: Port, lane: Lane, fifo: bool, t: Target, m: Machine<S>, ws: seq<nat>)
    requires !lane.ok
    ensures ExecWrites(env, port, lane, fifo, t, m, ws) == Machine(m.s, if t.ConfigTarget? then m.err else FaultsOn(m.err, |ws|))
    decreases |ws|
  {
    if |ws| > 0 {
      RefusedWrites(env, port, lane, fifo, if fifo then t else Advance(port, t), ExecWrite(env, lane, t, m, ws[0]), ws[1..]);
    }
  }

  lemma {:induction false} RefusedReads<S>(env: Env<S>, port: Port, lane: Lane, config: bool, m: Machine<S>, ras: seq<nat>)
    requires port.Valid() && !lane.ok && lane.size <= 8
    ensures var out := ExecReads(env, port, lane, config, m, ras);
            out.0 == Machine(m.s, if config then m.err else FaultsOn(m.err, |ras|)) && forall i | 0 <= i < |ras| :: out.1[i] == 0
    decreases |ras|
  {
    if |ras| > 0 {
      ZeroLanes(lane);
      RefusedReads(env, port, lane, config, ExecRead(env, port, lane, config, m, ras[0]).0, ras[1..]);
    }
  }

  lemma ZeroLanes(lane: Lane)
    ensures ToLanes(0, lane) == 0
  {
  }

  /** Every word the slave puts on the wire fits the wire. */
  lemma {:induction false} ReadsFit<S>(env: Env<S>, port: Port, select: byte, config: bool, m: Machine<S>, ras: seq<nat>)
    requires port.Valid()
    ensures WordsFit(ExecReads(env, port, DecodeSelect(select, port.data), config, m, ras).1, port.Alignment())
    decreases |ras|
  {
    var lane := DecodeSelect(select, port.data);
    if |ras| != 0 {
      var first := ExecRead(env, port, lane, config, m, ras[0]);
      ReadsFit(env, port, select, config, first.0, ras[1..]);
      ReadFits(env, port, select, config, m, ras[0]);
    }
  }

  lemma ReadFits<S>(env: Env<S>, port: Port, select: byte, config: bool, m: Machine<S>, ra: nat)
    requires port.Valid()
    ensures ExecRead(env, port, DecodeSelect(select, port.data), config, m, ra).1 < Pow256(port.Alignment())
  {
    var lane := DecodeSelect(select, port.data);
    if lane.ok {
      AcceptedSelect(select, port.data);
    }
    hide *;
    LaneReadFits(env, port, lane, config, m, ra);
  }

  lemma LaneReadFits<S>(env: Env<S>, port: Port, lane: Lane, config: bool, m: Machine<S>, ra: nat)
    requires port.Valid() && lane.size <= 8 && (lane.ok ==> lane.shift + lane.size <= port.data)
    ensures ExecRead(env, port, lane, config, m, ra).1 < Pow256(port.Alignment())
  {
    hide ReadConfig, WordAddress, LowBig;
    assert ToLanes(0, lane) == 0;
    if lane.ok {
      forall v: nat ensures ToLanes(v, lane) < Pow256(port.Alignment()) {
        LaneShift(v % Pow256(lane.size), lane.size, lane.shift);
        Pow256Monotone(lane.size + lane.shift, port.Alignment());
      }
    }
  }

  /** Replies can be encoded, and the reply to a record never takes more bytes than the record. */
  lemma ReplyFits<S>(env: Env<S>, port: Port, ss: Session<S>, r: Record)
    requires port.Valid() && RecordFits(port, r)
    ensures var replies := ExecRecord(env, port, ss, r).1;
            && (forall i :: 0 <= i < |replies| ==> RecordFits(port, replies[i]))
            && |EncodeAll(port, replies)| <= RecordLength(port, |r.values|, |r.addrs|)
  {
    var replies := ExecRecord(env, port, ss, r).1;
    ReadsFit(env, port, r.select, r.rca, AfterWrites(env, port, ss.m, r), r.addrs);
    hide DecodeSelect, AfterWrites, ExecReads;
    if |replies| == 1 {
      assert RecordFits(port, replies[0]);
      assert EncodeAll(port, replies) == Encode(port, replies[0]) + EncodeAll(port, []);
    }
  }

  lemma {:induction false} ParsedWordsFit(bytes: seq<byte>, n: nat, align: nat)
    requires |bytes| >= Span(n, align)
    ensures WordsFit(ParseWords(bytes, n, align), align)
    decreases n
  {
    if n != 0 {
      FromBytesBound(bytes[..align]);
      ParsedWordsFit(bytes[align..], n - 1, align);
    }
  }

  lemma ParsedBlockFits(bytes: seq<byte>, n: nat, align: nat)
    requires n <= 255 && |bytes| >= Span(BlockWords(n), align)
    ensures BlockFits(ParseBase(bytes, n, align), ParseBlock(bytes, n, align), align)
  {
    if n != 0 {
      FromBytesBound(bytes[..align]);
      ParsedWordsFit(bytes[align..], n, align);
    }
  }

  lemma ParsedRecordFits(port: Port, bytes: seq<byte>)
    requires port.Valid() && Complete(port, bytes)
    ensures RecordFits(port, ParseRecord(port, bytes))
  {
    var align := port.Alignment();
    var body := bytes[port.RecordAlignment()..];
    ParsedBlockFits(body, bytes[2], align);
    ParsedBlockFits(body[Span(BlockWords(bytes[2]), align)..], bytes[3], align);
  }

  /** Serve the record at the front of the input: the session afterwards and the bytes replied. */
  function ServeRecord<S>(env: Env<S>, port: Port, ss: Session<S>, input: seq<byte>): (out: (Session<S>, seq<byte>))
    requires port.Valid() && Complete(port, input)
    ensures |out.1| <= RecordLength(port, input[2], input[3])
  {
    var r := ParseRecord(port, input);
    ParsedRecordFits(port, input);
    ReplyFits(env, port, ss, r);
    hide DecodeSelect, ExecRecord, ParseRecord, Encode;
    var first := ExecRecord(env, port, ss, r);
    (first.0, EncodeAll(port, first.1))
  }

  datatype Served<S> = Served(ss: Session<S>, output: seq<byte>, rest: seq<byte>)

  /** Serve every complete record at the front of the input; the rest is left unread. */
  function Serve<S>(env: Env<S>, port: Port, ss: Session<S>, input: seq<byte>): (out: Served<S>)
    requires port.Valid()
    decreases |input|
  {
    if !Complete(port, input) then Served(ss, [], input) else
      var first := ServeRecord(env, port, ss, input);
      var rest := Serve(env, port, first.0, input[RecordLength(port, input[2], input[3])..]);
      Served(rest.ss, first.1 + rest.output, rest.rest)
  }
}
