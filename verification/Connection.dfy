/**
 One stream connection of the slave: the buffer that carries an unfinished record from one read of the
 stream to the next.
 */
module StreamDevice {
  import opened Words
  import opened Lanes
  import opened Bus
  import opened Interpreter
  import opened SlaveDevice
  import opened Stream

  method ReadInto(buf: array<byte>, at: nat, chunk: seq<byte>)
    requires at + |chunk| <= buf.Length
    modifies buf
    ensures buf[0..at + |chunk|] == old(buf[..at]) + chunk
  {
    forall i | 0 <= i < |chunk| {
      buf[at + i] := chunk[i];
    }
  }

  method MoveToFront(buf: array<byte>, start: nat, n: nat)
    requires start + n <= buf.Length
    modifies buf
    ensures buf[..n] == old(buf[start..start + n])
  {
    forall i | 0 <= i < n {
      buf[i] := buf[start + i];
    }
  }

  lemma ReceiveIs<S>(env: Env<S>, port: Port, l: Line<S>, chunk: seq<byte>)
    requires port.Valid()
    ensures l.dead ==> Receive(env, port, l, chunk) == (l, [])
    ensures !l.dead && l.idle && |chunk| < 2 ==> Receive(env, port, l, chunk) == (l.(dead := true), [])
    ensures var ss := if l.idle then Session(Machine(l.ss.m.s, 0), false, true, false) else l.ss;
            var out := Interpreter.Serve(env, port, ss, l.kept + chunk);
            var stuck := out.ss.closed && 0 < |out.rest| < port.RecordAlignment();
            var next := (Line(out.ss, out.rest, out.ss.closed && out.rest == [], stuck), out.output);
            !l.dead && !(l.idle && |chunk| < 2) ==> Receive(env, port, l, chunk) == next
  {
    hide Interpreter.Serve, Port.RecordAlignment;
  }

  class Connection<S> {
    const slave: Slave<S>
    const buf: array<byte>
    var kept: nat
    var idle: bool
    var dead: bool

    ghost predicate Valid()
      reads this, slave, buf
    {
      slave.port.Valid() && kept <= buf.Length
    }

    ghost function Line(): Line<S>
      requires Valid()
      reads this, slave, buf
    {
      Stream.Line(slave.Session(), buf[..kept], idle, dead)
    }

    constructor (slave: Slave<S>, size: nat)
      requires slave.port.Valid()
      ensures Valid() && this.slave == slave && fresh(buf) && buf.Length == size
      ensures Line() == Stream.Line(slave.Session(), [], true, false)
    {
      this.slave := slave;
      buf := new byte[size];
      kept, idle, dead := 0, true, false;
    }

    /** A piece of the stream is read behind what was kept, every whole record is served in place, the
        reply is sent, and what is left moves to the front of the buffer. */
    method Arrive(chunk: seq<byte>) returns (reply: seq<byte>)
      requires Valid() && kept + |chunk| <= buf.Length
      modifies this, slave, buf
      ensures Valid() && (Line(), reply) == Receive(slave.env, slave.port, old(Line()), chunk)
    {
      hide Interpreter.Serve, Port.RecordAlignment, Receive;
      ReceiveIs(slave.env, slave.port, Line(), chunk);
      slave.SessionFields();
      if dead {
        return [];
      }
      if idle && |chunk| < 2 {
        dead := true;
        return [];
      }
      if idle {
        slave.m, slave.open, slave.closed, slave.replied := Machine(slave.m.s, 0), false, true, false;
      }
      ReadInto(buf, kept, chunk);
      var eos := kept + |chunk|;
      slave.SessionFields();
      var rptr, wptr := slave.Serve(buf, 0, eos);
      slave.SessionFields();
      reply := buf[0..wptr];
      kept := eos - rptr;
      MoveToFront(buf, rptr, kept);
      idle := slave.closed && kept == 0;
      dead := slave.closed && 0 < kept < slave.port.RecordAlignment();
    }
  }
}
