/**
 Devices attached to a socket: the handler list, and the local bus that reads and writes of a slave are
 dispatched to.
 */
module Handlers {
  import opened Words
  import opened Lanes
  import opened Operations
  import opened Bus
  import opened Sdb

  datatype Option<+T> = None | Some(value: T)

  /** An attached device: where its record is kept, the record, and its callbacks, which get the device state,
      the address and the size; they may be missing. */
  datatype Handler<!S> = Handler(pointer: nat, device: Device,
    read: Option<(S, nat, nat) -> BusReply<S>>, write: Option<(S, nat, nat, nat) -> BusReply<S>>)

  const LITTLE_ENDIAN_BUS: nat := 0x80

  predicate Covers(d: Device, address: nat) {
    d.first <= address <= d.last
  }

  predicate Overlap(a: Device, b: Device) {
    a.first <= b.last && b.first <= a.last
  }

  /** Two ranges overlap exactly if some address is in both. */
  lemma OverlapIff(a: Device, b: Device)
    requires a.first <= a.last && b.first <= b.last
    ensures Overlap(a, b) <==> exists x: nat :: a.first <= x <= a.last && Covers(b, x)
  {
    if Overlap(a, b) {
      var x := if a.first < b.first then b.first else a.first;
      assert a.first <= x <= a.last && Covers(b, x);
    }
  }

  /** No two devices overlap, and none reaches into the table. */
  ghost predicate Disjoint<S>(hs: seq<Handler<S>>) {
    && (forall i | 0 <= i < |hs| :: hs[i].device.first >= SDB_END)
    && (forall i, j | 0 <= i < j < |hs| :: !Overlap(hs[i].device, hs[j].device))
  }

  /** The first handler of the list that covers the address, or the length of the list. */
  function Find<S>(hs: seq<Handler<S>>, address: nat): (i: nat)
    ensures i <= |hs|
  {
    if |hs| == 0 || Covers(hs[0].device, address) then 0 else 1 + Find(hs[1..], address)
  }

  /** Attached devices never compete: whichever device covers an address is the one that is found, so the
      order of the list does not matter. */
  lemma {:induction false} FindIff<S>(hs: seq<Handler<S>>, address: nat, i: nat)
    requires Disjoint(hs) && i < |hs|
    ensures Find(hs, address) == i <==> Covers(hs[i].device, address)
  {
    if i == 0 {
    } else if Covers(hs[0].device, address) {
      assert !Overlap(hs[0].device, hs[i].device);
    } else {
      FindIff(hs[1..], address, i - 1);
    }
  }

  /** Which of the two addresses a device is given. */
  function DeviceAddress(d: Device, big: nat, little: nat): nat {
    if d.specific / LITTLE_ENDIAN_BUS % 2 == 1 then little else big
  }

  function DeviceNames<S>(hs: seq<Handler<S>>): (ds: seq<Device>)
    ensures |ds| == |hs| && forall i | 0 <= i < |hs| :: ds[i] == hs[i].device
  {
    if |hs| == 0 then [] else [hs[0].device] + DeviceNames(hs[1..])
  }

  predicate WellNamed<S>(hs: seq<Handler<S>>) {
    Named(DeviceNames(hs))
  }

  /** A read of the local bus: the table, a device, or a segfault. */
  function BusRead<S>(hs: seq<Handler<S>>, version: nat, date: nat, s: S, size: nat, big: nat, little: nat): BusReply<S>
    requires WellNamed(hs)
  {
    if big < SDB_END then BusReply(s, TableWord(DeviceNames(hs), version, date, size, big), false) else
      var i := Find(hs, big);
      if i == |hs| || hs[i].read.None? then BusReply(s, 0, true)
      else hs[i].read.value(s, DeviceAddress(hs[i].device, big, little), size)
  }

  /** A write; the table cannot be written. */
  function BusWrite<S>(hs: seq<Handler<S>>, s: S, size: nat, big: nat, little: nat, value: nat): BusReply<S>
  {
    if big < SDB_END then BusReply(s, 0, true) else
      var i := Find(hs, big);
      if i == |hs| || hs[i].write.None? then BusReply(s, 0, true)
      else hs[i].write.value(s, DeviceAddress(hs[i].device, big, little), size, value)
  }

  /** The bus of a socket with these devices, as the slave sees it. */
  function SocketEnv<S>(hs: seq<Handler<S>>, version: nat, date: nat, config: (S, nat, nat, nat) -> S): Env<S>
    requires WellNamed(hs)
  {
    Env((s: S, size: nat, b: nat, l: nat) => BusRead(hs, version, date, s, size, b, l),
        (s: S, size: nat, b: nat, l: nat, v: nat) => BusWrite(hs, s, size, b, l, v),
        config)
  }

  /** Handler `k` is the first of this device. */
  predicate IsFirst<S>(hs: seq<Handler<S>>, pointer: nat, k: nat)
    requires k < |hs|
  {
    hs[k].pointer == pointer && forall j | 0 <= j < k :: hs[j].pointer != pointer
  }

  function Without<S>(hs: seq<Handler<S>>, k: nat): seq<Handler<S>>
    requires k < |hs|
  {
    hs[..k] + hs[k + 1..]
  }

  class Local<S> {
    const version: nat
    const date: nat
    /** The newest handler first. */
    var handlers: seq<Handler<S>>
    var state: S

    ghost predicate Valid()
      reads this
    {
      Disjoint(handlers) && WellNamed(handlers)
    }

    constructor (version: nat, date: nat, state: S)
      ensures Valid() && handlers == []
    {
      this.version, this.date, this.state := version, date, state;
      handlers := [];
    }

    /** eb_socket_attach: refused exactly if memory is short, the range reaches into the table, or it
        overlaps an attached device. */
    method Attach(h: Handler<S>, oom: bool) returns (status: Status)
      requires Valid() && |h.device.product.name| == 19
      modifies `handlers
      ensures Valid()
      ensures status == OOM <==> oom
      ensures status == ADDRESS <==> !oom && (h.device.first < 0x4000 || exists i | 0 <= i < |old(handlers)| :: Overlap(h.device, old(handlers)[i].device))
      ensures status == OK || status == OOM || status == ADDRESS
      ensures handlers == if status == OK then [h] + old(handlers) else old(handlers)
    {
      if oom {
        return OOM;
      }
      if h.device.first < SDB_END {
        return ADDRESS;
      }
      var i := 0;
      while i < |handlers|
        invariant 0 <= i <= |handlers| && forall j | 0 <= j < i :: !Overlap(h.device, handlers[j].device)
      {
        if Overlap(h.device, handlers[i].device) {
          return ADDRESS;
        }
        i := i + 1;
      }
      AttachKeeps(h, handlers);
      handlers := [h] + handlers;
      return OK;
    }

    /** eb_socket_detach: the newest handler of the device, known by where its record is kept, is taken out of
        the list. */
    method Detach(pointer: nat) returns (status: Status)
      requires Valid()
      modifies `handlers
      ensures Valid()
      ensures status == OK || status == ADDRESS
      ensures status == ADDRESS <==> forall i | 0 <= i < |old(handlers)| :: old(handlers)[i].pointer != pointer
      ensures status == ADDRESS ==> handlers == old(handlers)
      ensures status == OK ==> exists k | 0 <= k < |old(handlers)| :: IsFirst(old(handlers), pointer, k) && handlers == Without(old(handlers), k)
    {
      var k := 0;
      while k < |handlers| && handlers[k].pointer != pointer
        invariant 0 <= k <= |handlers| && forall j | 0 <= j < k :: handlers[j].pointer != pointer
      {
        k := k + 1;
      }
      if k == |handlers| {
        return ADDRESS;
      }
      DetachKeeps(handlers, k);
      assert IsFirst(handlers, pointer, k);
      handlers := Without(handlers, k);
      return OK;
    }

    method Locate(address: nat) returns (i: nat)
      ensures i == Find(handlers, address)
    {
      i := 0;
      while i < |handlers| && !Covers(handlers[i].device, address)
        invariant 0 <= i <= |handlers| && Find(handlers, address) == i + Find(handlers[i..], address)
      {
        assert handlers[i..][1..] == handlers[i + 1..];
        i := i + 1;
      }
    }

    /** eb_socket_write. */
    method Write(size: nat, big: nat, little: nat, value: nat, error: nat) returns (error': nat)
      modifies `state
      ensures var reply := BusWrite(handlers, old(state), size, big, little, value);
              state == reply.s && error' == ShiftIn(error, reply.fail)
    {
      if big < SDB_END {
        return ShiftIn(error, true);
      }
      var i := Locate(big);
      if i == |handlers| || handlers[i].write.None? {
        return ShiftIn(error, true);
      }
      var reply := handlers[i].write.value(state, DeviceAddress(handlers[i].device, big, little), size, value);
      state := reply.s;
      return ShiftIn(error, reply.fail);
    }

    /** eb_socket_read. */
    method Read(size: nat, big: nat, little: nat, error: nat) returns (value: nat, error': nat)
      requires Valid() && size in {1, 2, 4, 8} && big % size == 0
      modifies `state
      ensures var reply := BusRead(handlers, version, date, old(state), size, big, little);
              state == reply.s && value == reply.value && error' == ShiftIn(error, reply.fail)
    {
      if big < SDB_END {
        value := Sdb.Read(DeviceNames(handlers), version, date, size, big);
        return value, ShiftIn(error, false);
      }
      var i := Locate(big);
      if i == |handlers| || handlers[i].read.None? {
        return 0, ShiftIn(error, true);
      }
      var reply := handlers[i].read.value(state, DeviceAddress(handlers[i].device, big, little), size);
      state := reply.s;
      return reply.value, ShiftIn(error, reply.fail);
    }
  }

  lemma AttachKeeps<S>(h: Handler<S>, hs: seq<Handler<S>>)
    requires Disjoint(hs) && WellNamed(hs) && |h.device.product.name| == 19 && h.device.first >= SDB_END
    requires forall j | 0 <= j < |hs| :: !Overlap(h.device, hs[j].device)
    ensures Disjoint([h] + hs) && WellNamed([h] + hs)
  {
    var names := DeviceNames([h] + hs);
    assert forall i | 0 < i < |names| :: names[i] == DeviceNames(hs)[i - 1];
  }

  lemma DetachKeeps<S>(hs: seq<Handler<S>>, k: nat)
    requires Disjoint(hs) && WellNamed(hs) && k < |hs|
    ensures Disjoint(hs[..k] + hs[k + 1..]) && WellNamed(hs[..k] + hs[k + 1..])
  {
    var left := hs[..k] + hs[k + 1..];
    var names := DeviceNames(left);
    assert forall i | 0 <= i < |left| :: left[i] == hs[if i < k then i else i + 1];
    forall i | 0 <= i < |names| ensures |names[i].product.name| == 19 {
      assert DeviceNames(hs)[if i < k then i else i + 1] == left[i].device;
    }
  }

  /** What a slave with these devices serves as its table is the table of its devices, in list order, and
      reading it disturbs nothing. */
  lemma TableServed<S>(hs: seq<Handler<S>>, version: nat, date: nat, config: (S, nat, nat, nat) -> S, s: S, stride: nat, address: nat, little: nat)
    requires WellNamed(hs) && address < SDB_END
    ensures var reply := SocketEnv(hs, version, date, config).read(s, stride, address, little);
            reply.s == s && Sdb.Local(DeviceNames(hs), version, date, stride)(address) == Outcome(reply.value, reply.fail)
  {
    hide TableWord;
  }

  /** Bit 7 of the bus-specific flags says that a device counts its bytes from the little end. */
  predicate CountsLittle(d: Device) {
    Bit(d.specific, 7)
  }

  lemma CountsLittleIff(d: Device)
    ensures CountsLittle(d) <==> d.specific / LITTLE_ENDIAN_BUS % 2 == 1
  {
    var v := d.specific;
    BitDown(v, 7);
    BitDown(v / 8, 4);
    hide Bit;
    assert v / 8 / 8 == v / 64 && v / 64 / 2 == v / 128;
    BitOne(v / 64);
  }

  /** The address of an operation, with its lanes counted from the other end of the bus word. */
  function OtherEnd(port: Port, op: Operation): (a: nat)
    requires port.Valid() && ValidOperation(port, op)
  {
    LowAddressFits(port, op);
    var low := op.address % port.data;
    op.address - low + (port.data - low - op.size)
  }

  /** A device that counts its bytes like the operation is asked for the operation's own address, and any other
      for the same lanes counted from the other end; an operation as wide as the bus is the same to both. */
  function Asked(d: Device, port: Port, op: Operation): nat
    requires port.Valid() && ValidOperation(port, op)
  {
    if op.endian == Auto || (op.endian == Little <==> CountsLittle(d)) then op.address else OtherEnd(port, op)
  }

  lemma AskedIs(d: Device, port: Port, op: Operation)
    requires port.Valid() && ValidOperation(port, op)
    ensures Asked(d, port, op) == DeviceAddress(d, BigAddress(port, op), LittleAddress(port, op))
  {
    CountsLittleIff(d);
    LowAddressFits(port, op);
    hide CountsLittle;
  }

  lemma BigIs(port: Port, op: Operation)
    requires port.Valid() && ValidOperation(port, op)
    ensures BigAddress(port, op) == if op.endian == Little then OtherEnd(port, op) else op.address
  {
    LowAddressFits(port, op);
  }

  /** What the local bus answers to an operation: the device whose range holds its big-endian address is asked. */
  ghost predicate Answers<S>(hs: seq<Handler<S>>, port: Port, m: Machine<S>, op: Operation, reply: BusReply<S>)
    requires port.Valid() && ValidOperation(port, op)
  {
    var big := if op.endian == Little then OtherEnd(port, op) else op.address;
    big >= 0x4000 ==>
      && (forall i | 0 <= i < |hs| && hs[i].device.first <= big <= hs[i].device.last ::
            reply == if op.write then
                       if hs[i].write.None? then BusReply(m.s, 0, true)
                       else hs[i].write.value(m.s, Asked(hs[i].device, port, op), op.size, op.value)
                     else
                       if hs[i].read.None? then BusReply(m.s, 0, true)
                       else hs[i].read.value(m.s, Asked(hs[i].device, port, op), op.size))
      && ((forall i | 0 <= i < |hs| :: big < hs[i].device.first || hs[i].device.last < big) ==> reply == BusReply(m.s, 0, true))
  }

  /** An operation on a socket's bus: the device that covers it gets the operation's own address or, if it counts
      its bytes from the other end, the mirrored one; its failure goes into the error register. Where no device
      answers there is a fault, and writes to the table are one too. */
  lemma DeviceServes<S>(hs: seq<Handler<S>>, version: nat, date: nat, config: (S, nat, nat, nat) -> S, port: Port, m: Machine<S>, op: Operation)
    returns (reply: BusReply<S>)
    requires WellNamed(hs) && Disjoint(hs) && port.Valid() && ValidOperation(port, op) && !op.config
    ensures Answers(hs, port, m, op, reply)
    ensures (if op.endian == Little then OtherEnd(port, op) else op.address) < 0x4000 ==> reply.s == m.s && (reply.fail <==> op.write)
    ensures Run(SocketEnv(hs, version, date, config), port, m, [op])
         == (Machine(reply.s, ShiftIn(m.err, reply.fail)), [Outcome(if op.write then 0 else reply.value % Pow256(op.size), reply.fail)])
  {
    var big, little := BigAddress(port, op), LittleAddress(port, op);
    reply := if op.write then BusWrite(hs, m.s, op.size, big, little, op.value) else BusRead(hs, version, date, m.s, op.size, big, little);
    Served(hs, version, date, port, m, op, reply);
    hide BusRead, BusWrite, Answers, ValidOperation, BigAddress, LittleAddress, OtherEnd, Pow256, ShiftIn, WellNamed, Disjoint;
    assert [op][1..] == [];
    var env := SocketEnv(hs, version, date, config);
    var out := Outcome(if op.write then 0 else reply.value % Pow256(op.size), reply.fail);
    assert ExecOperation(env, port, m, op) == (Machine(reply.s, ShiftIn(m.err, reply.fail)), out);
    assert [out] + [] == [out];
  }

  lemma Served<S>(hs: seq<Handler<S>>, version: nat, date: nat, port: Port, m: Machine<S>, op: Operation, reply: BusReply<S>)
    requires WellNamed(hs) && Disjoint(hs) && port.Valid() && ValidOperation(port, op)
    requires var big, little := BigAddress(port, op), LittleAddress(port, op);
             reply == if op.write then BusWrite(hs, m.s, op.size, big, little, op.value) else BusRead(hs, version, date, m.s, op.size, big, little)
    ensures Answers(hs, port, m, op, reply)
    ensures (if op.endian == Little then OtherEnd(port, op) else op.address) < 0x4000 ==> reply.s == m.s && (reply.fail <==> op.write)
  {
    var big := BigAddress(port, op);
    BigIs(port, op);
    forall i | 0 <= i < |hs| ensures Find(hs, big) == i <==> hs[i].device.first <= big <= hs[i].device.last {
      FindIff(hs, big, i);
    }
    forall i | 0 <= i < |hs| ensures Asked(hs[i].device, port, op) == DeviceAddress(hs[i].device, big, LittleAddress(port, op)) {
      AskedIs(hs[i].device, port, op);
    }
    hide Asked, DeviceAddress, ValidOperation, LittleAddress, OtherEnd, Disjoint, Find, TableWord;
  }
}
