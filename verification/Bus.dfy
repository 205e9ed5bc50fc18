/**
 The slave's side of a bus operation: the attached devices, the error shift register, and the
 reference semantics of a cycle, one operation after the other in queue order.
 */
module Bus {
  import opened Words
  import opened Lanes
  import opened Operations

  datatype BusReply<S> = BusReply(s: S, value: nat, fail: bool)

  /** A device behind the slave, as its handlers see it: state, size, big- and little-endian byte
      address, and for a write the value. `config` receives writes to configuration space. */
  datatype Env<!S> = Env(
    read: (S, nat, nat, nat) -> BusReply<S>,
    write: (S, nat, nat, nat, nat) -> BusReply<S>,
    config: (S, nat, nat, nat) -> S)

  /** Device state and the 64-bit error shift register of the session. */
  datatype Machine<S> = Machine(s: S, err: nat)

  /** What one operation gave back. */
  datatype Outcome = Outcome(value: nat, fault: bool)

  const WORD64 := 0x1_0000_0000_0000_0000

  function ShiftIn(err: nat, fail: bool): nat {
    (2 * err + (if fail then 1 else 0)) % WORD64
  }

  /** The error register as eight bytes, followed by eight zero bytes. */
  function ErrorBytes(err: nat): (s: seq<byte>)
    ensures |s| == 16
  {
    ToBytes(err, 8) + ToBytes(0, 8)
  }

  /** Configuration space holds only the error register; the rest reads as zero. */
  function ReadConfig(size: nat, address: nat, err: nat): nat
    requires size <= 8
  {
    if address >= 8 then 0 else FromBytes(ErrorBytes(err)[address..address + size])
  }

  lemma {:induction false} ZeroBytes(n: nat)
    ensures forall i | 0 <= i < n :: ToBytes(0, n)[i] == 0
  {
    if n > 0 {
      ZeroBytes(n - 1);
      assert ToBytes(0, n) == ToBytes(0, n - 1) + [0];
    }
  }

  /** The error register, and zeros behind it. */
  lemma RegisterBytes(err: nat, k: nat)
    requires k < 16
    ensures ErrorBytes(err)[k] == if k < 8 then ToBytes(err, 8)[k] else 0
  {
    ZeroBytes(8);
    hide ToBytes;
  }

  /** Byte by byte: the error register, most significant byte first, and zeros behind it. */
  lemma ConfigBytes(size: nat, address: nat, err: nat, i: nat)
    requires i < size <= 8
    ensures ToBytes(ReadConfig(size, address, err), size)[i] == if address + i < 8 then ToBytes(err, 8)[address + i] else 0
  {
    if address >= 8 {
      ZeroBytes(size);
      assert ReadConfig(size, address, err) == 0;
    } else {
      hide ToBytes, FromBytes, ErrorBytes;
      var shown := ErrorBytes(err)[address..address + size];
      BytesRoundTrip(shown);
      RegisterBytes(err, address + i);
      assert shown[i] == ErrorBytes(err)[address + i];
    }
  }

  /** The bus word an address falls into; the slave ignores address bits beyond the port. */
  function WordAddress(port: Port, address: nat): (w: nat)
    requires port.Valid()
    ensures w <= address
  {
    address % Pow256(port.addr) - address % Pow256(port.addr) % port.data
  }

  /** The byte address a big-endian device sees for an operation. */
  function BigAddress(port: Port, op: Operation): (a: nat)
    requires port.Valid() && ValidOperation(port, op)
  {
    LowAddressFits(port, op);
    var low := LowAddress(port, op);
    if op.endian == Little then op.address - low + (port.data - (low + op.size)) else op.address
  }

  /** The byte address a little-endian device sees for an operation. */
  function LittleAddress(port: Port, op: Operation): (a: nat)
    requires port.Valid() && ValidOperation(port, op)
  {
    LowAddressFits(port, op);
    var low := LowAddress(port, op);
    if op.endian == Big then op.address - low + (port.data - (low + op.size)) else op.address
  }

  /** Where a configuration read really looks: big-endian lanes inside the port's address bits. */
  function ConfigAddress(port: Port, op: Operation): nat
    requires port.Valid() && ValidOperation(port, op)
  {
    LowAddressFits(port, op);
    var low := LowAddress(port, op);
    WordAddress(port, op.address) + (if op.endian == Little then port.data - (low + op.size) else low)
  }

  /** Executing one operation directly. */
  function ExecOperation<S>(env: Env<S>, port: Port, m: Machine<S>, op: Operation): (r: (Machine<S>, Outcome))
    requires port.Valid() && ValidOperation(port, op)
  {
    if op.config then
      if op.write then
        (Machine(env.config(m.s, op.size, op.address, op.value), m.err), Outcome(0, false))
      else
        (m, Outcome(ReadConfig(op.size, ConfigAddress(port, op), m.err), false))
    else if op.write then
      var b := env.write(m.s, op.size, BigAddress(port, op), LittleAddress(port, op), op.value);
      (Machine(b.s, ShiftIn(m.err, b.fail)), Outcome(0, b.fail))
    else
      var b := env.read(m.s, op.size, BigAddress(port, op), LittleAddress(port, op));
      (Machine(b.s, ShiftIn(m.err, b.fail)), Outcome(b.value % Pow256(op.size), b.fail))
  }

  /** Executing a whole cycle directly: the final machine, and one outcome per operation. */
  function Run<S>(env: Env<S>, port: Port, m: Machine<S>, ops: seq<Operation>): (r: (Machine<S>, seq<Outcome>))
    requires port.Valid() && ValidOperations(port, ops)
    ensures |r.1| == |ops|
    decreases |ops|
  {
    if |ops| == 0 then (m, []) else
      var first := ExecOperation(env, port, m, ops[0]);
      var rest := Run(env, port, first.0, ops[1..]);
      (rest.0, [first.1] + rest.1)
  }

  lemma {:induction false} RunConcat<S>(env: Env<S>, port: Port, m: Machine<S>, a: seq<Operation>, b: seq<Operation>)
    requires port.Valid() && ValidOperations(port, a) && ValidOperations(port, b)
    ensures var ra := Run(env, port, m, a);
            var rb := Run(env, port, ra.0, b);
            ValidOperations(port, a + b) && Run(env, port, m, a + b) == (rb.0, ra.1 + rb.1)
    decreases |a|
  {
    hide ExecOperation;
    if |a| == 0 {
      assert a + b == b;
      assert [] + Run(env, port, m, b).1 == Run(env, port, m, b).1;
    } else {
      var first := ExecOperation(env, port, m, a[0]);
      RunConcat(env, port, first.0, a[1..], b);
      assert (a + b)[1..] == a[1..] + b;
      var ra, rb := Run(env, port, m, a), Run(env, port, Run(env, port, m, a).0, b);
      assert ra.1 + rb.1 == [first.1] + (ra.1[1..] + rb.1);
    }
  }

  /** A configuration read looks at the address the user named exactly when the port carries that
      address and the operation is not a sub-word little-endian one. */
  lemma ConfigReadFaithfulIff(port: Port, op: Operation)
    requires port.Valid() && ValidOperation(port, op) && op.config && !op.write
    ensures ConfigAddress(port, op) == op.address
       <==> op.address < Pow256(port.addr) && op.endian != Little
  {
    var low := LowAddress(port, op);
    LowAddressFits(port, op);
    WordOfAddress(port, op.address);
    if op.endian == Little {
      HalfWord(port.data, op.size, low);
    }
  }

  /** Two reads that look elsewhere: one behind the address width, and one that is little-endian. */
  lemma ConfigReadElsewhere()
    ensures var port, op := Port(4, 1), Operation(false, true, 0x100, 0, 4, Auto, false);
            port.Valid() && ValidOperation(port, op) && ConfigAddress(port, op) == 0
    ensures var port, op := Port(4, 4), Operation(false, true, 0, 0, 1, Little, false);
            port.Valid() && ValidOperation(port, op) && ConfigAddress(port, op) == 3
  {
    Pow256Values();
  }

  lemma HalfWord(data: nat, size: nat, low: nat)
    requires IsWidth(data) && IsWidth(size) && size < data && low % size == 0 && low + size <= data
    ensures data - (low + size) != low
  {}

  lemma PortModulus(port: Port)
    requires port.Valid()
    ensures Pow256(port.addr) % port.data == 0 && Pow256(port.addr) > 0
  {
    Pow256Values();
  }

  /** The bus word of an address is its low port bits rounded down to the data width. */
  lemma WordOfAddress(port: Port, address: nat)
    requires port.Valid()
    ensures address % Pow256(port.addr) % port.data == address % port.data
    ensures WordAddress(port, address) + address % port.data == address % Pow256(port.addr)
    ensures address < Pow256(port.addr) ==> address % Pow256(port.addr) == address
    ensures address >= Pow256(port.addr) ==> address % Pow256(port.addr) < Pow256(port.addr)
  {
    PortModulus(port);
    ModOfMultiple(address, Pow256(port.addr), port.data);
    if address < Pow256(port.addr) {
      DivModUnique(address, Pow256(port.addr), 0, address);
    }
  }

  lemma ModOfMultiple(a: nat, big: nat, small: nat)
    requires small > 0 && big > 0 && big % small == 0
    ensures a % big % small == a % small
  {
    var k, q, r := big / small, a / big, a % big;
    assert big == small * k && a == big * q + r;
    assert big * q == small * (k * q);
    assert a == small * (k * q + r / small) + r % small;
    DivModUnique(a, small, k * q + r / small, r % small);
  }
}
