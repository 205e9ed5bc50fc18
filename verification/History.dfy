/**
 What a cycle can see of the cycles before it: the error register keeps their faults until the bus operations
 of the cycle itself have pushed them out, and a configuration read shows some of its bits.
 */
module History {
  import opened Words
  import opened Lanes
  import opened Operations
  import opened Bus
  import opened Delivery

  lemma QuotientTwice(v: nat, a: nat, b: nat)
    requires a > 0 && b > 0
    ensures a * b > 0 && v / a / b == v / (a * b)
  {
    var q, r := v / a / b, v / a % b;
    assert v == a * (v / a) + v % a;
    assert v / a == b * q + r;
    assert a * (b * q + r) == (a * b) * q + a * r;
    assert a * r <= a * (b - 1) == a * b - a by { MulMonotone(a, r, b - 1); }
    DivModUnique(v, a * b, q, a * r + v % a);
  }

  /** `v >> k`, bit by bit. */
  function Shifted(v: nat, k: nat): (q: nat)
  {
    if k == 0 then v else Shifted(v / 2, k - 1)
  }

  lemma {:induction false} ShiftedIs(v: nat, k: nat)
    ensures Shifted(v, k) == v / Pow2(k)
  {
    if k > 0 {
      ShiftedIs(v / 2, k - 1);
      QuotientTwice(v, 2, Pow2(k - 1));
    }
  }

  lemma {:induction false} BitOfShifted(v: nat, k: nat, j: nat)
    ensures Bit(Shifted(v, k), j) == Bit(v, j + k)
  {
    if k > 0 {
      BitOfShifted(v / 2, k - 1, j);
    }
  }

  /** A word is its bits. */
  lemma {:induction false} SameBits(a: nat, b: nat, n: nat)
    requires a < Pow2(n) && b < Pow2(n) && forall j: nat | j < n :: Bit(a, j) == Bit(b, j)
    ensures a == b
  {
    if n > 0 {
      forall j: nat | j < n - 1 ensures Bit(a / 2, j) == Bit(b / 2, j) {
        assert Bit(a, j + 1) == Bit(b, j + 1);
      }
      SameBits(a / 2, b / 2, n - 1);
      assert Bit(a, 0) == Bit(b, 0);
    }
  }

  lemma {:induction false} SingleBit(k: nat)
    ensures Bit(Pow2(k), k) && !Bit(0, k)
  {
    if k > 0 {
      SingleBit(k - 1);
      assert Pow2(k) / 2 == Pow2(k - 1) && 0 / 2 == 0;
    }
  }

  /** Some bytes out of the middle of a word. */
  lemma {:induction false} MiddleBytes(v: nat, m: nat, i: nat, n: nat)
    requires i + n <= m
    ensures FromBytes(ToBytes(v, m)[i..i + n]) == v / Pow256(m - i - n) % Pow256(n)
    decreases m
  {
    hide FromBytes;
    if m == i + n {
      TailBytes(v, m, n);
      assert ToBytes(v, m)[i..i + n] == ToBytes(v, m)[m - n..];
      assert Pow256(m - i - n) == 1 && v / 1 == v;
    } else {
      MiddleBytes(v / 256, m - 1, i, n);
      assert ToBytes(v, m)[i..i + n] == ToBytes(v / 256, m - 1)[i..i + n];
      QuotientTwice(v, 256, Pow256(m - 1 - i - n));
    }
  }

  /** The newest of the register's bits that a read of `size` bytes at `address` shows. */
  function Lowest(size: nat, address: nat): (k: nat)
    requires address + size <= 8
  {
    8 * (8 - address - size)
  }

  lemma RegisterBit(size: nat, address: nat, err: nat, j: nat)
    requires address + size <= 8 && j < 8 * size
    ensures ReadConfig(size, address, err) < Pow2(8 * size)
    ensures Bit(ReadConfig(size, address, err), j) == Bit(err, j + Lowest(size, address))
  {
    hide FromBytes, ToBytes, Bit, Pow256, Pow2;
    var n := 8 - address - size;
    assert ErrorBytes(err)[address..address + size] == ToBytes(err, 8)[address..address + size];
    MiddleBytes(err, 8, address, size);
    Pow2IsPow256(size);
    Pow2IsPow256(n);
    ShiftedIs(err, 8 * n);
    BitOfMod(Shifted(err, 8 * n), 8 * size, j);
    BitOfShifted(err, 8 * n, j);
  }

  /** An operation that shows bits of the error register. */
  predicate ShowsRegister(port: Port, op: Operation)
    requires port.Valid() && ValidOperation(port, op)
  {
    op.config && !op.write && ConfigAddress(port, op) < 8
  }

  /** Reads of the register lie inside it. */
  lemma InsideRegister(port: Port, op: Operation)
    requires port.Valid() && ValidOperation(port, op) && ShowsRegister(port, op)
    ensures ConfigAddress(port, op) + op.size <= 8
  {
    hide Pow256, WordAddress;
    LowAddressFits(port, op);
    var low, word := LowAddress(port, op), WordAddress(port, op.address);
    WordAligned(port, op.address);
    Aligned(port.data, op.size, word, if op.endian == Little then port.data - (low + op.size) else low);
  }

  lemma WordAligned(port: Port, address: nat)
    requires port.Valid()
    ensures WordAddress(port, address) % port.data == 0
  {
    WordsAlign(address % Pow256(port.addr), port.data);
  }

  lemma WordsAlign(n: nat, d: nat)
    requires d > 0
    ensures (n - n % d) % d == 0
  {
    assert n == d * (n / d) + n % d;
    DivModUnique(n - n % d, d, n / d, 0);
  }

  lemma Aligned(data: nat, size: nat, word: nat, low: nat)
    requires IsWidth(data) && IsWidth(size) && size <= data && word % data == 0 && low % size == 0 && word + low < 8
    ensures word + low + size <= 8
  {}

  /** Bus operations before the i-th. */
  function BusBefore(ops: seq<Operation>, i: nat): (n: nat)
    requires i <= |ops|
  {
    if i == 0 then 0 else BusBefore(ops, i - 1) + if ops[i - 1].config then 0 else 1
  }

  lemma {:induction false} FaultsSnoc(ops: seq<Operation>, outs: seq<Outcome>, op: Operation, out: Outcome)
    requires |outs| == |ops|
    ensures Faults(ops + [op], outs + [out]) == Faults(ops, outs) + if op.config then [] else [out.fault]
    decreases |ops|
  {
    hide Faults;
    var own := if op.config then [] else [out.fault];
    FaultsHead(ops + [op], outs + [out]);
    if |ops| == 0 {
      assert (ops + [op])[1..] == [] && (outs + [out])[1..] == [];
      NoFaultsAtAll();
      assert ops == [] && outs == [] && own + [] == own && [] + own == own;
    } else {
      FaultsHead(ops, outs);
      FaultsSnoc(ops[1..], outs[1..], op, out);
      assert (ops + [op])[1..] == ops[1..] + [op] && (outs + [out])[1..] == outs[1..] + [out];
      Regroup(if ops[0].config then [] else [outs[0].fault], Faults(ops[1..], outs[1..]), own);
    }
  }

  lemma FaultsHead(ops: seq<Operation>, outs: seq<Outcome>)
    requires |outs| == |ops| > 0
    ensures Faults(ops, outs) == (if ops[0].config then [] else [outs[0].fault]) + Faults(ops[1..], outs[1..])
  {
  }

  lemma NoFaultsAtAll()
    ensures Faults([], []) == []
  {
  }

  lemma {:induction false} FaultsBefore(ops: seq<Operation>, outs: seq<Outcome>, i: nat)
    requires |outs| == |ops| && i <= |ops|
    ensures |Faults(ops[..i], outs[..i])| == BusBefore(ops, i)
    decreases i
  {
    if i > 0 {
      FaultsBefore(ops, outs, i - 1);
      FaultsSnoc(ops[..i - 1], outs[..i - 1], ops[i - 1], outs[i - 1]);
      assert ops[..i] == ops[..i - 1] + [ops[i - 1]] && outs[..i] == outs[..i - 1] + [outs[i - 1]];
    }
  }

  /** The i-th outcome is that of the i-th operation, executed after the ones before it. */
  lemma OutcomeAt<S>(env: Env<S>, port: Port, m: Machine<S>, ops: seq<Operation>, i: nat)
    requires port.Valid() && ValidOperations(port, ops) && i < |ops|
    ensures var front := Run(env, port, m, ops[..i]);
            && Run(env, port, m, ops).1[..i] == front.1
            && Run(env, port, m, ops).1[i] == ExecOperation(env, port, front.0, ops[i]).1
  {
    hide ValidOperation, ExecOperation;
    RunConcat(env, port, m, ops[..i], ops[i..]);
    assert ops[..i] + ops[i..] == ops;
  }

  /** Each bit of a read of the register: the newest are the faults of the cycle's own earlier bus
      operations, the others are what the register held before the cycle. */
  lemma HistoryBit<S>(env: Env<S>, port: Port, m: Machine<S>, ops: seq<Operation>, i: nat, j: nat)
    requires port.Valid() && ValidOperations(port, ops) && i < |ops| && ShowsRegister(port, ops[i]) && j < 8 * ops[i].size
    ensures ConfigAddress(port, ops[i]) + ops[i].size <= 8
    ensures var run, k := Run(env, port, m, ops), j + Lowest(ops[i].size, ConfigAddress(port, ops[i]));
            var fs := Faults(ops[..i], run.1[..i]);
            && |fs| == BusBefore(ops, i) && run.1[i].value < Pow2(8 * ops[i].size)
            && Bit(run.1[i].value, j) == if k < |fs| then fs[|fs| - 1 - k] else Bit(m.err, k - |fs|)
  {
    hide Run, Bit, Faults, BusBefore, ReadConfig, ConfigAddress, ValidOperation;
    InsideRegister(port, ops[i]);
    var run, front := Run(env, port, m, ops), Run(env, port, m, ops[..i]);
    OutcomeAt(env, port, m, ops, i);
    RegisterBit(ops[i].size, ConfigAddress(port, ops[i]), front.0.err, j);
    ErrorHistory(env, port, m, ops[..i], j + Lowest(ops[i].size, ConfigAddress(port, ops[i])));
    FaultsBefore(ops, run.1, i);
  }

  /** Every read of the register comes after enough bus operations of its own cycle. */
  predicate Steady(port: Port, ops: seq<Operation>)
    requires port.Valid() && ValidOperations(port, ops)
  {
    forall i | 0 <= i < |ops| :: Settled(port, ops, i)
  }

  predicate Settled(port: Port, ops: seq<Operation>, i: nat)
    requires port.Valid() && ValidOperations(port, ops) && i < |ops|
  {
    ShowsRegister(port, ops[i]) ==> BusBefore(ops, i) >= 8 * (8 - ConfigAddress(port, ops[i]))
  }

  /** Whatever the register held, the device ends in the same state, the faults are the same, and so is
      everything that was read from elsewhere. */
  lemma {:induction false} RunAlike<S>(env: Env<S>, port: Port, a: Machine<S>, b: Machine<S>, ops: seq<Operation>)
    requires port.Valid() && ValidOperations(port, ops) && a.s == b.s
    ensures Run(env, port, a, ops).0.s == Run(env, port, b, ops).0.s
    ensures forall i | 0 <= i < |ops| :: Run(env, port, a, ops).1[i].fault == Run(env, port, b, ops).1[i].fault
    ensures forall i | 0 <= i < |ops| && !ShowsRegister(port, ops[i]) :: Run(env, port, a, ops).1[i] == Run(env, port, b, ops).1[i]
    decreases |ops|
  {
    hide ValidOperation, ConfigAddress, BigAddress, LittleAddress, ErrorBytes;
    if |ops| > 0 {
      assert forall i | 0 <= i < |ops[1..]| :: ops[1..][i] == ops[i + 1];
      var a', b' := ExecOperation(env, port, a, ops[0]), ExecOperation(env, port, b, ops[0]);
      assert a'.1.fault == b'.1.fault && (!ShowsRegister(port, ops[0]) ==> a'.1 == b'.1);
      RunAlike(env, port, a'.0, b'.0, ops[1..]);
      hide ExecOperation;
      RunHead(env, port, a, ops);
      RunHead(env, port, b, ops);
    }
  }

  lemma RunHead<S>(env: Env<S>, port: Port, m: Machine<S>, ops: seq<Operation>)
    requires port.Valid() && ValidOperations(port, ops) && |ops| > 0
    ensures var first := ExecOperation(env, port, m, ops[0]);
            Run(env, port, m, ops) == (Run(env, port, first.0, ops[1..]).0, [first.1] + Run(env, port, first.0, ops[1..]).1)
  {
    hide ExecOperation;
  }

  lemma {:induction false} FaultsAlike(ops: seq<Operation>, a: seq<Outcome>, b: seq<Outcome>)
    requires |a| == |ops| == |b| && forall i | 0 <= i < |ops| :: a[i].fault == b[i].fault
    ensures Faults(ops, a) == Faults(ops, b)
    decreases |ops|
  {
    if |ops| > 0 {
      FaultsAlike(ops[1..], a[1..], b[1..]);
    }
  }

  /** A settled read shows nothing of what the register held before. */
  lemma SettledSame<S>(env: Env<S>, port: Port, a: Machine<S>, b: Machine<S>, ops: seq<Operation>, i: nat)
    requires port.Valid() && ValidOperations(port, ops) && a.s == b.s && i < |ops| && ShowsRegister(port, ops[i]) && Settled(port, ops, i)
    ensures Run(env, port, a, ops).1[i].value == Run(env, port, b, ops).1[i].value
  {
    hide Run, Bit, Faults, BusBefore, ConfigAddress, ValidOperation, Pow2;
    RunAlike(env, port, a, b, ops);
    var outs, outs' := Run(env, port, a, ops).1, Run(env, port, b, ops).1;
    FaultsAlike(ops[..i], outs[..i], outs'[..i]);
    assert IsWidth(ops[i].size) by { SizeIsWidth(port, ops[i]); }
    HistoryBit(env, port, a, ops, i, 0);
    HistoryBit(env, port, b, ops, i, 0);
    forall j: nat | j < 8 * ops[i].size ensures Bit(outs[i].value, j) == Bit(outs'[i].value, j) {
      HistoryBit(env, port, a, ops, i, j);
      HistoryBit(env, port, b, ops, i, j);
    }
    SameBits(outs[i].value, outs'[i].value, 8 * ops[i].size);
  }

  lemma SizeIsWidth(port: Port, op: Operation)
    requires port.Valid() && ValidOperation(port, op)
    ensures IsWidth(op.size)
  {}

  lemma RunSteady<S>(env: Env<S>, port: Port, a: Machine<S>, b: Machine<S>, ops: seq<Operation>)
    requires port.Valid() && ValidOperations(port, ops) && Steady(port, ops) && a.s == b.s
    ensures Run(env, port, a, ops).1 == Run(env, port, b, ops).1
    ensures Run(env, port, a, ops).0.s == Run(env, port, b, ops).0.s
  {
    hide Run, Settled, ShowsRegister, ValidOperation;
    RunAlike(env, port, a, b, ops);
    var outs, outs' := Run(env, port, a, ops).1, Run(env, port, b, ops).1;
    forall i | 0 <= i < |ops| ensures outs[i] == outs'[i] {
      if ShowsRegister(port, ops[i]) {
        SettledSame(env, port, a, b, ops, i);
      }
    }
  }

  /** An unsettled read shows a bit that the register held before. */
  lemma UnsettledDiffers<S>(env: Env<S>, port: Port, s: S, ops: seq<Operation>, i: nat)
    requires port.Valid() && ValidOperations(port, ops) && i < |ops| && !Settled(port, ops, i)
    ensures var k := 8 * (8 - ConfigAddress(port, ops[i])) - 1 - BusBefore(ops, i);
            0 <= k < 64 && Run(env, port, Machine(s, 0), ops).1[i].value != Run(env, port, Machine(s, Pow2(k)), ops).1[i].value
  {
    hide Run, Bit, Faults, BusBefore, ConfigAddress, ValidOperation, Pow2;
    SizeIsWidth(port, ops[i]);
    var n := BusBefore(ops, i);
    var k := 8 * (8 - ConfigAddress(port, ops[i])) - 1 - n;
    var j := 8 * ops[i].size - 1;
    HistoryBit(env, port, Machine(s, 0), ops, i, j);
    HistoryBit(env, port, Machine(s, Pow2(k)), ops, i, j);
    SingleBit(k);
  }

  lemma {:induction false} Pow2Monotone(m: nat, n: nat)
    requires m <= n
    ensures Pow2(m) <= Pow2(n)
  {
    if m < n {
      Pow2Monotone(m, n - 1);
    }
  }

  lemma Pow2Grows(n: nat)
    ensures Pow2(n) < Pow2(n + 1)
  {}

  /** A cycle gives the same outcomes whatever the register held before exactly if all its reads of the
      register are settled. */
  lemma SteadyIff<S>(env: Env<S>, port: Port, s: S, ops: seq<Operation>)
    requires port.Valid() && ValidOperations(port, ops)
    ensures Steady(port, ops) <==>
      forall e: nat, e': nat | e < WORD64 && e' < WORD64 :: Run(env, port, Machine(s, e), ops).1 == Run(env, port, Machine(s, e'), ops).1
  {
    hide Run, Settled, ValidOperation, Pow2;
    if Steady(port, ops) {
      forall e: nat, e': nat | e < WORD64 && e' < WORD64
        ensures Run(env, port, Machine(s, e), ops).1 == Run(env, port, Machine(s, e'), ops).1
      {
        RunSteady(env, port, Machine(s, e), Machine(s, e'), ops);
      }
    } else {
      var i :| 0 <= i < |ops| && !Settled(port, ops, i);
      UnsettledDiffers(env, port, s, ops, i);
      var k := 8 * (8 - ConfigAddress(port, ops[i])) - 1 - BusBefore(ops, i);
      Pow2Monotone(k + 1, 64);
      Pow2Grows(k);
      Pow2IsPow256(8);
      Pow256Values();
      assert Run(env, port, Machine(s, 0), ops).1 != Run(env, port, Machine(s, Pow2(k)), ops).1;
    }
  }
}
