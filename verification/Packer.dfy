/**
 The master's record compiler: how the operations of one cycle are packed into records. A record
 carries a run of chained writes, then a run of reads, or a read of the error status register.
 */
module Packer {
  import opened Words
  import opened Lanes
  import opened Records
  import opened Operations
  import opened Bus

  /** The unsigned value of -1: no limit on operations between two status reads. */
  const NO_LIMIT := 0xFFFF_FFFF

  /** A record counts writes and reads in one byte each. */
  const MAX_COUNT := 255

  /** Bus operations whose error flags one status read can report. */
  function MaxOps(port: Port, checked: bool): (n: nat)
    requires port.Valid()
    ensures n > 0
  {
    if checked then 8 * port.data else NO_LIMIT
  }

  /** Only bus operations shift the error register. */
  function Charge(count: nat, op: Operation): nat {
    if op.config then count else count + 1
  }

  function ChargeAll(count: nat, ops: seq<Operation>): nat
    decreases |ops|
  {
    if |ops| == 0 then count else ChargeAll(Charge(count, ops[0]), ops[1..])
  }

  predicate SameKind(a: Operation, b: Operation) {
    a.config == b.config && a.size == b.size && a.endian == b.endian
  }

  function NextAddress(port: Port, fifo: bool, address: nat): nat {
    if fifo then address else (address + port.data) % WORD64
  }

  /** Write number n continues the chain of writes before it. */
  predicate Chains(port: Port, ops: seq<Operation>, n: nat, fifo: bool)
    requires 0 < n < |ops|
  {
    && ops[n].address == NextAddress(port, fifo, ops[n - 1].address)
    && ops[n].write && SameKind(ops[0], ops[n])
  }

  /** Extend a chain of n writes as far as addresses, kind, the count byte and the limit allow. */
  function ExtendWrites(port: Port, ops: seq<Operation>, n: nat, fifo: bool, count: nat, maxops: nat): (m: nat)
    requires 0 < n <= |ops| && n <= MAX_COUNT
    ensures n <= m <= |ops| && m <= MAX_COUNT
    decreases |ops| - n
  {
    if n < |ops| && Chains(port, ops, n, fifo) && n < MAX_COUNT && count < maxops
    then ExtendWrites(port, ops, n + 1, fifo, Charge(count, ops[n]), maxops)
    else n
  }

  predicate IsFifo(ops: seq<Operation>) {
    |ops| > 1 && ops[1].address == ops[0].address
  }

  /** How many of the next operations go into a record as writes. */
  function WriteCount(port: Port, ops: seq<Operation>, count: nat, maxops: nat): (n: nat)
    ensures n <= |ops| && n <= MAX_COUNT
  {
    if count >= maxops || |ops| == 0 || !ops[0].write then 0
    else ExtendWrites(port, ops, 1, IsFifo(ops), Charge(count, ops[0]), maxops)
  }

  /** Read number n can share the select byte of the read in front. */
  predicate Joins(port: Port, ops: seq<Operation>, n: nat)
    requires port.Valid() && n < |ops|
  {
    !ops[n].write && SameKind(ops[0], ops[n]) && LowAddress(port, ops[n]) == LowAddress(port, ops[0])
  }

  function ExtendReads(port: Port, ops: seq<Operation>, n: nat, count: nat, maxops: nat): (m: nat)
    requires port.Valid() && 0 < n <= |ops| && n <= MAX_COUNT
    ensures n <= m <= |ops| && m <= MAX_COUNT
    decreases |ops| - n
  {
    if n < |ops| && Joins(port, ops, n) && n < MAX_COUNT && count < maxops
    then ExtendReads(port, ops, n + 1, Charge(count, ops[n]), maxops)
    else n
  }

  /** The byte lanes an operation uses. */
  datatype Shape = Shape(size: nat, endian: Endian, low: nat)

  function ShapeOf(port: Port, op: Operation): Shape
    requires port.Valid()
  {
    Shape(op.size, op.endian, LowAddress(port, op))
  }

  /** How many operations after the first w go into the same record as reads. */
  function ReadCount(port: Port, ops: seq<Operation>, w: nat, count: nat, maxops: nat): (n: nat)
    requires port.Valid() && w <= |ops|
    ensures n <= |ops| - w && n <= MAX_COUNT
  {
    if count >= maxops || |ops| == w || ops[w].write
      || (w > 0 && ShapeOf(port, ops[w]) != ShapeOf(port, ops[0])) then 0
    else ExtendReads(port, ops[w..], 1, Charge(count, ops[w]), maxops)
  }

  /** One record: w writes, r reads, whether it reads the status instead, the bus operations not yet
      covered by a status read, and whether it ends the cycle. */
  datatype Plan = Plan(w: nat, r: nat, status: bool, count: nat, last: bool)

  function PlanRecord(port: Port, ops: seq<Operation>, count: nat, checked: bool): (p: Plan)
    requires port.Valid()
    ensures p.w + p.r <= |ops| && p.w <= MAX_COUNT && p.r <= MAX_COUNT
    ensures p.status ==> p.r == 0
  {
    var maxops := MaxOps(port, checked);
    var w := WriteCount(port, ops, count, maxops);
    var written := ChargeAll(count, ops[..w]);
    var r := ReadCount(port, ops, w, written, maxops);
    var total := ChargeAll(written, ops[w..w + r]);
    var status := r == 0 && (w == 0 || (ops[0].size == port.data && ops[0].endian == Auto))
      && (total >= maxops || (|ops| == w + r && checked && total > 0));
    Plan(w, r, status, if status then 0 else total, |ops| == w + r && (!checked || total == 0 || status))
  }

  /** The lanes a planned record uses; a status read uses the whole port. */
  function PlanShape(port: Port, ops: seq<Operation>, p: Plan): Shape
    requires port.Valid() && p.w + p.r <= |ops|
  {
    if p.status then Shape(port.data, Auto, if p.w > 0 then LowAddress(port, ops[0]) else 0)
    else if p.w + p.r > 0 then ShapeOf(port, ops[0])
    else Shape(port.data, Auto, 0)
  }

  function LaneOf(port: Port, shape: Shape): (lane: Lane)
    requires port.Valid()
  {
    var shift := LaneShiftOf(shape.size, shape.endian, shape.low, port.data);
    Lane(true, shape.size, if shift < 0 then 0 else shift)
  }

  /** Operation values on their lanes. */
  function LaneValues(ops: seq<Operation>, shift: nat): (vs: seq<nat>)
    ensures |vs| == |ops|
  {
    if |ops| == 0 then [] else [ShiftUp(ops[0].value, shift)] + LaneValues(ops[1..], shift)
  }

  function Addresses(ops: seq<Operation>): (vs: seq<nat>)
    ensures |vs| == |ops|
  {
    if |ops| == 0 then [] else [ops[0].address] + Addresses(ops[1..])
  }

  /** Where the status register holds the newest bits of the error shift register. */
  function StatusAddress(port: Port): nat
    requires port.Valid()
  {
    8 - port.data
  }

  /** The record a plan stands for. `rba` is the return address; its low bit marks a status answer. */
  function MakeRecord(port: Port, ops: seq<Operation>, p: Plan, rba: nat): Record
    requires port.Valid() && p.w + p.r <= |ops|
  {
    var shape := PlanShape(port, ops, p);
    var lane := LaneOf(port, shape);
    Record(
      p.last,
      p.w > 0 && ops[0].config,
      p.w > 1 && IsFifo(ops),
      true,
      p.status || (p.r > 0 && ops[p.w].config),
      true,
      if 1 <= lane.size <= 8 && lane.shift <= 8 then SelectByte(lane.size, lane.shift) else 0,
      if p.w > 0 then ops[0].address else 0,
      LaneValues(ops[..p.w], lane.shift),
      if p.status then rba + 1 else if p.r > 0 then rba else 0,
      if p.status then [StatusAddress(port)] else Addresses(ops[p.w..p.w + p.r]))
  }

  /** The packing loop goes on while operations are left or a status read is pending. */
  predicate Pending(port: Port, ops: seq<Operation>, count: nat, checked: bool)
    requires port.Valid()
  {
    && (|ops| > 0 || (checked && count > 0))
    && count <= MaxOps(port, checked) && |ops| + count < NO_LIMIT
  }

  lemma {:induction false} ChargeBounds(count: nat, ops: seq<Operation>)
    ensures count <= ChargeAll(count, ops) <= count + |ops|
    decreases |ops|
  {
    if |ops| != 0 {
      ChargeBounds(Charge(count, ops[0]), ops[1..]);
    }
  }

  lemma {:induction false} ChargeSplit(count: nat, a: seq<Operation>, b: seq<Operation>)
    ensures ChargeAll(count, a + b) == ChargeAll(ChargeAll(count, a), b)
    decreases |a|
  {
    if |a| == 0 {
      assert a + b == b;
    } else {
      ChargeSplit(Charge(count, a[0]), a[1..], b);
      assert (a + b)[1..] == a[1..] + b;
    }
  }

  /** The chain that ExtendWrites returns: every write in it chains, and it never passes the limit. */
  lemma {:induction false} ExtendWritesChain(port: Port, ops: seq<Operation>, n: nat, fifo: bool, count: nat, maxops: nat)
    requires 0 < n <= |ops| && n <= MAX_COUNT && count <= maxops
    ensures var m := ExtendWrites(port, ops, n, fifo, count, maxops);
            && (forall i | n <= i < m :: Chains(port, ops, i, fifo))
            && ChargeAll(count, ops[n..m]) <= maxops
            && (m == |ops| || !Chains(port, ops, m, fifo) || m == 255 || ChargeAll(count, ops[n..m]) == maxops)
    decreases |ops| - n
  {
    if n < |ops| && Chains(port, ops, n, fifo) && n < MAX_COUNT && count < maxops {
      var m := ExtendWrites(port, ops, n, fifo, count, maxops);
      ExtendWritesChain(port, ops, n + 1, fifo, Charge(count, ops[n]), maxops);
      assert ops[n..m][1..] == ops[n + 1..m];
    }
  }

  lemma {:induction false} ExtendReadsJoin(port: Port, ops: seq<Operation>, n: nat, count: nat, maxops: nat)
    requires port.Valid() && 0 < n <= |ops| && n <= MAX_COUNT && count <= maxops
    ensures var m := ExtendReads(port, ops, n, count, maxops);
            && (forall i | n <= i < m :: Joins(port, ops, i))
            && ChargeAll(count, ops[n..m]) <= maxops
            && (m == |ops| || !Joins(port, ops, m) || m == 255 || ChargeAll(count, ops[n..m]) == maxops)
    decreases |ops| - n
  {
    if n < |ops| && Joins(port, ops, n) && n < MAX_COUNT && count < maxops {
      var m := ExtendReads(port, ops, n, count, maxops);
      ExtendReadsJoin(port, ops, n + 1, Charge(count, ops[n]), maxops);
      assert ops[n..m][1..] == ops[n + 1..m];
    }
  }

  /** A run of writes that one record can carry: same kind, and each address follows the one before. */
  predicate WriteRun(port: Port, ops: seq<Operation>, fifo: bool) {
    && (forall i | 0 <= i < |ops| :: ops[i].write && SameKind(ops[0], ops[i]))
    && (forall i | 0 < i < |ops| :: ops[i].address == NextAddress(port, fifo, ops[i - 1].address))
  }

  /** A run of reads that one record can carry: same kind, same lanes. */
  predicate ReadRun(port: Port, ops: seq<Operation>, shape: Shape, config: bool)
    requires port.Valid()
  {
    forall i | 0 <= i < |ops| :: !ops[i].write && ops[i].config == config && ShapeOf(port, ops[i]) == shape
  }

  /** The operations a plan takes can share the record. */
  predicate PlanRuns(port: Port, ops: seq<Operation>, p: Plan)
    requires port.Valid() && p.w + p.r <= |ops|
  {
    && WriteRun(port, ops[..p.w], p.w > 1 && IsFifo(ops))
    && ReadRun(port, ops[p.w..p.w + p.r], PlanShape(port, ops, p), p.r > 0 && ops[p.w].config)
    && (p.status && p.w > 0 ==> ShapeOf(port, ops[0]) == Shape(port.data, Auto, 0))
  }

  /** The limit is reached or the cycle ends with operations uncovered, and the record has room for a status read:
      no other reads, and no writes on other lanes. */
  predicate StatusDue(port: Port, ops: seq<Operation>, checked: bool, p: Plan, total: nat)
    requires port.Valid()
  {
    && p.r == 0 && p.w <= |ops| && (p.w == 0 || (|ops| > 0 && ops[0].size == port.data && ops[0].endian == Auto))
    && (total == MaxOps(port, checked) || (|ops| == p.w && checked && total > 0))
  }

  /** The bookkeeping of uncovered bus operations. */
  predicate PlanCounts(port: Port, ops: seq<Operation>, count: nat, checked: bool, p: Plan)
    requires port.Valid() && p.w + p.r <= |ops|
  {
    var total := ChargeAll(count, ops[..p.w + p.r]);
    && total <= MaxOps(port, checked)
    && p.count == (if p.status then 0 else total)
    && (p.status ==> p.r == 0 && checked && total > 0)
    && (p.status ==> total == MaxOps(port, checked) || |ops| == p.w + p.r)
    && (StatusDue(port, ops, checked, p, total) ==> p.status)
    && (p.w + p.r > 0 || p.status)
    && (p.last <==> |ops| == p.w + p.r && !(checked && p.count > 0))
  }

  lemma WritesFit(port: Port, ops: seq<Operation>, count: nat, maxops: nat)
    requires count <= maxops
    ensures var w := WriteCount(port, ops, count, maxops);
            && WriteRun(port, ops[..w], w > 1 && IsFifo(ops))
            && ChargeAll(count, ops[..w]) <= maxops
            && (w == 0 ==> count == maxops || |ops| == 0 || !ops[0].write)
  {
    var w := WriteCount(port, ops, count, maxops);
    if w > 0 {
      ExtendWritesChain(port, ops, 1, IsFifo(ops), Charge(count, ops[0]), maxops);
      assert ops[..w][1..] == ops[1..w];
      forall i | 0 < i < w ensures ops[i].write && SameKind(ops[0], ops[i])
        && ops[i].address == NextAddress(port, IsFifo(ops), ops[i - 1].address)
      {
        assert Chains(port, ops, i, IsFifo(ops));
      }
    }
  }

  /** No longer run of writes would fit a record, whichever way its addresses go on, unless the limit of
      uncovered operations is reached. */
  lemma WritesLongest(port: Port, ops: seq<Operation>, count: nat, maxops: nat, m: nat, fifo: bool)
    requires port.Valid() && ValidOperations(port, ops) && count <= maxops
    requires WriteCount(port, ops, count, maxops) < m <= |ops| && m <= 255 && WriteRun(port, ops[..m], fifo)
    ensures ChargeAll(count, ops[..m - 1]) >= maxops
  {
    var n := WriteCount(port, ops, count, maxops);
    assert ops[..m][0] == ops[0];
    if n == 0 {
      ChargeBounds(count, ops[..m - 1]);
    } else {
      SameWay(port, ops, m, fifo);
      ExtendWritesChain(port, ops, 1, IsFifo(ops), Charge(count, ops[0]), maxops);
      assert ops[..m][n] == ops[n] && ops[..m][n - 1] == ops[n - 1];
      assert Chains(port, ops, n, IsFifo(ops));
      assert ops[..n] == [ops[0]] + ops[1..n] && ops[..m - 1] == ops[..n] + ops[n..m - 1];
      ChargeSplit(count, ops[..n], ops[n..m - 1]);
      ChargeBounds(ChargeAll(count, ops[..n]), ops[n..m - 1]);
    }
  }

  /** The second write decides which way the addresses go on. */
  lemma SameWay(port: Port, ops: seq<Operation>, m: nat, fifo: bool)
    requires port.Valid() && ValidOperations(port, ops) && 1 < m <= |ops| && WriteRun(port, ops[..m], fifo)
    ensures fifo == IsFifo(ops)
  {
    assert ops[..m][0] == ops[0] && ops[..m][1] == ops[1];
    assert ops[0].address < WORD64 by {
      Pow256Values();
      Pow256Monotone(port.addr, 8);
      assert ValidOperation(port, ops[0]);
    }
  }

  /** No longer group of reads would fit behind the writes, unless the limit is reached. */
  lemma ReadsLongest(port: Port, ops: seq<Operation>, w: nat, count: nat, maxops: nat, m: nat)
    requires port.Valid() && w < |ops| && count <= maxops
    requires ReadCount(port, ops, w, count, maxops) < m <= |ops| - w && m <= 255
    requires ReadRun(port, ops[w..w + m], ShapeOf(port, ops[w]), ops[w].config)
    requires w > 0 ==> ShapeOf(port, ops[w]) == ShapeOf(port, ops[0])
    ensures ChargeAll(count, ops[w..w + m - 1]) >= maxops
  {
    var n := ReadCount(port, ops, w, count, maxops);
    var rest := ops[w..];
    assert ops[w..w + m][0] == ops[w];
    if n == 0 {
      ChargeBounds(count, ops[w..w + m - 1]);
    } else {
      ExtendReadsJoin(port, rest, 1, Charge(count, ops[w]), maxops);
      assert ops[w..w + m][n] == rest[n];
      assert Joins(port, rest, n);
      hide ExtendReads, ReadRun, ShapeOf, ValidOperation;
      assert rest[..n] == [ops[w]] + rest[1..n];
      ReadsMore(ops, w, n, m, count);
    }
  }

  lemma ReadsMore(ops: seq<Operation>, w: nat, n: nat, m: nat, count: nat)
    requires n < m <= |ops| - w
    ensures ChargeAll(count, ops[w..w + m - 1]) >= ChargeAll(count, ops[w..][..n])
  {
    var front, back := ops[w..][..n], ops[w + n..w + m - 1];
    hide ChargeAll;
    assert ops[w..w + m - 1] == front + back;
    ChargeSplit(count, front, back);
    ChargeBounds(ChargeAll(count, front), back);
  }

  lemma ReadsFit(port: Port, ops: seq<Operation>, w: nat, count: nat, maxops: nat)
    requires port.Valid() && w <= |ops| && count <= maxops
    ensures var r := ReadCount(port, ops, w, count, maxops);
            && (r > 0 ==> ReadRun(port, ops[w..w + r], ShapeOf(port, ops[w]), ops[w].config)
                          && (w > 0 ==> ShapeOf(port, ops[w]) == ShapeOf(port, ops[0])))
            && ChargeAll(count, ops[w..w + r]) <= maxops
            && (r == 0 && w == 0 ==> count == maxops || |ops| == 0 || ops[0].write)
  {
    var r := ReadCount(port, ops, w, count, maxops);
    if r > 0 {
      var rest := ops[w..];
      ExtendReadsJoin(port, rest, 1, Charge(count, ops[w]), maxops);
      assert ops[w..w + r][1..] == rest[1..r];
      forall i | 0 <= i < r
        ensures !rest[i].write && rest[i].config == ops[w].config && ShapeOf(port, rest[i]) == ShapeOf(port, ops[w])
      {
        assert i > 0 ==> Joins(port, rest, i);
      }
    }
  }

  /** Every turn of the packing loop yields a record the wire can carry. */
  lemma PlanRunsCorrect(port: Port, ops: seq<Operation>, count: nat, checked: bool)
    requires port.Valid() && ValidOperations(port, ops) && count <= MaxOps(port, checked)
    ensures PlanRuns(port, ops, PlanRecord(port, ops, count, checked))
  {
    var maxops := MaxOps(port, checked);
    var p := PlanRecord(port, ops, count, checked);
    WritesFit(port, ops, count, maxops);
    ReadsFit(port, ops, p.w, ChargeAll(count, ops[..p.w]), maxops);
    hide WriteCount, ReadCount, WriteRun, ReadRun, ChargeAll;
    if p.status && p.w > 0 {
      LowAddressFits(port, ops[0]);
    }
    EmptyReadRun(port, PlanShape(port, ops, p));
    assert p.r == 0 ==> ops[p.w..p.w + p.r] == [];
  }

  /** Every turn of the packing loop makes progress and keeps within the limit. */
  lemma PlanCountsCorrect(port: Port, ops: seq<Operation>, count: nat, checked: bool)
    requires port.Valid() && ValidOperations(port, ops) && Pending(port, ops, count, checked)
    ensures PlanCounts(port, ops, count, checked, PlanRecord(port, ops, count, checked))
  {
    hide WriteCount, ReadCount, WriteRun, ReadRun, ShapeOf, IsFifo, ValidOperation;
    var maxops := MaxOps(port, checked);
    var p := PlanRecord(port, ops, count, checked);
    var written := ChargeAll(count, ops[..p.w]);
    WritesFit(port, ops, count, maxops);
    ReadsFit(port, ops, p.w, written, maxops);
    ChargeSplit(count, ops[..p.w], ops[p.w..p.w + p.r]);
    assert ops[..p.w] + ops[p.w..p.w + p.r] == ops[..p.w + p.r];
    ChargeBounds(count, ops[..p.w + p.r]);
    assert p.w == 0 ==> written == count;
  }

  lemma EmptyReadRun(port: Port, shape: Shape)
    requires port.Valid()
    ensures ReadRun(port, [], shape, false)
  {}

  /** The packing loop: all records of a cycle from `ops` on, with `count` operations uncovered. */
  function Compile(port: Port, ops: seq<Operation>, count: nat, checked: bool, rba: nat): (rs: seq<Record>)
    requires port.Valid() && ValidOperations(port, ops) && Pending(port, ops, count, checked)
    ensures |rs| > 0
    decreases |ops|, count
  {
    PlanCountsCorrect(port, ops, count, checked);
    var p := PlanRecord(port, ops, count, checked);
    ChargeBounds(count, ops[..p.w + p.r]);
    hide PlanRecord;
    var r := MakeRecord(port, ops, p, rba);
    if p.last then [r] else [r] + Compile(port, ops[p.w + p.r..], p.count, checked, rba)
  }
}
