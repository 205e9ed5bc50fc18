/**
 Responses the master still expects. The socket keeps them in a two-list functional queue; a reply
 finds its response by return address and fills in read-backs and error flags through two cursors
 over the cycle's operations.
 */
module Responses {
  import opened Words
  import opened Operations

  datatype Cycle = Cycle(id: nat, device: nat, ops: seq<Operation>)

  /** `wc` is the next operation awaiting a read-back, `sc` the next awaiting its error flag; the
      number of operations stands for the end of the list. */
  datatype Response = Response(address: nat, deadline: nat, cycle: Cycle, wc: nat, sc: nat)

  /** What a callback is shown: nothing, the cycle's operations, the offending operation, the
      operations of a cycle that was never validated, or, for a cycle that ran out of memory and is
      killed before it is flushed, its own index where an operation is expected. */
  datatype View =
    | NoOperations | Operations(ops: seq<Operation>) | Offending(index: nat)
    | Queued(requests: seq<Request>) | OwnIndex

  /** A callback: which cycle, the status, and what it is shown. */
  datatype Done = Done(id: nat, device: nat, status: Status, view: View)

  /** `first` is consumed from the front; `last` holds newer responses, newest first. */
  datatype Queue = Queue(first: seq<Response>, last: seq<Response>, log: seq<Done>)

  /** The responses in the order they were sent. */
  function Fifo(q: Queue): seq<Response> {
    q.first + Reverse(q.last)
  }

  function Enqueue(q: Queue, r: Response): Queue {
    q.(last := [r] + q.last)
  }

  function FindRead(ops: seq<Operation>, i: nat): (j: nat)
    requires i <= |ops|
    ensures i <= j <= |ops|
    ensures forall k | i <= k < j :: ops[k].write
    ensures j < |ops| ==> !ops[j].write
    decreases |ops| - i
  {
    if i < |ops| && ops[i].write then FindRead(ops, i + 1) else i
  }

  function FindBus(ops: seq<Operation>, i: nat): (j: nat)
    requires i <= |ops|
    ensures i <= j <= |ops|
    ensures forall k | i <= k < j :: ops[k].config
    ensures j < |ops| ==> !ops[j].config
    decreases |ops| - i
  {
    if i < |ops| && ops[i].config then FindBus(ops, i + 1) else i
  }

  predicate ResponseOk(r: Response) {
    r.wc <= |r.cycle.ops| && r.sc <= |r.cycle.ops|
  }

  /** A read-back stores its value and moves on to the next read. */
  function ReadBack(r: Response, value: nat): (out: (Response, bool))
    requires ResponseOk(r)
    ensures ResponseOk(out.0)
  {
    if r.wc == |r.cycle.ops| then (r, true) else
      var ops := r.cycle.ops[r.wc := r.cycle.ops[r.wc].(value := value)];
      (r.(cycle := r.cycle.(ops := ops), wc := FindRead(ops, r.wc + 1)), false)
  }

  /** How many bus operations from i on one status word of `maxops` bits covers. */
  function CountBus(ops: seq<Operation>, i: nat, maxops: nat): (n: nat)
    requires i <= |ops|
    ensures n <= maxops
    decreases |ops| - i
  {
    if maxops == 0 || i == |ops| then 0
    else if ops[i].config then CountBus(ops, i + 1, maxops)
    else 1 + CountBus(ops, i + 1, maxops - 1)
  }

  /** Give the next n bus operations their error bits, oldest operation first, from bit n-1 down. */
  function AssignErrors(ops: seq<Operation>, i: nat, n: nat, value: nat): (out: (seq<Operation>, nat))
    requires i <= |ops|
    ensures |out.0| == |ops| && i <= out.1 <= |ops|
    decreases |ops| - i
  {
    if n == 0 || i == |ops| then (ops, i)
    else if ops[i].config then AssignErrors(ops, i + 1, n, value)
    else AssignErrors(ops[i := ops[i].(error := ops[i].error || Bit(value, n - 1))], i + 1, n - 1, value)
  }

  function StatusBack(r: Response, maxops: nat, value: nat): (out: (Response, bool))
    requires ResponseOk(r)
    ensures ResponseOk(out.0)
  {
    var n := CountBus(r.cycle.ops, r.sc, maxops);
    var marked := AssignErrors(r.cycle.ops, r.sc, n, value);
    (r.(cycle := r.cycle.(ops := marked.0), sc := FindBus(marked.0, marked.1)), n == 0)
  }

  /** The effect of one reply word on its response; true means the remote violated the protocol. */
  function Answer(r: Response, size: nat, address: nat, value: nat): (out: (Response, bool))
    requires ResponseOk(r)
    ensures ResponseOk(out.0)
  {
    if address % 2 == 0 then ReadBack(r, value) else StatusBack(r, 8 * size, value)
  }

  predicate HasError(ops: seq<Operation>) {
    exists i | 0 <= i < |ops| :: ops[i].error
  }

  predicate Finished(r: Response, fail: bool) {
    fail || (r.wc == |r.cycle.ops| && r.sc == |r.cycle.ops|)
  }

  function DoneBy(r: Response, fail: bool): Done {
    Done(r.cycle.id, r.cycle.device, if fail then FAIL else if HasError(r.cycle.ops) then SEGFAULT else OK,
         Operations(r.cycle.ops))
  }

  /** `address & 0xFFFE`: the return address without the bit that marks a status word. */
  function ReturnAddress(address: nat): nat {
    address % 0x1_0000 - address % 2
  }

  /** Position of the first response waiting for this address. */
  function Find(rs: seq<Response>, address: nat): (i: nat)
    ensures i <= |rs| && (i < |rs| ==> rs[i].address == address)
    ensures forall k | 0 <= k < i :: rs[k].address != address
  {
    if |rs| == 0 || rs[0].address == address then 0 else 1 + Find(rs[1..], address)
  }

  predicate AllOk(rs: seq<Response>) {
    forall i | 0 <= i < |rs| :: ResponseOk(rs[i])
  }

  /** What a reply word does to a list of responses, oldest first, and which callback it causes. */
  function AnswerList(rs: seq<Response>, size: nat, address: nat, value: nat): (out: (seq<Response>, seq<Done>))
    requires AllOk(rs)
    ensures AllOk(out.0)
  {
    var i := Find(rs, ReturnAddress(address));
    if i == |rs| then (rs, []) else
      var a := Answer(rs[i], size, address, value);
      if Finished(a.0, a.1) then (rs[..i] + rs[i + 1..], [DoneBy(a.0, a.1)]) else (rs[i := a.0], [])
  }

  ghost predicate QueueOk(q: Queue) {
    AllOk(q.first) && AllOk(q.last)
  }

  lemma {:induction false} ReverseOk(rs: seq<Response>)
    requires AllOk(rs)
    ensures AllOk(Reverse(rs))
  {
    if |rs| != 0 {
      ReverseOk(rs[1..]);
    }
  }

  /** A write to configuration space on the master: the front list is searched first, and the back
      list is reversed behind it only when that fails. */
  function WriteConfig(q: Queue, size: nat, address: nat, value: nat): (q': Queue)
    requires QueueOk(q)
    ensures QueueOk(q')
  {
    if Find(q.first, ReturnAddress(address)) < |q.first| then
      var out := AnswerList(q.first, size, address, value);
      Queue(out.0, q.last, q.log + out.1)
    else
      ReverseOk(q.last);
      var out := AnswerList(q.first + Reverse(q.last), size, address, value);
      Queue(out.0, [], q.log + out.1)
  }

  lemma {:induction false} FindAppend(a: seq<Response>, b: seq<Response>, address: nat)
    ensures Find(a + b, address) == if Find(a, address) < |a| then Find(a, address) else |a| + Find(b, address)
  {
    if |a| == 0 {
      assert a + b == b;
    } else if a[0].address != address {
      FindAppend(a[1..], b, address);
      assert (a + b)[1..] == a[1..] + b;
    }
  }

  lemma Parts<T>(a: seq<T>, b: seq<T>, i: nat, x: T)
    requires i < |a|
    ensures (a + b)[i] == a[i] && (a + b)[..i] + (a + b)[i + 1..] == (a[..i] + a[i + 1..]) + b && (a + b)[i := x] == a[i := x] + b
  {
  }

  /** A response found in the front part is answered there. */
  lemma AnswerFront(a: seq<Response>, b: seq<Response>, size: nat, address: nat, value: nat)
    requires AllOk(a) && AllOk(b) && Find(a, ReturnAddress(address)) < |a|
    ensures AllOk(a + b)
    ensures AnswerList(a + b, size, address, value) == (AnswerList(a, size, address, value).0 + b, AnswerList(a, size, address, value).1)
  {
    hide Answer, Find, ReturnAddress, Finished, DoneBy;
    FindAppend(a, b, ReturnAddress(address));
    var i := Find(a, ReturnAddress(address));
    Parts(a, b, i, Answer(a[i], size, address, value).0);
  }

  /** The two lists behave as the one queue they represent. */
  lemma WriteConfigRefines(q: Queue, size: nat, address: nat, value: nat)
    requires QueueOk(q)
    ensures AllOk(Fifo(q))
    ensures var out := AnswerList(Fifo(q), size, address, value);
            var q' := WriteConfig(q, size, address, value);
            Fifo(q') == out.0 && q'.log == q.log + out.1
  {
    hide AnswerList, Find, ReturnAddress;
    ReverseOk(q.last);
    if Find(q.first, ReturnAddress(address)) < |q.first| {
      AnswerFront(q.first, Reverse(q.last), size, address, value);
    } else {
      var q' := WriteConfig(q, size, address, value);
      assert Reverse(q'.last) == [];
      assert Fifo(q') == q'.first;
    }
  }

  lemma EnqueueIsLast(q: Queue, r: Response)
    ensures Fifo(Enqueue(q, r)) == Fifo(q) + [r]
  {
    assert ([r] + q.last)[1..] == q.last;
  }
}
