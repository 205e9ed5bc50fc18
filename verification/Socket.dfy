/**
 The socket's response lists as they are worked on: reversing the back list, delivering a reply
 word, killing the responses of a closing device, and expiring old ones.
 */
module SocketDevice {
  import opened Words
  import opened Operations
  import opened Responses

  const WORD32 := 0x1_0000_0000

  /** Responses of the device, oldest first, and all the others, oldest first. */
  function Select(rs: seq<Response>, device: nat, mine: bool): (out: seq<Response>) {
    if |rs| == 0 then []
    else if (rs[0].cycle.device == device) == mine then [rs[0]] + Select(rs[1..], device, mine)
    else Select(rs[1..], device, mine)
  }

  lemma Behind<T>(a: seq<T>, b: seq<T>)
    requires |a| > 0
    ensures (a + b)[1..] == a[1..] + b && (a + b)[0] == a[0]
  {
  }

  lemma {:induction false} SelectConcat(a: seq<Response>, b: seq<Response>, device: nat, mine: bool)
    ensures Select(a + b, device, mine) == Select(a, device, mine) + Select(b, device, mine)
  {
    if |a| == 0 {
      assert a + b == b;
    } else {
      SelectConcat(a[1..], b, device, mine);
      Behind(a, b);
      Regroup([a[0]], Select(a[1..], device, mine), Select(b, device, mine));
    }
  }

  function Timeouts(rs: seq<Response>): (ds: seq<Done>)
    ensures |ds| == |rs|
  {
    if |rs| == 0 then []
    else [Done(rs[0].cycle.id, rs[0].cycle.device, TIMEOUT, Operations(rs[0].cycle.ops))] + Timeouts(rs[1..])
  }

  lemma {:induction false} TimeoutsSnoc(rs: seq<Response>, i: nat)
    requires i < |rs|
    ensures Timeouts(rs[..i + 1]) == Timeouts(rs[..i]) + [Done(rs[i].cycle.id, rs[i].cycle.device, TIMEOUT, Operations(rs[i].cycle.ops))]
  {
    if i == 0 {
      assert rs[..1][1..] == [];
    } else {
      TimeoutsSnoc(rs[1..], i - 1);
      assert rs[..i + 1][1..] == rs[1..][..i] && rs[..i][1..] == rs[1..][..i - 1];
    }
  }

  /** Closing a device: its responses leave the queue and are called back, oldest first. */
  function KillInflight(q: Queue, device: nat): Queue {
    Queue(Select(Fifo(q), device, false), [], q.log + Timeouts(Select(Fifo(q), device, true)))
  }

  /** The deadline a 16-bit deadline stands for, as seen from the cached 32-bit clock: the signed
      16-bit difference is added to the clock, modulo 2^32. */
  function Rebuild(deadline: nat, clock: nat): (d: nat)
    requires deadline < 0x1_0000 && clock < WORD32
    ensures d < WORD32
  {
    var udelta := (deadline + 0x1_0000 - clock % 0x1_0000) % 0x1_0000;
    var sdelta := if udelta < 0x8000 then udelta else udelta - 0x1_0000;
    (clock + WORD32 + sdelta) % WORD32
  }

  /** The rebuilt deadline is the true one exactly when the two clocks are less than half of the
      16-bit range apart (modulo 2^32, as the clock counts). */
  lemma RebuildIff(d: nat, clock: nat)
    requires d < WORD32 && clock < WORD32
    ensures Rebuild(d % 0x1_0000, clock) == d
       <==> -0x8000 <= d - clock < 0x8000 || d - clock >= WORD32 - 0x8000 || d - clock < 0x8000 - WORD32
  {
    var delta := if d >= clock then d - clock else d - clock + WORD32;
    LowDifference(d, clock, delta);
    var udelta := delta % 0x1_0000;
    var sdelta := if udelta < 0x8000 then udelta else udelta - 0x1_0000;
    ClockWraps(clock, sdelta);
  }

  lemma LowDifference(d: nat, clock: nat, delta: nat)
    requires d < WORD32 && clock < WORD32
    requires delta == if d >= clock then d - clock else d - clock + WORD32
    ensures (d % 0x1_0000 + 0x1_0000 - clock % 0x1_0000) % 0x1_0000 == delta % 0x1_0000
  {}

  lemma ClockWraps(clock: nat, sdelta: int)
    requires clock < WORD32 && -0x8000 <= sdelta < 0x8000
    ensures (clock + WORD32 + sdelta) % WORD32
         == if clock + sdelta < 0 then clock + sdelta + WORD32
            else if clock + sdelta >= WORD32 then clock + sdelta - WORD32 else clock + sdelta
  {}

  /** The front responses that have expired by `now`. Only the front list is looked at. */
  function ExpiredCount(rs: seq<Response>, clock: nat, now: nat): (n: nat)
    requires clock < WORD32
    ensures n <= |rs|
  {
    if |rs| > 0 && Rebuild(rs[0].deadline % 0x1_0000, clock) <= now then 1 + ExpiredCount(rs[1..], clock, now) else 0
  }

  function Expire(q: Queue, clock: nat, now: nat): Queue
    requires clock < WORD32
  {
    var n := ExpiredCount(q.first, clock, now);
    Queue(q.first[n..], q.last, q.log + Timeouts(q.first[..n]))
  }

  /** Asking for the next deadline: the back list is turned round when the front is empty. */
  function Turned(q: Queue): Queue {
    if |q.first| == 0 then Queue(Reverse(q.last), [], q.log) else q
  }

  lemma TurnedSame(q: Queue)
    ensures Fifo(Turned(q)) == Fifo(q) && Turned(q).log == q.log
    ensures QueueOk(q) ==> QueueOk(Turned(q))
  {
    if |q.first| == 0 {
      var q' := Turned(q);
      assert Reverse(q'.last) == [] && Fifo(q') == q'.first + [] && Fifo(q) == [] + Reverse(q.last);
      if QueueOk(q) {
        ReverseOk(q.last);
      }
    }
  }

  /** When responses were sent at times that did not go backwards, and none is further than half of the
      16-bit range from the cached clock, exactly the expired responses of the front list leave. */
  lemma {:induction false} ExpireExact(rs: seq<Response>, due: seq<nat>, clock: nat, now: nat)
    requires |due| == |rs| && clock < WORD32
    requires forall i | 0 <= i < |rs| :: due[i] < WORD32 && rs[i].deadline == due[i] % 0x1_0000
               && -0x8000 <= due[i] - clock < 0x8000
    requires forall i, j | 0 <= i < j < |rs| :: due[i] <= due[j]
    ensures forall i | 0 <= i < |rs| :: i < ExpiredCount(rs, clock, now) <==> due[i] <= now
  {
    hide Rebuild;
    if |rs| > 0 {
      RebuildNear(due[0], clock);
      if due[0] <= now {
        ExpireExact(rs[1..], due[1..], clock, now);
        forall i | 0 <= i < |rs| ensures i < ExpiredCount(rs, clock, now) <==> due[i] <= now {
          if i > 0 {
            assert due[i] == due[1..][i - 1];
          }
        }
      }
    }
  }

  lemma RebuildNear(d: nat, clock: nat)
    requires d < WORD32 && clock < WORD32 && -0x8000 <= d - clock < 0x8000
    ensures Rebuild(d % 0x1_0000, clock) == d
  {
    RebuildIff(d, clock);
  }

  /** Turn a response list round. */
  method Flip(rs: seq<Response>) returns (out: seq<Response>)
    ensures out == Reverse(rs)
  {
    out := [];
    var left := rs;
    assert Reverse(left) + out == Reverse(rs);
    while |left| > 0
      invariant Reverse(left) + out == Reverse(rs)
    {
      assert Reverse(left[1..]) + [left[0]] + out == Reverse(left[1..]) + ([left[0]] + out);
      out := [left[0]] + out;
      left := left[1..];
    }
    assert [] + out == out;
  }

  /** Push the responses of a list onto the ones to keep and the ones to kill. */
  method FilterInflight(good0: seq<Response>, bad0: seq<Response>, device: nat, rs: seq<Response>)
    returns (good: seq<Response>, bad: seq<Response>)
    ensures good == Select(Reverse(rs), device, false) + good0
    ensures bad == Select(Reverse(rs), device, true) + bad0
  {
    good, bad := good0, bad0;
    var i := 0;
    assert rs[..0] == [];
    while i < |rs|
      invariant 0 <= i <= |rs|
      invariant good == Select(Reverse(rs[..i]), device, false) + good0
      invariant bad == Select(Reverse(rs[..i]), device, true) + bad0
    {
      PushSelected(rs, i, device, good0, bad0);
      if rs[i].cycle.device == device {
        bad := [rs[i]] + bad;
      } else {
        good := [rs[i]] + good;
      }
      i := i + 1;
    }
    assert rs[..i] == rs;
  }

  lemma PushSelected(rs: seq<Response>, i: nat, device: nat, good0: seq<Response>, bad0: seq<Response>)
    requires i < |rs|
    ensures var mine := rs[i].cycle.device == device;
            && Select(Reverse(rs[..i + 1]), device, mine) == [rs[i]] + Select(Reverse(rs[..i]), device, mine)
            && Select(Reverse(rs[..i + 1]), device, !mine) == Select(Reverse(rs[..i]), device, !mine)
  {
    assert rs[..i + 1] == rs[..i] + [rs[i]];
    ReverseAppend(rs[..i], [rs[i]]);
    assert Reverse([rs[i]]) == [rs[i]];
    var all := [rs[i]] + Reverse(rs[..i]);
    assert all[1..] == Reverse(rs[..i]);
  }

  /** The next read at or after i. */
  method NextRead(ops: seq<Operation>, i: nat) returns (j: nat)
    requires i <= |ops|
    ensures j == FindRead(ops, i)
  {
    j := i;
    while j < |ops| && ops[j].write
      invariant i <= j <= |ops| && FindRead(ops, j) == FindRead(ops, i)
    {
      j := j + 1;
    }
  }

  /** The next bus operation at or after i. */
  method NextBus(ops: seq<Operation>, i: nat) returns (j: nat)
    requires i <= |ops|
    ensures j == FindBus(ops, i)
  {
    j := i;
    while j < |ops| && ops[j].config
      invariant i <= j <= |ops| && FindBus(ops, j) == FindBus(ops, i)
    {
      j := j + 1;
    }
  }

  /** Hand a status word out to the operations it covers: count them, then walk them again. */
  method DoStatusBack(r: Response, maxops: nat, value: nat) returns (r': Response, fail: bool)
    requires ResponseOk(r) && maxops > 0
    ensures (r', fail) == StatusBack(r, maxops, value)
  {
    hide Bit;
    var ops := r.cycle.ops;
    var n, i := 0, r.sc;
    while i < |ops| && n < maxops
      invariant r.sc <= i <= |ops| && n <= maxops
      invariant CountBus(ops, r.sc, maxops) == n + CountBus(ops, i, maxops - n)
      decreases |ops| - i
    {
      if !ops[i].config {
        n := n + 1;
      }
      i := i + 1;
    }
    fail := n == 0;
    ghost var target := AssignErrors(ops, r.sc, n, value);
    var left := n;
    i := r.sc;
    while left > 0 && i < |ops|
      invariant r.sc <= i <= |ops| == |r.cycle.ops| && left <= n
      invariant target == AssignErrors(ops, i, left, value)
      decreases |ops| - i
    {
      if !ops[i].config {
        ops := ops[i := ops[i].(error := ops[i].error || Bit(value, left - 1))];
        left := left - 1;
      }
      i := i + 1;
    }
    var sc := NextBus(ops, i);
    r' := r.(cycle := r.cycle.(ops := ops), sc := sc);
  }

  /** None of the first `n` responses waits at the address. */
  predicate Missing(rs: seq<Response>, n: nat, address: nat)
    requires n <= |rs|
  {
    forall k | 0 <= k < n :: rs[k].address != address
  }

  lemma FindIs(rs: seq<Response>, n: nat, address: nat)
    requires n <= |rs| && Missing(rs, n, address) && (n < |rs| ==> rs[n].address == address)
    ensures Find(rs, address) == n
  {
    hide Find;
    var i := Find(rs, address);
    assert i >= n;
  }

  lemma ReverseNothing<T>(s: seq<T>)
    ensures Reverse(s) == [] <==> s == []
  {
  }

  /** The two lists, taken apart from the back, are the queue taken apart. */
  lemma KillParts(q: Queue, device: nat)
    ensures Reverse(Reverse(q.first)) == q.first
    ensures forall mine :: Select(q.first, device, mine) + (Select(Reverse(q.last), device, mine) + []) == Select(Fifo(q), device, mine)
  {
    hide Select, Reverse;
    ReverseTwice(q.first);
    forall mine
      ensures Select(q.first, device, mine) + (Select(Reverse(q.last), device, mine) + []) == Select(Fifo(q), device, mine)
    {
      SelectConcat(q.first, Reverse(q.last), device, mine);
      assert Select(Reverse(q.last), device, mine) + [] == Select(Reverse(q.last), device, mine);
    }
  }

  lemma NoTimeouts()
    ensures Timeouts([]) == []
  {
  }

  class Socket {
    var first: seq<Response>
    var last: seq<Response>
    var log: seq<Done>
    var timeCache: nat

    function State(): Queue
      reads this
    {
      Queue(first, last, log)
    }

    constructor ()
      ensures State() == Queue([], [], []) && timeCache == 0
    {
      first, last, log, timeCache := [], [], [], 0;
    }

    /** Find the response a reply word is for, turning the back list round when the front has none. */
    method FindResponse(address: nat) returns (i: nat)
      modifies this`first, this`last
      ensures i == Find(first, ReturnAddress(address))
      ensures if Find(old(first), ReturnAddress(address)) < |old(first)| then first == old(first) && last == old(last)
              else first == old(first) + Reverse(old(last)) && last == []
    {
      hide Find, Reverse, ReturnAddress;
      i := 0;
      var a := ReturnAddress(address);
      ghost var turned := false;
      while true
        invariant 0 <= i <= |first| && Missing(first, i, a)
        invariant !turned ==> first == old(first) && last == old(last)
        invariant turned ==> first == old(first) + Reverse(old(last)) && last == [] && Missing(old(first), |old(first)|, a)
        decreases |last| + |first| - i, |last|
      {
        if i == |first| {
          var extra := Flip(last);
          ReverseNothing(last);
          first, last := first + extra, [];
          turned := true;
          if |extra| == 0 {
            FindIs(first, i, a);
            FindIs(old(first), |old(first)|, a);
            return;
          }
        }
        if first[i].address == a {
          FindIs(first, i, a);
          FindIs(old(first), if turned then |old(first)| else i, a);
          return;
        }
        i := i + 1;
      }
    }

    /** A write to configuration space: one word of a reply. */
    method WriteConfig(size: nat, address: nat, value: nat)
      requires QueueOk(State()) && size > 0
      modifies this`first, this`last, this`log
      ensures State() == Responses.WriteConfig(old(State()), size, address, value)
    {
      hide Answer, ReturnAddress, Find, HasError;
      ReverseOk(last);
      var i := FindResponse(address);
      if i == |first| {
        return;
      }
      var r, fail := DoAnswer(first[i], size, address, value);
      if fail || (r.wc == |r.cycle.ops| && r.sc == |r.cycle.ops|) {
        first := first[..i] + first[i + 1..];
        var status := WorstStatus(r.cycle.ops);
        log := log + [Done(r.cycle.id, r.cycle.device, if fail then FAIL else status, Operations(r.cycle.ops))];
      } else {
        first := first[i := r];
      }
    }

    /** Kill all responses of a device and run their callbacks. */
    method Kill(device: nat)
      modifies this`first, this`last, this`log
      ensures State() == KillInflight(old(State()), device)
    {
      hide Select, Reverse, Fifo, Timeouts;
      var good, bad := FilterInflight([], [], device, last);
      var turned := Flip(first);
      good, bad := FilterInflight(good, bad, device, turned);
      KillParts(State(), device);
      first, last := good, [];
      var i := 0;
      assert bad[..0] == [] && log + [] == log;
      NoTimeouts();
      while i < |bad|
        invariant 0 <= i <= |bad|
        invariant first == good && last == [] && log == old(log) + Timeouts(bad[..i])
      {
        TimeoutsSnoc(bad, i);
        log := log + [Done(bad[i].cycle.id, bad[i].cycle.device, TIMEOUT, Operations(bad[i].cycle.ops))];
        i := i + 1;
      }
      assert bad[..i] == bad;
    }

    /** When the oldest response is given up; 0 if there is none. The front list then holds the oldest
        response, and the queue is the same. */
    method Timeout() returns (when: nat)
      requires timeCache < WORD32
      modifies this`first, this`last
      ensures State() == Turned(old(State())) && Fifo(State()) == Fifo(old(State()))
      ensures when == if |Fifo(State())| == 0 then 0 else Rebuild(Fifo(State())[0].deadline % 0x1_0000, timeCache)
      ensures |first| == 0 ==> Fifo(State()) == []
    {
      TurnedSame(State());
      if |first| == 0 {
        first := Flip(last);
        last := [];
      }
      when := if |first| == 0 then 0 else Rebuild(first[0].deadline % 0x1_0000, timeCache);
    }

    /** Give up the expired responses at the front, then advance the clock. */
    method CheckExpired(now: nat)
      requires timeCache < WORD32
      modifies this`first, this`last, this`log, this`timeCache
      ensures State() == Expire(old(State()), old(timeCache), now) && timeCache == now
    {
      ghost var n := ExpiredCount(first, timeCache, now);
      ghost var i := 0;
      assert log + Timeouts(first[..0]) == log;
      while |first| > 0
        invariant 0 <= i <= n && first == old(first)[i..] && last == old(last) && timeCache == old(timeCache)
        invariant n == i + ExpiredCount(first, timeCache, now)
        invariant log == old(log) + Timeouts(old(first)[..i])
        decreases |first|
      {
        ghost var head := first[0];
        var when := Timeout();
        assert Fifo(State())[0] == head;
        if when > now {
          break;
        }
        TimeoutsSnoc(old(first), i);
        var r := first[0];
        first := first[1..];
        log := log + [Done(r.cycle.id, r.cycle.device, TIMEOUT, Operations(r.cycle.ops))];
        i := i + 1;
      }
      timeCache := now;
    }
  }

  method DoAnswer(r: Response, size: nat, address: nat, value: nat) returns (r': Response, fail: bool)
    requires ResponseOk(r) && size > 0
    ensures (r', fail) == Answer(r, size, address, value)
  {
    hide ReadBack, StatusBack;
    if address % 2 == 0 {
      r', fail := DoReadBack(r, value);
    } else {
      r', fail := DoStatusBack(r, 8 * size, value);
    }
  }

  method WorstStatus(ops: seq<Operation>) returns (status: Status)
    ensures status == if HasError(ops) then SEGFAULT else OK
  {
    status := OK;
    var k := 0;
    while k < |ops|
      invariant 0 <= k <= |ops|
      invariant status == if exists j | 0 <= j < k :: ops[j].error then SEGFAULT else OK
    {
      if ops[k].error {
        status := SEGFAULT;
      }
      k := k + 1;
    }
  }

  /** Store a read-back at the cursor and move the cursor on. */
  method DoReadBack(r: Response, value: nat) returns (r': Response, fail: bool)
    requires ResponseOk(r)
    ensures (r', fail) == ReadBack(r, value)
  {
    if r.wc == |r.cycle.ops| {
      return r, true;
    }
    var ops := r.cycle.ops[r.wc := r.cycle.ops[r.wc].(value := value)];
    var wc := NextRead(ops, r.wc + 1);
    return r.(cycle := r.cycle.(ops := ops), wc := wc), false;
  }
}
