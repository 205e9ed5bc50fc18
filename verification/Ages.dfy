/**
 How old the waiting responses are: over every run they stand in the order in which they were set up, which
 tells their return addresses apart and sorts their deadlines.
 */
module Ages {
  import opened Words
  import opened Operations
  import opened Packer
  import opened Responses
  import opened Delivery
  import opened Wire
  import opened Flush
  import opened Packets
  import opened SocketDevice
  import opened Lifecycle

  /** When a response was set up: as which one since the socket was opened, and at what cached clock. */
  datatype Birth = Birth(index: nat, time: nat)

  predicate BornAs(r: Response, b: Birth) {
    r.address == Claim(b.index) && r.deadline == Deadline(b.time)
  }

  /** `a` is older than `b`; `timely` says that the clock never went back. */
  predicate Older(a: Birth, b: Birth, timely: bool) {
    a.index < b.index && (timely ==> a.time <= b.time)
  }

  /** The responses were born as `bs` says, one after the other, among the first `n` and not after `clock`. */
  predicate Aged(rs: seq<Response>, bs: seq<Birth>, n: nat, clock: nat, timely: bool) {
    && |bs| == |rs|
    && (forall i | 0 <= i < |rs| :: BornAs(rs[i], bs[i]) && Older(bs[i], Birth(n, clock), timely))
    && (forall i, j | 0 <= i < j < |bs| :: Older(bs[i], bs[j], timely))
  }

  lemma AnswerKeepsBirth(r: Response, size: nat, address: nat, value: nat)
    requires ResponseOk(r)
    ensures var a := Answer(r, size, address, value).0; a.address == r.address && a.deadline == r.deadline
  {
    hide AssignErrors, CountBus, FindRead, FindBus;
  }

  function AnswerBirths(rs: seq<Response>, size: nat, address: nat, value: nat, bs: seq<Birth>): seq<Birth>
    requires AllOk(rs)
  {
    var i := Find(rs, ReturnAddress(address));
    if i < |rs| && i < |bs| && (var a := Answer(rs[i], size, address, value); Finished(a.0, a.1)) then bs[..i] + bs[i + 1..] else bs
  }

  lemma AnswerAges(rs: seq<Response>, size: nat, address: nat, value: nat, bs: seq<Birth>, n: nat, clock: nat, timely: bool)
    requires AllOk(rs) && Aged(rs, bs, n, clock, timely)
    ensures Aged(AnswerList(rs, size, address, value).0, AnswerBirths(rs, size, address, value, bs), n, clock, timely)
  {
    hide Find, ReturnAddress, Answer, Aged, DoneBy, Finished;
    AgedLength(rs, bs, n, clock, timely);
    var i := Find(rs, ReturnAddress(address));
    if i < |rs| {
      AnswerKeepsBirth(rs[i], size, address, value);
      DropAges(rs, bs, i, n, clock, timely);
      ReplaceAges(rs, bs, i, Answer(rs[i], size, address, value).0, n, clock, timely);
    }
  }

  lemma AgedLength(rs: seq<Response>, bs: seq<Birth>, n: nat, clock: nat, timely: bool)
    requires Aged(rs, bs, n, clock, timely)
    ensures |bs| == |rs|
  {}

  lemma DropAges(rs: seq<Response>, bs: seq<Birth>, i: nat, n: nat, clock: nat, timely: bool)
    requires Aged(rs, bs, n, clock, timely) && i < |rs| == |bs|
    ensures Aged(rs[..i] + rs[i + 1..], bs[..i] + bs[i + 1..], n, clock, timely)
  {
    hide BornAs, Older;
  }

  lemma ReplaceAges(rs: seq<Response>, bs: seq<Birth>, i: nat, r: Response, n: nat, clock: nat, timely: bool)
    requires Aged(rs, bs, n, clock, timely) && i < |rs| == |bs| && r.address == rs[i].address && r.deadline == rs[i].deadline
    ensures Aged(rs[i := r], bs, n, clock, timely)
  {
    hide BornAs, Older;
    SameBirth(rs[i], r, bs[i]);
  }

  lemma SameBirth(r: Response, r': Response, b: Birth)
    requires BornAs(r, b) && r'.address == r.address && r'.deadline == r.deadline
    ensures BornAs(r', b)
  {}

  /** The births of the responses that do not belong to the device. */
  function SelectBirths(rs: seq<Response>, device: nat, bs: seq<Birth>): (out: seq<Birth>)
    ensures forall b | b in out :: b in bs
  {
    if |rs| == 0 || |bs| == 0 then []
    else (if rs[0].cycle.device == device then [] else [bs[0]]) + SelectBirths(rs[1..], device, bs[1..])
  }

  lemma {:induction false} SelectAges(rs: seq<Response>, device: nat, bs: seq<Birth>, n: nat, clock: nat, timely: bool)
    requires Aged(rs, bs, n, clock, timely)
    ensures Aged(Select(rs, device, false), SelectBirths(rs, device, bs), n, clock, timely)
  {
    hide Aged;
    AgedLength(rs, bs, n, clock, timely);
    if |rs| == 0 {
      assert bs == [];
    } else {
      AgedTail(rs, bs, n, clock, timely);
      SelectAges(rs[1..], device, bs[1..], n, clock, timely);
      if rs[0].cycle.device != device {
        AgedCons(rs, bs, Select(rs[1..], device, false), SelectBirths(rs[1..], device, bs[1..]), n, clock, timely);
      } else {
        assert [] + SelectBirths(rs[1..], device, bs[1..]) == SelectBirths(rs[1..], device, bs[1..]);
      }
    }
  }

  lemma AgedTail(rs: seq<Response>, bs: seq<Birth>, n: nat, clock: nat, timely: bool)
    requires Aged(rs, bs, n, clock, timely) && |rs| == |bs| > 0
    ensures Aged(rs[1..], bs[1..], n, clock, timely)
  {
    hide BornAs, Older;
  }

  /** The head of an aged list in front of some of its later births. */
  lemma AgedCons(rs: seq<Response>, bs: seq<Birth>, rest: seq<Response>, births: seq<Birth>, n: nat, clock: nat, timely: bool)
    requires Aged(rs, bs, n, clock, timely) && |rs| == |bs| > 0
    requires Aged(rest, births, n, clock, timely) && forall b | b in births :: b in bs[1..]
    ensures Aged([rs[0]] + rest, [bs[0]] + births, n, clock, timely)
  {
    hide BornAs, Older;
    forall i | 0 <= i < |births| ensures Older(bs[0], births[i], timely) {
      assert births[i] in births;
      var j :| 0 <= j < |bs[1..]| && bs[1..][j] == births[i];
      assert bs[j + 1] == births[i];
    }
  }

  function ExpireBirths(q: Queue, clock: nat, now: nat, bs: seq<Birth>): seq<Birth>
    requires clock < WORD32
  {
    var k := ExpiredCount(q.first, clock, now);
    if k <= |bs| then bs[k..] else []
  }

  lemma ExpireAges(q: Queue, clock: nat, now: nat, bs: seq<Birth>, n: nat, timely: bool)
    requires clock < WORD32 && Aged(Fifo(q), bs, n, clock, timely) && (timely ==> clock <= now)
    ensures Aged(Fifo(Expire(q, clock, now)), ExpireBirths(q, clock, now, bs), n, now, timely)
  {
    hide ExpiredCount, BornAs;
    var k := ExpiredCount(q.first, clock, now);
    assert Fifo(Expire(q, clock, now)) == Fifo(q)[k..];
  }

  lemma KillAges(q: Queue, device: nat, bs: seq<Birth>, n: nat, clock: nat, timely: bool)
    requires Aged(Fifo(q), bs, n, clock, timely)
    ensures Aged(Fifo(KillInflight(q, device)), SelectBirths(Fifo(q), device, bs), n, clock, timely)
  {
    hide BornAs, Older;
    SelectAges(Fifo(q), device, bs, n, clock, timely);
    var q' := KillInflight(q, device);
    assert Reverse(q'.last) == [] && Fifo(q') == q'.first;
  }

  /** The births of `k` responses set up from the n-th on. */
  function NewBirths(n: nat, k: nat, time: nat): (bs: seq<Birth>)
    ensures |bs| == k
    decreases k
  {
    if k == 0 then [] else [Birth(n, time)] + NewBirths(n + 1, k - 1, time)
  }

  /** A flushed cycle is either the youngest response or none. */
  lemma FateAges(t: Transport, device: nat, time: nat, s: Sender, out: Sender, c: QueuedCycle, oom: bool, bs: seq<Birth>, n: nat, timely: bool)
    returns (k: nat)
    requires t.Ok() && |c.requests| < NO_LIMIT && s.rba % 2 == 0 && s.rba < 0x1_0000 && FateOf(t, device, time, s, out, c, oom)
    requires Aged(Fifo(s.queue), bs, n, time, timely) && s.rba == Claim(n)
    ensures k <= 1 && Aged(Fifo(out.queue), bs + NewBirths(n, k, time), n + k, time, timely) && out.rba == Claim(n + k)
    ensures |Fifo(out.queue)| - |Fifo(s.queue)| == k
  {
    hide NewResponse, Accepts, NeedsReply, FlushStatus, Claim, NextRba, Deadline, Fifo;
    if Accepts(t, s.rba, c, oom) && NeedsReply(CycleOf(t, c), c.checked) {
      var r := NewResponse(Cycle(c.id, device, CycleOf(t, c)), s.rba, Deadline(time), c.checked);
      EnqueueIsLast(s.queue, r);
      ResponseBorn(Cycle(c.id, device, CycleOf(t, c)), s.rba, Deadline(time), c.checked);
      NextClaim(n);
      k := 1;
      assert NewBirths(n, 1, time) == [Birth(n, time)];
    } else {
      LogAlone(s.queue, out.queue);
      k := 0;
      assert bs + [] == bs;
    }
  }

  lemma LogAlone(q: Queue, q': Queue)
    requires q'.first == q.first && q'.last == q.last
    ensures Fifo(q') == Fifo(q)
  {}

  lemma ResponseBorn(cycle: Cycle, address: nat, deadline: nat, checked: bool)
    ensures var r := NewResponse(cycle, address, deadline, checked); r.address == address && r.deadline == deadline
  {}

  lemma NextClaim(n: nat)
    ensures Claim(n + 1) == NextRba(Claim(n))
  {}

  lemma {:induction false} FlushAges(t: Transport, device: nat, time: nat, s: Sender, cs: seq<QueuedCycle>, oom: nat -> bool, bs: seq<Birth>, n: nat, timely: bool)
    requires t.Ok() && SenderOk(t, s) && |s.cur| == 0 && Short(cs)
    requires Aged(Fifo(s.queue), bs, n, time, timely) && s.rba == Claim(n)
    ensures var out := FlushCycles(t, device, time, s, cs, oom);
            var k := |Fifo(out.queue)| - |Fifo(s.queue)|;
            k >= 0 && Aged(Fifo(out.queue), bs + NewBirths(n, k, time), n + k, time, timely) && out.rba == Claim(n + k)
    decreases |cs|
  {
    hide FlushCycle, SentBy, FateOf, Aged, Claim, Fifo;
    if |cs| == 0 {
      assert bs + [] == bs;
    } else {
      var c := cs[0];
      var s1 := FlushCycle(t, device, time, s, c, oom(c.id));
      FlushCycleCorrect(t, device, time, s, c, oom(c.id));
      var k := FateAges(t, device, time, s, s1, c, oom(c.id), bs, n, timely);
      FlushAges(t, device, time, s1, cs[1..], oom, bs + NewBirths(n, k, time), n + k, timely);
      var rest: nat := |Fifo(FlushCycles(t, device, time, s1, cs[1..], oom).queue)| - |Fifo(s1.queue)|;
      assert NewBirths(n, k + rest, time) == NewBirths(n, k, time) + NewBirths(n + k, rest, time);
      Regroup(bs, NewBirths(n, k, time), NewBirths(n + k, rest, time));
    }
  }

  /** How many responses a step sets up. */
  function Issues(l: Library, step: Step): (n: nat)
    requires LibraryOk(l) && Possible(l, step)
  {
    var before, after := |Fifo(l.queue)|, |Fifo(Next(l, step).queue)|;
    if step.FlushDevice? && before < after then after - before else 0
  }

  /** How many responses a run sets up. */
  function Issued(l: Library, steps: seq<Step>): (n: nat)
    requires LibraryOk(l) && Runs(l, steps)
    decreases |steps|
  {
    if |steps| == 0 then 0 else Issues(l, steps[0]) + Issued(Next(l, steps[0]), steps[1..])
  }

  /** The clock does not go back. */
  predicate Timely(l: Library, steps: seq<Step>)
    requires LibraryOk(l) && Runs(l, steps)
    decreases |steps|
  {
    |steps| == 0 || ((steps[0].CheckTime? ==> l.clock <= steps[0].now) && Timely(Next(l, steps[0]), steps[1..]))
  }

  /** The library's responses were born as `bs` says, and `n` have been set up so far. */
  ghost predicate Chronicle(l: Library, bs: seq<Birth>, n: nat, timely: bool) {
    Aged(Fifo(l.queue), bs, n, l.clock, timely) && l.rba == Claim(n)
  }

  /** The births of the waiting responses after a step, from those before it; `n` were set up so far. */
  function StepBirths(l: Library, step: Step, bs: seq<Birth>, n: nat): seq<Birth>
    requires LibraryOk(l) && Possible(l, step)
  {
    match step
    case FlushDevice(_, _) => bs + NewBirths(n, Issues(l, step), l.clock)
    case Reply(size, address, value) =>
      WriteConfigRefines(l.queue, size, address, value);
      AnswerBirths(Fifo(l.queue), size, address, value, bs)
    case CheckTime(now) => ExpireBirths(l.queue, l.clock, now, bs)
    case CloseDevice(device) =>
      if l.devices[device].unready == 0 && !l.devices[device].passive then SelectBirths(Fifo(l.queue), device, bs) else bs
    case _ => bs
  }

  lemma StepAges(l: Library, step: Step, bs: seq<Birth>, n: nat, timely: bool)
    requires LibraryOk(l) && Possible(l, step) && Chronicle(l, bs, n, timely)
    requires timely && step.CheckTime? ==> l.clock <= step.now
    ensures Chronicle(Next(l, step), StepBirths(l, step, bs, n), n + Issues(l, step), timely)
  {
    hide Transport.Ok, WriteConfig, AnswerList, FlushCycles, KillInflight, Expire, Turned, KilledAll, Short, Reverse, QueueState, Aged, Claim, Fifo;
    hide AnswerBirths, ExpireBirths, SelectBirths, NewBirths;
    match step
    case FlushDevice(device, noMemory) =>
      var d := l.devices[device];
      ShortReverse(d.ready);
      FlushAges(d.t, device, l.clock, SenderOf(l), Reverse(d.ready), noMemory, bs, n, timely);
    case Reply(size, address, value) =>
      WriteConfigRefines(l.queue, size, address, value);
      AnswerAges(Fifo(l.queue), size, address, value, bs, n, l.clock, timely);
    case CheckTime(now) =>
      ExpireAges(l.queue, l.clock, now, bs, n, timely);
    case AskTimeout =>
      TurnedSame(l.queue);
    case CloseDevice(device) =>
      KillAges(l.queue, device, bs, n, l.clock, timely);
      LogOnly(KillInflight(l.queue, device), KilledAll(device, Reverse(l.devices[device].ready)));
    case _ =>
  }

  /** The births of the responses that wait after a run. */
  function RunBirths(l: Library, steps: seq<Step>, bs: seq<Birth>, n: nat): seq<Birth>
    requires LibraryOk(l) && Runs(l, steps)
    decreases |steps|
  {
    if |steps| == 0 then bs else RunBirths(Next(l, steps[0]), steps[1..], StepBirths(l, steps[0], bs, n), n + Issues(l, steps[0]))
  }

  lemma {:induction false} RunAges(l: Library, steps: seq<Step>, bs: seq<Birth>, n: nat, timely: bool)
    requires LibraryOk(l) && Runs(l, steps) && Chronicle(l, bs, n, timely) && (timely ==> Timely(l, steps))
    ensures Chronicle(After(l, steps), RunBirths(l, steps, bs, n), n + Issued(l, steps), timely)
    decreases |steps|
  {
    hide LibraryOk, Possible, Next, Chronicle, Issues, StepBirths;
    if |steps| > 0 {
      StepAges(l, steps[0], bs, n, timely);
      RunAges(Next(l, steps[0]), steps[1..], StepBirths(l, steps[0], bs, n), n + Issues(l, steps[0]), timely);
    }
  }

  lemma NothingBorn(timely: bool)
    ensures LibraryOk(INITIAL) && Chronicle(INITIAL, [], 0, timely)
  {
    InitialInvariant();
    assert Fifo(INITIAL.queue) == [];
  }

  /** The births of the responses that wait after a run from the start. */
  function Births(steps: seq<Step>): seq<Birth>
    requires Runs(INITIAL, steps)
  {
    RunBirths(INITIAL, steps, [], 0)
  }

  lemma FromStart(steps: seq<Step>, timely: bool)
    requires Runs(INITIAL, steps) && (timely ==> Timely(INITIAL, steps))
    ensures Chronicle(After(INITIAL, steps), Births(steps), Issued(INITIAL, steps), timely)
  {
    NothingBorn(timely);
    hide RunBirths, Runs, After, Issued, Chronicle, LibraryOk;
    RunAges(INITIAL, steps, [], 0, timely);
    assert 0 + Issued(INITIAL, steps) == Issued(INITIAL, steps);
  }

  lemma ChronicleSays(l: Library, bs: seq<Birth>, n: nat, timely: bool)
    requires Chronicle(l, bs, n, timely)
    ensures |bs| == |Fifo(l.queue)| && l.rba == Claim(n)
    ensures forall i | 0 <= i < |bs| :: Fifo(l.queue)[i].address == Claim(bs[i].index) && bs[i].index < n
    ensures forall i, j | 0 <= i < j < |bs| :: bs[i].index < bs[j].index && (timely ==> bs[i].time <= bs[j].time)
    ensures forall i | 0 <= i < |bs| :: Fifo(l.queue)[i].deadline == (bs[i].time + 5) % 0x1_0000 && (timely ==> bs[i].time <= l.clock)
  {
    hide Claim, Fifo, BornAs, Older;
    forall i | 0 <= i < |bs|
      ensures Fifo(l.queue)[i].address == Claim(bs[i].index) && bs[i].index < n
      ensures Fifo(l.queue)[i].deadline == (bs[i].time + 5) % 0x1_0000 && (timely ==> bs[i].time <= l.clock)
    {
      BirthSays(Fifo(l.queue)[i], bs[i], Birth(n, l.clock), timely);
    }
    forall i, j | 0 <= i < j < |bs| ensures bs[i].index < bs[j].index && (timely ==> bs[i].time <= bs[j].time) {
      assert Older(bs[i], bs[j], timely);
      OlderSays(bs[i], bs[j], timely);
    }
  }

  lemma BirthSays(r: Response, b: Birth, now: Birth, timely: bool)
    requires BornAs(r, b) && Older(b, now, timely)
    ensures r.address == Claim(b.index) && b.index < now.index
    ensures r.deadline == (b.time + 5) % 0x1_0000 && (timely ==> b.time <= now.time)
  {
    hide Claim;
  }

  lemma OlderSays(a: Birth, b: Birth, timely: bool)
    requires Older(a, b, timely)
    ensures a.index < b.index && (timely ==> a.time <= b.time)
  {}

  /** After any run the waiting responses stand in the order in which they were set up, each at the return
      address of its turn, and the next return address is that of the next turn. */
  lemma AddressesInOrder(steps: seq<Step>)
    requires Runs(INITIAL, steps)
    ensures var l, bs, n := After(INITIAL, steps), Births(steps), Issued(INITIAL, steps);
            && |bs| == |Fifo(l.queue)| && l.rba == Claim(n)
            && (forall i | 0 <= i < |bs| :: Fifo(l.queue)[i].address == Claim(bs[i].index) && bs[i].index < n)
            && (forall i, j | 0 <= i < j < |bs| :: bs[i].index < bs[j].index)
  {
    hide *;
    NothingBorn(false);
    FromStart(steps, false);
    ChronicleSays(After(INITIAL, steps), Births(steps), Issued(INITIAL, steps), false);
  }

  /** After every run two waiting responses share a return address exactly if the number of responses that a
      flush set up between them is a multiple of 16384; so they never do while the oldest is one of the
      last 16384. */
  lemma AddressesDiffer(steps: seq<Step>)
    requires Runs(INITIAL, steps)
    ensures var rs, bs, n := Fifo(After(INITIAL, steps).queue), Births(steps), Issued(INITIAL, steps);
            && |bs| == |rs|
            && (forall i, j | 0 <= i < j < |rs| :: rs[i].address == rs[j].address <==> (bs[j].index - bs[i].index) % 0x4000 == 0)
            && (|rs| > 0 && n - bs[0].index <= 0x4000 ==> forall i, j | 0 <= i < j < |rs| :: rs[i].address != rs[j].address)
  {
    hide *;
    NothingBorn(false);
    AddressesInOrder(steps);
    var rs, bs, n := Fifo(After(INITIAL, steps).queue), Births(steps), Issued(INITIAL, steps);
    forall i, j | 0 <= i < j < |rs|
      ensures rs[i].address == rs[j].address <==> (bs[j].index - bs[i].index) % 0x4000 == 0
      ensures n - bs[0].index <= 0x4000 ==> rs[i].address != rs[j].address
    {
      assert bs[0].index <= bs[i].index;
      SharedAddressIff(bs[j].index, bs[i].index);
      if n - bs[0].index <= 0x4000 {
        SmallRemainder(bs[j].index - bs[i].index, 0x4000);
      }
    }
  }

  lemma SmallRemainder(k: int, n: nat)
    requires 0 < k < n
    ensures k % n != 0
  {}

  /** When the waiting responses are due: five seconds after the cached clock of their flush. */
  function Due(steps: seq<Step>): (due: seq<nat>)
    requires Runs(INITIAL, steps)
    ensures |due| == |Births(steps)| && forall i | 0 <= i < |due| :: due[i] == Births(steps)[i].time + 5
  {
    var bs := Births(steps);
    seq(|bs|, i requires 0 <= i < |bs| => bs[i].time + 5)
  }

  /** After any run with a clock that does not go back the waiting responses stand in the order in which they
      are due, and each keeps the low half of its due time. */
  lemma DueInOrder(steps: seq<Step>)
    requires Runs(INITIAL, steps) && Timely(INITIAL, steps)
    ensures var l, due := After(INITIAL, steps), Due(steps);
            && |due| == |Fifo(l.queue)|
            && (forall i | 0 <= i < |due| :: Fifo(l.queue)[i].deadline == due[i] % 0x1_0000 && due[i] <= l.clock + 5)
            && (forall i, j | 0 <= i < j < |due| :: due[i] <= due[j])
  {
    hide *;
    NothingBorn(true);
    FromStart(steps, true);
    ChronicleSays(After(INITIAL, steps), Births(steps), Issued(INITIAL, steps), true);
  }

  /** After any run with a clock that does not go back, and is not about to end its 32 bits, the next look at
      the clock takes exactly the responses of the front list that are due, provided that the first of them
      is not overdue by more than half of the 16-bit range already. */
  lemma ExpireInRun(steps: seq<Step>, now: nat)
    requires Runs(INITIAL, steps) && Timely(INITIAL, steps) && After(INITIAL, steps).clock + 5 < WORD32
    ensures var l, due := After(INITIAL, steps), Due(steps);
            && |l.queue.first| <= |due|
            && (|l.queue.first| > 0 && l.clock <= due[0] + 0x8000 ==>
                  forall i | 0 <= i < |l.queue.first| :: i < ExpiredCount(l.queue.first, l.clock, now) <==> due[i] <= now)
  {
    hide *;
    NothingBorn(true);
    DueInOrder(steps);
    var l := After(INITIAL, steps);
    FrontFirst(l.queue);
    ClockFits(l);
    var due := Due(steps)[..|l.queue.first|];
    if |due| > 0 && l.clock <= due[0] + 0x8000 {
      ExpireExact(l.queue.first, due, l.clock, now);
      forall i | 0 <= i < |due| ensures due[i] == Due(steps)[i] {}
    }
  }

  lemma ClockFits(l: Library)
    requires LibraryOk(l)
    ensures l.clock < WORD32
  {}

  lemma FrontFirst(q: Queue)
    ensures |q.first| <= |Fifo(q)| && forall i | 0 <= i < |q.first| :: Fifo(q)[i] == q.first[i]
  {}
}
