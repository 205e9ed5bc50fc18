/**
 When waiting responses are given up, over whole runs: the expiry loop only looks at the front list, which is
 enough as long as the clock is checked often enough and right after asking for the next deadline.
 */
module Expiry {
  import opened Words
  import opened Operations
  import opened Packer
  import opened Responses
  import opened Delivery
  import opened Wire
  import opened Flush
  import opened Packets
  import opened SocketDevice
  import opened Lifecycle
  import opened Ages

  /** When a response is due. */
  function DueTime(b: Birth): nat {
    b.time + 5
  }

  /** As asking for the next deadline leaves the queue: the front list holds the oldest response. */
  predicate Asked(q: Queue) {
    |q.first| > 0 || |q.last| == 0
  }

  lemma AskingAsks(q: Queue)
    ensures Asked(Turned(q))
  {
    ReverseNothing(q.last);
  }

  /** No response is overdue by more than half of the 16-bit range, and behind a front list that is not empty
      none is overdue at all. */
  ghost predicate Punctual(l: Library, bs: seq<Birth>) {
    && l.clock + 5 < WORD32
    && (forall i | 0 <= i < |bs| :: l.clock <= DueTime(bs[i]) + 0x8000)
    && (|l.queue.first| > 0 ==> forall i | |l.queue.first| <= i < |bs| :: l.clock <= DueTime(bs[i]))
  }

  /** The clock is checked at least every 32768 seconds, after the queue was asked for its deadline. */
  predicate PacedCall(l: Library, step: Step) {
    step.CheckTime? ==> Asked(l.queue) && l.clock <= step.now <= l.clock + 0x8000 && step.now + 5 < WORD32
  }

  // What the steps do to the front list.

  lemma FateFront(t: Transport, device: nat, time: nat, s: Sender, out: Sender, c: QueuedCycle, oom: bool)
    requires t.Ok() && |c.requests| < NO_LIMIT && s.rba % 2 == 0 && s.rba < 0x1_0000 && FateOf(t, device, time, s, out, c, oom)
    ensures out.queue.first == s.queue.first
  {
    hide NewResponse, Accepts, NeedsReply, FlushStatus, FlushShows;
  }

  lemma {:induction false} FlushFront(t: Transport, device: nat, time: nat, s: Sender, cs: seq<QueuedCycle>, oom: nat -> bool)
    requires t.Ok() && SenderOk(t, s) && |s.cur| == 0 && Short(cs)
    ensures FlushCycles(t, device, time, s, cs, oom).queue.first == s.queue.first
    decreases |cs|
  {
    hide FlushCycle, SentBy, FateOf;
    if |cs| > 0 {
      var c := cs[0];
      FlushCycleCorrect(t, device, time, s, c, oom(c.id));
      FateFront(t, device, time, s, FlushCycle(t, device, time, s, c, oom(c.id)), c, oom(c.id));
      FlushFront(t, device, time, FlushCycle(t, device, time, s, c, oom(c.id)), cs[1..], oom);
    }
  }

  lemma {:induction false} NewTimes(n: nat, k: nat, time: nat)
    ensures forall i | 0 <= i < k :: NewBirths(n, k, time)[i].time == time
    decreases k
  {
    if k > 0 {
      NewTimes(n + 1, k - 1, time);
    }
  }

  /** Only response `i` of the front list is touched. */
  predicate FrontTouched(q: Queue, q': Queue, bs: seq<Birth>, bs': seq<Birth>, i: nat) {
    && q'.last == q.last && i < |q.first| <= |bs|
    && ((bs' == bs && |q'.first| == |q.first|) || (bs' == bs[..i] + bs[i + 1..] && |q'.first| == |q.first| - 1))
  }

  /** A reply word: either only the front list is touched, or no back list is left. */
  lemma AnswerFrontOrAll(q: Queue, size: nat, address: nat, value: nat, bs: seq<Birth>)
    requires QueueOk(q) && |bs| == |Fifo(q)|
    ensures AllOk(Fifo(q))
    ensures var q', bs' := WriteConfig(q, size, address, value), AnswerBirths(Fifo(q), size, address, value, bs);
            |q'.first| == |bs'| || exists i: nat :: FrontTouched(q, q', bs, bs', i)
  {
    hide FrontTouched, AnswerBirths, WriteConfig, Fifo, Find;
    WriteConfigRefines(q, size, address, value);
    var i := Find(q.first, ReturnAddress(address));
    if i < |q.first| {
      AnswerInFront(q, size, address, value, bs, i);
    } else {
      AnswerAll(q, size, address, value, bs);
    }
  }

  lemma AnswerInFront(q: Queue, size: nat, address: nat, value: nat, bs: seq<Birth>, i: nat)
    requires QueueOk(q) && |bs| == |Fifo(q)| && AllOk(Fifo(q)) && i < |q.first| && i == Find(q.first, ReturnAddress(address))
    ensures FrontTouched(q, WriteConfig(q, size, address, value), bs, AnswerBirths(Fifo(q), size, address, value, bs), i)
  {
    hide Answer, ReturnAddress, Finished, DoneBy, Find;
    FindAppend(q.first, Reverse(q.last), ReturnAddress(address));
    assert Fifo(q)[i] == q.first[i];
  }

  lemma AnswerAll(q: Queue, size: nat, address: nat, value: nat, bs: seq<Birth>)
    requires QueueOk(q) && |bs| == |Fifo(q)| && AllOk(Fifo(q)) && Find(q.first, ReturnAddress(address)) == |q.first|
    ensures |WriteConfig(q, size, address, value).first| == |AnswerBirths(Fifo(q), size, address, value, bs)|
  {
    hide Answer, ReturnAddress, Finished, DoneBy, Find;
    ReverseOk(q.last);
  }

  // One step keeps everything punctual.

  /** The look takes all that is due, unless it takes the whole front list. */
  lemma DueTaken(l: Library, now: nat, bs: seq<Birth>, n: nat)
    requires LibraryOk(l) && Chronicle(l, bs, n, true) && Punctual(l, bs)
    requires Asked(l.queue) && l.clock <= now <= l.clock + 0x8000 && now + 5 < WORD32
    ensures l.clock < WORD32 && |bs| == |Fifo(l.queue)| && |l.queue.first| <= |bs|
    ensures var k := ExpiredCount(l.queue.first, l.clock, now);
            && k <= |l.queue.first| && (forall i | 0 <= i < k :: DueTime(bs[i]) <= now)
            && (k < |l.queue.first| ==> forall i | k <= i < |bs| :: DueTime(bs[i]) > now)
  {
    ChronicleSays(l, bs, n, true);
    FrontFirst(l.queue);
    ClockFits(l);
    hide ExpiredCount, LibraryOk, Claim, Fifo, Aged;
    var first := l.queue.first;
    var due := seq(|first|, i requires 0 <= i < |first| => DueTime(bs[i]));
    ExpireExact(first, due, l.clock, now);
    var k := ExpiredCount(first, l.clock, now);
    if k < |first| {
      assert !(due[k] <= now);
      forall i | k <= i < |bs| ensures DueTime(bs[i]) > now {
        assert bs[k].time <= bs[i].time;
      }
    }
    forall i | 0 <= i < k ensures DueTime(bs[i]) <= now {
      assert due[i] <= now;
    }
  }

  lemma CheckPunctual(l: Library, now: nat, bs: seq<Birth>, n: nat)
    requires LibraryOk(l) && Possible(l, CheckTime(now)) && Chronicle(l, bs, n, true) && Punctual(l, bs) && PacedCall(l, CheckTime(now))
    ensures Punctual(Next(l, CheckTime(now)), StepBirths(l, CheckTime(now), bs, n))
    ensures var k := ExpiredCount(l.queue.first, l.clock, now);
            && k <= |bs| && (forall i | 0 <= i < k :: DueTime(bs[i]) <= now)
            && (k < |l.queue.first| ==> forall i | k <= i < |bs| :: DueTime(bs[i]) > now)
  {
    DueTaken(l, now, bs, n);
    hide ExpiredCount, LibraryOk, Chronicle, Fifo;
    if |l.queue.first| == 0 {
      NoneWaits(l.queue);
    }
  }

  lemma NoneWaits(q: Queue)
    requires |q.first| == 0 && |q.last| == 0
    ensures Fifo(q) == []
  {
  }

  lemma FlushPunctual(l: Library, step: Step, bs: seq<Birth>, n: nat)
    requires LibraryOk(l) && Possible(l, step) && Chronicle(l, bs, n, true) && Punctual(l, bs) && step.FlushDevice?
    ensures Punctual(Next(l, step), StepBirths(l, step, bs, n))
  {
    hide Transport.Ok, FlushCycles, Reverse, Fifo, Aged, Claim, Short, QueueState, NewBirths;
    var d := l.devices[step.device];
    ShortReverse(d.ready);
    FlushFront(d.t, step.device, l.clock, SenderOf(l), Reverse(d.ready), step.noMemory);
    NewTimes(n, Issues(l, step), l.clock);
    hide Issues;
  }

  lemma ReplyPunctual(l: Library, step: Step, bs: seq<Birth>, n: nat)
    requires LibraryOk(l) && Possible(l, step) && Chronicle(l, bs, n, true) && Punctual(l, bs) && step.Reply?
    ensures Punctual(Next(l, step), StepBirths(l, step, bs, n))
  {
    hide *;
    ReplyIs(l, step, bs, n);
    ChronicleSays(l, bs, n, true);
    var l', bs' := Next(l, step), StepBirths(l, step, bs, n);
    AnswerFrontOrAll(l.queue, step.size, step.address, step.value, bs);
    AnswerSome(Fifo(l.queue), step.size, step.address, step.value, bs);
    if |l'.queue.first| == |bs'| {
      StillPunctual(l, l', bs, bs');
    } else {
      var i: nat :| FrontTouched(l.queue, l'.queue, bs, bs', i);
      FrontPunctual(l, l', bs, bs', i);
    }
  }

  lemma ReplyIs(l: Library, step: Step, bs: seq<Birth>, n: nat)
    requires LibraryOk(l) && Possible(l, step) && step.Reply?
    ensures QueueOk(l.queue) && AllOk(Fifo(l.queue)) && Next(l, step).clock == l.clock
    ensures Next(l, step).queue == WriteConfig(l.queue, step.size, step.address, step.value)
    ensures StepBirths(l, step, bs, n) == AnswerBirths(Fifo(l.queue), step.size, step.address, step.value, bs)
  {
    WriteConfigRefines(l.queue, step.size, step.address, step.value);
    hide WriteConfig, Fifo, AnswerBirths, LibraryOk;
  }

  lemma FrontPunctual(l: Library, l': Library, bs: seq<Birth>, bs': seq<Birth>, i: nat)
    requires Punctual(l, bs) && l'.clock == l.clock && FrontTouched(l.queue, l'.queue, bs, bs', i)
    ensures Punctual(l', bs')
  {
    if bs' != bs {
      forall k | 0 <= k < |bs'| ensures bs'[k] == bs[if k < i then k else k + 1] {
      }
    }
  }

  lemma AnswerSome(rs: seq<Response>, size: nat, address: nat, value: nat, bs: seq<Birth>)
    requires AllOk(rs)
    ensures forall b | b in AnswerBirths(rs, size, address, value, bs) :: b in bs
  {
    hide Find, Answer, Finished;
  }

  lemma KillPunctual(l: Library, step: Step, bs: seq<Birth>, n: nat)
    requires LibraryOk(l) && Possible(l, step) && Chronicle(l, bs, n, true) && Punctual(l, bs) && step.CloseDevice?
    ensures Punctual(Next(l, step), StepBirths(l, step, bs, n))
  {
    hide *;
    DeviceIn(l, step);
    if l.devices[step.device].unready == 0 && !l.devices[step.device].passive {
      StepAges(l, step, bs, n, true);
      ChronicleSays(Next(l, step), StepBirths(l, step, bs, n), n + Issues(l, step), true);
      KilledFront(l, step);
      KillBirths(l, step, bs, n);
      StillPunctual(l, Next(l, step), bs, StepBirths(l, step, bs, n));
    } else {
      NoneKilled(l, step, bs, n);
    }
  }

  lemma DeviceIn(l: Library, step: Step)
    requires LibraryOk(l) && Possible(l, step) && step.CloseDevice?
    ensures step.device < |l.devices|
  {}

  lemma KillBirths(l: Library, step: Step, bs: seq<Birth>, n: nat)
    requires LibraryOk(l) && Possible(l, step) && Chronicle(l, bs, n, true) && step.CloseDevice?
    ensures forall i | 0 <= i < |StepBirths(l, step, bs, n)| :: StepBirths(l, step, bs, n)[i] in bs
  {
    hide LibraryOk, Fifo, SelectBirths;
    var bs' := StepBirths(l, step, bs, n);
    forall i | 0 <= i < |bs'| ensures bs'[i] in bs {
      assert bs'[i] in bs';
    }
  }

  lemma StillPunctual(l: Library, l': Library, bs: seq<Birth>, bs': seq<Birth>)
    requires Punctual(l, bs) && l'.clock == l.clock && |l'.queue.first| == |bs'| && forall i | 0 <= i < |bs'| :: bs'[i] in bs
    ensures Punctual(l', bs')
  {}

  lemma NoneKilled(l: Library, step: Step, bs: seq<Birth>, n: nat)
    requires LibraryOk(l) && Possible(l, step) && Punctual(l, bs) && step.CloseDevice? && step.device < |l.devices|
    requires l.devices[step.device].unready != 0 || l.devices[step.device].passive
    ensures Punctual(Next(l, step), StepBirths(l, step, bs, n))
  {
    hide LibraryOk, Transport.Ok, Reverse, QueueState, Select;
  }

  lemma KilledFront(l: Library, step: Step)
    requires LibraryOk(l) && Possible(l, step) && step.CloseDevice? && l.devices[step.device].unready == 0 && !l.devices[step.device].passive
    ensures |Next(l, step).queue.first| == |Fifo(Next(l, step).queue)| && Next(l, step).clock == l.clock
  {
    hide Transport.Ok, Short, Select, Timeouts, KilledAll, QueueState;
    var q := Next(l, step).queue;
    assert Reverse(q.last) == [] && Fifo(q) == q.first;
  }

  lemma TurnPunctual(l: Library, bs: seq<Birth>, n: nat)
    requires LibraryOk(l) && Chronicle(l, bs, n, true) && Punctual(l, bs)
    ensures Punctual(Next(l, AskTimeout), bs)
  {
    ChronicleSays(l, bs, n, true);
    if |l.queue.first| == 0 {
      TurnedAll(l.queue);
    }
    hide LibraryOk, Fifo, Chronicle;
  }

  lemma TurnedAll(q: Queue)
    requires |q.first| == 0
    ensures |Turned(q).first| == |Fifo(q)|
  {
  }

  lemma PunctualStep(l: Library, step: Step, bs: seq<Birth>, n: nat)
    requires LibraryOk(l) && Possible(l, step) && Chronicle(l, bs, n, true) && Punctual(l, bs) && PacedCall(l, step)
    ensures Punctual(Next(l, step), StepBirths(l, step, bs, n))
  {
    match step
    case CheckTime(now) => CheckPunctual(l, now, bs, n);
    case FlushDevice(_, _) => FlushPunctual(l, step, bs, n);
    case Reply(_, _, _) => ReplyPunctual(l, step, bs, n);
    case AskTimeout => TurnPunctual(l, bs, n);
    case CloseDevice(_) => KillPunctual(l, step, bs, n);
    case _ => OtherPunctual(l, step, bs, n);
  }

  lemma OtherPunctual(l: Library, step: Step, bs: seq<Birth>, n: nat)
    requires LibraryOk(l) && Possible(l, step) && Punctual(l, bs)
    requires step.OpenDevice? || step.Open? || step.Fill? || step.Close? || step.Abort?
    ensures Punctual(Next(l, step), StepBirths(l, step, bs, n))
  {
    hide Transport.Ok, Reverse, Short, QueueState;
  }

  // Over runs.

  /** What a caller has to keep to: every check of the clock comes right after asking for the next deadline, at
      most 32768 seconds after the last one, and not at the end of the 32 bits. */
  predicate Paced(steps: seq<Step>, clock: nat, asked: bool)
    decreases |steps|
  {
    |steps| == 0 ||
    if steps[0].CheckTime? then
      asked && clock <= steps[0].now <= clock + 0x8000 && steps[0].now + 5 < WORD32 && Paced(steps[1..], steps[0].now, false)
    else
      Paced(steps[1..], clock, steps[0].AskTimeout?)
  }

  lemma AskedNext(l: Library, step: Step)
    requires LibraryOk(l) && Possible(l, step)
    ensures step.AskTimeout? ==> Asked(Next(l, step).queue)
    ensures Next(l, step).clock == if step.CheckTime? then step.now else l.clock
  {
    hide Transport.Ok, WriteConfig, FlushCycles, KillInflight, Expire, Turned, KilledAll, Short, Reverse, QueueState, Asked, LibraryOk;
    AskingAsks(l.queue);
  }

  lemma {:induction false} PunctualRun(l: Library, steps: seq<Step>, bs: seq<Birth>, n: nat, asked: bool)
    requires LibraryOk(l) && Runs(l, steps) && Chronicle(l, bs, n, true) && Punctual(l, bs)
    requires Paced(steps, l.clock, asked) && (asked ==> Asked(l.queue))
    ensures Timely(l, steps) && Punctual(After(l, steps), RunBirths(l, steps, bs, n))
    decreases |steps|
  {
    hide LibraryOk, Possible, Next, Chronicle, Issues, StepBirths, Punctual, Asked;
    if |steps| > 0 {
      PunctualStep(l, steps[0], bs, n);
      StepAges(l, steps[0], bs, n, true);
      AskedNext(l, steps[0]);
      PunctualRun(Next(l, steps[0]), steps[1..], StepBirths(l, steps[0], bs, n), n + Issues(l, steps[0]), steps[0].AskTimeout?);
    }
  }

  lemma NothingLate()
    ensures LibraryOk(INITIAL) && Chronicle(INITIAL, [], 0, true) && Punctual(INITIAL, []) && INITIAL.clock == 0
  {
    NothingBorn(true);
  }

  /** After a paced run nothing is overdue by more than the deadline can tell. */
  lemma PunctualFromStart(steps: seq<Step>)
    requires Runs(INITIAL, steps) && Paced(steps, 0, false)
    ensures Timely(INITIAL, steps) && Punctual(After(INITIAL, steps), Births(steps))
    ensures Chronicle(After(INITIAL, steps), Births(steps), Issued(INITIAL, steps), true)
  {
    NothingLate();
    hide Runs, After, RunBirths, Issued, Timely, Punctual, Chronicle, LibraryOk, Paced;
    PunctualRun(INITIAL, steps, [], 0, false);
    FromStart(steps, true);
  }

  /** After a paced run the next look at the clock takes exactly the responses of the front list that are due. */
  lemma ExpirePaced(steps: seq<Step>, now: nat)
    requires Runs(INITIAL, steps) && Paced(steps, 0, false)
    ensures var l, due := After(INITIAL, steps), Due(steps);
            && |l.queue.first| <= |due|
            && forall i | 0 <= i < |l.queue.first| :: i < ExpiredCount(l.queue.first, l.clock, now) <==> due[i] <= now
  {
    hide *;
    NothingLate();
    PunctualFromStart(steps);
    PunctualSays(After(INITIAL, steps), Births(steps));
    ExpireInRun(steps, now);
  }

  lemma PunctualSays(l: Library, bs: seq<Birth>)
    requires Punctual(l, bs)
    ensures l.clock + 5 < WORD32 && forall i | 0 <= i < |bs| :: l.clock <= bs[i].time + 5 + 0x8000
  {}

  /** No waiting response is due. */
  ghost predicate NoneDue(due: seq<nat>, now: nat) {
    forall i | 0 <= i < |due| :: due[i] > now
  }

  /** After a run with a clock that does not go back, and with a front list that is not too late, the next look
      at the clock leaves no due response behind exactly if the back list is empty or its oldest response is
      not due. */
  lemma AllDueLeaveIff(steps: seq<Step>, now: nat)
    requires Runs(INITIAL, steps) && Timely(INITIAL, steps) && After(INITIAL, steps).clock + 5 < WORD32
    requires var l, due := After(INITIAL, steps), Due(steps); |l.queue.first| > 0 && |due| > 0 ==> l.clock <= due[0] + 0x8000
    ensures var l, due := After(INITIAL, steps), Due(steps);
            var n := ExpiredCount(l.queue.first, l.clock, now);
            && n <= |l.queue.first| <= |due| == |Fifo(l.queue)| && Fifo(Expire(l.queue, l.clock, now)) == Fifo(l.queue)[n..]
            && (NoneDue(due[n..], now) <==> |l.queue.first| == |due| || due[|l.queue.first|] > now)
  {
    hide *;
    NothingLate();
    DueInOrder(steps);
    ExpireInRun(steps, now);
    var l, due := After(INITIAL, steps), Due(steps);
    ClockFits(l);
    ExpiredFront(l.queue, l.clock, now);
    var f, n := |l.queue.first|, ExpiredCount(l.queue.first, l.clock, now);
    NoneDueIff(due, n, f, now);
  }

  lemma ExpiredFront(q: Queue, clock: nat, now: nat)
    requires clock < WORD32
    ensures ExpiredCount(q.first, clock, now) <= |q.first| <= |Fifo(q)|
    ensures Fifo(Expire(q, clock, now)) == Fifo(q)[ExpiredCount(q.first, clock, now)..]
  {
    hide ExpiredCount;
    assert Fifo(Expire(q, clock, now)) == Fifo(q)[ExpiredCount(q.first, clock, now)..];
  }

  lemma NoneDueIff(due: seq<nat>, n: nat, f: nat, now: nat)
    requires n <= f <= |due| && (forall i, j | 0 <= i < j < |due| :: due[i] <= due[j])
    requires f > 0 ==> forall i | 0 <= i < f :: i < n <==> due[i] <= now
    ensures NoneDue(due[n..], now) <==> f == |due| || due[f] > now
  {
    if NoneDue(due[n..], now) && f < |due| {
      assert due[n..][f - n] == due[f];
    }
    if f == |due| || due[f] > now {
      forall i | 0 <= i < |due[n..]| ensures due[n..][i] > now {
        assert due[n..][i] == due[n + i];
      }
    }
  }

  // Asking and checking twice.

  lemma {:induction false} RunsOn(l: Library, a: seq<Step>, b: seq<Step>, bs: seq<Birth>, n: nat)
    requires LibraryOk(l) && Runs(l, a) && Runs(After(l, a), b)
    ensures Runs(l, a + b) && After(l, a + b) == After(After(l, a), b)
    ensures RunBirths(l, a + b, bs, n) == RunBirths(After(l, a), b, RunBirths(l, a, bs, n), n + Issued(l, a))
    decreases |a|
  {
    hide Next, Possible, LibraryOk, StepBirths, Issues;
    if |a| == 0 {
      assert a + b == b;
    } else {
      assert (a + b)[1..] == a[1..] + b;
      RunsOn(Next(l, a[0]), a[1..], b, StepBirths(l, a[0], bs, n), n + Issues(l, a[0]));
    }
  }

  /** Asking for the deadline and checking the clock. */
  function Look(now: nat): seq<Step> {
    [AskTimeout, CheckTime(now)]
  }

  lemma LookIs(l: Library, now: nat, bs: seq<Birth>, n: nat)
    requires LibraryOk(l) && now < WORD32
    ensures Possible(l, AskTimeout) && Possible(Next(l, AskTimeout), CheckTime(now)) && Runs(l, Look(now)) && Issued(l, Look(now)) == 0
    ensures After(l, Look(now)) == Next(Next(l, AskTimeout), CheckTime(now))
    ensures RunBirths(l, Look(now), bs, n) == StepBirths(Next(l, AskTimeout), CheckTime(now), bs, n)
  {
    hide Next, LibraryOk, ExpireBirths, Fifo;
    var mid, last := Next(l, AskTimeout), [CheckTime(now)];
    assert Look(now)[1..] == last && last[1..] == [];
    RunOne(mid, CheckTime(now));
    assert Issued(mid, last) == Issues(mid, CheckTime(now)) + Issued(Next(mid, CheckTime(now)), last[1..]);
    assert RunBirths(mid, last, bs, n) == StepBirths(mid, CheckTime(now), bs, n);
  }

  /** One look: afterwards nothing is due, or the front list is empty. */
  lemma OneLook(l: Library, now: nat, bs: seq<Birth>, n: nat)
    requires LibraryOk(l) && Chronicle(l, bs, n, true) && Punctual(l, bs) && l.clock <= now <= l.clock + 0x8000 && now + 5 < WORD32
    ensures now < WORD32 && Runs(l, Look(now))
    ensures var l', bs' := After(l, Look(now)), RunBirths(l, Look(now), bs, n);
            && Chronicle(l', bs', n, true) && Punctual(l', bs') && l'.clock == now
            && (|l'.queue.first| == 0 || forall i | 0 <= i < |bs'| :: DueTime(bs'[i]) > now)
            && (|l.queue.first| == 0 ==> forall i | 0 <= i < |bs'| :: DueTime(bs'[i]) > now)
  {
    hide *;
    LookIs(l, now, bs, n);
    var mid := Next(l, AskTimeout);
    TurnPunctual(l, bs, n);
    AskedNext(l, AskTimeout);
    MidChronicle(l, bs, n);
    PacedIs(mid, now);
    CheckPunctual(mid, now, bs, n);
    MidAges(mid, now, bs, n);
    ExpiredAre(mid, now, bs, n);
    if |l.queue.first| == 0 {
      TurnedWhole(l, bs, n);
    }
    var k := ExpiredCount(mid.queue.first, mid.clock, now);
    var bs' := bs[k..];
    forall i | 0 <= i < |bs'| ensures bs'[i] == bs[k + i] {}
  }

  lemma MidChronicle(l: Library, bs: seq<Birth>, n: nat)
    requires LibraryOk(l) && Chronicle(l, bs, n, true)
    ensures Chronicle(Next(l, AskTimeout), bs, n, true) && Next(l, AskTimeout).clock == l.clock
  {
    hide Turned, Fifo, Aged, Claim, LibraryOk;
    TurnedSame(l.queue);
  }

  lemma PacedIs(l: Library, now: nat)
    requires Asked(l.queue) && l.clock <= now <= l.clock + 0x8000 && now + 5 < WORD32
    ensures PacedCall(l, CheckTime(now)) && Possible(l, CheckTime(now))
  {}

  lemma MidAges(l: Library, now: nat, bs: seq<Birth>, n: nat)
    requires LibraryOk(l) && Possible(l, CheckTime(now)) && Chronicle(l, bs, n, true) && l.clock <= now
    ensures Chronicle(Next(l, CheckTime(now)), StepBirths(l, CheckTime(now), bs, n), n, true)
  {
    StepAges(l, CheckTime(now), bs, n, true);
    hide Chronicle, StepBirths, LibraryOk;
  }

  lemma ExpiredAre(l: Library, now: nat, bs: seq<Birth>, n: nat)
    requires LibraryOk(l) && Possible(l, CheckTime(now)) && ExpiredCount(l.queue.first, l.clock, now) <= |bs|
    ensures var k := ExpiredCount(l.queue.first, l.clock, now);
            && k <= |l.queue.first| && StepBirths(l, CheckTime(now), bs, n) == bs[k..]
            && Next(l, CheckTime(now)).clock == now && |Next(l, CheckTime(now)).queue.first| == |l.queue.first| - k
  {
    hide ExpiredCount, Timeouts, LibraryOk;
  }

  lemma TurnedWhole(l: Library, bs: seq<Birth>, n: nat)
    requires LibraryOk(l) && Chronicle(l, bs, n, true) && |l.queue.first| == 0
    ensures |Next(l, AskTimeout).queue.first| == |bs|
  {
    ChronicleSays(l, bs, n, true);
    TurnedAll(l.queue);
    hide Fifo, LibraryOk, Chronicle;
  }

  /** After a paced run, asking for the deadline and checking the clock twice leaves no due response. */
  lemma TwoLooks(steps: seq<Step>, now: nat)
    requires Runs(INITIAL, steps) && Paced(steps, 0, false)
    requires After(INITIAL, steps).clock <= now <= After(INITIAL, steps).clock + 0x8000 && now + 5 < WORD32
    ensures var all := steps + (Look(now) + Look(now)); Runs(INITIAL, all) && NoneDue(Due(all), now)
  {
    hide *;
    NothingLate();
    PunctualFromStart(steps);
    var l, bs, n := After(INITIAL, steps), Births(steps), Issued(INITIAL, steps);
    OneLook(l, now, bs, n);
    LookIs(l, now, bs, n);
    var l1, bs1 := After(l, Look(now)), RunBirths(l, Look(now), bs, n);
    OneLook(l1, now, bs1, n);
    LookIs(l1, now, bs1, n);
    SecondLook(l1, now, bs1, n);
    RunsOn(l, Look(now), Look(now), bs, n);
    RunsOn(INITIAL, steps, Look(now) + Look(now), [], 0);
    BirthsAre(steps);
    BirthsAre(steps + (Look(now) + Look(now)));
    assert n + 0 == n && 0 + n == n;
    DueNone(steps + (Look(now) + Look(now)), now);
  }

  lemma BirthsAre(steps: seq<Step>)
    requires Runs(INITIAL, steps)
    ensures LibraryOk(INITIAL) && Births(steps) == RunBirths(INITIAL, steps, [], 0)
  {
    NothingLate();
    hide RunBirths, Runs, LibraryOk;
  }

  /** The second look takes what the first left in the back list. */
  lemma SecondLook(l: Library, now: nat, bs: seq<Birth>, n: nat)
    requires LibraryOk(l) && Chronicle(l, bs, n, true) && Punctual(l, bs) && l.clock == now && now + 5 < WORD32
    requires |l.queue.first| == 0 || forall i | 0 <= i < |bs| :: DueTime(bs[i]) > now
    ensures Runs(l, Look(now)) && forall i | 0 <= i < |RunBirths(l, Look(now), bs, n)| :: DueTime(RunBirths(l, Look(now), bs, n)[i]) > now
  {
    hide *;
    OneLook(l, now, bs, n);
    if |l.queue.first| > 0 {
      LookIs(l, now, bs, n);
      var mid := Next(l, AskTimeout);
      MidChronicle(l, bs, n);
      TurnPunctual(l, bs, n);
      AskedNext(l, AskTimeout);
      PacedIs(mid, now);
      CheckPunctual(mid, now, bs, n);
      ExpiredAre(mid, now, bs, n);
    }
  }

  lemma DueNone(steps: seq<Step>, now: nat)
    requires Runs(INITIAL, steps) && forall i | 0 <= i < |Births(steps)| :: DueTime(Births(steps)[i]) > now
    ensures NoneDue(Due(steps), now)
  {
    hide Births, Runs;
  }
}
