/**
 Runs that show what fails: short ones, and one that is long enough for the return addresses to come round.
 */
module Cases {
  import opened Words
  import opened Lanes
  import opened Operations
  import opened Packer
  import opened Responses
  import opened Delivery
  import opened Wire
  import opened Flush
  import opened Packets
  import opened SocketDevice
  import opened Lifecycle
  import opened Ages
  import opened Fates
  import opened Expiry

  /** A stream with 32-bit words, and an access to its first word. */
  const STREAM := Transport(Port(4, 4), 0)

  function Asking(write: bool): Request {
    Request(write, false, 0, 0, 0x0F)
  }

  function Access(write: bool): Operation {
    Operation(write, false, 0, 0, 4, Auto, false)
  }

  lemma Accessible(write: bool)
    ensures STREAM.Ok() && Check(STREAM.port, Asking(write)) == Accepted(Access(write))
  {
    var r := Asking(write);
    CheckCorrect(STREAM.port, r);
    WidthOption(STREAM.port, r.format, 4);
    assert Small(4) & r.format != 0;
    assert OperationSize(STREAM.port, r.format) == 4;
    assert Pow256(4) == 0x1_0000_0000 by { Pow256Values(); }
    hide OperationSize, Pow256, LargestCommonWidth;
  }

  lemma Validated(write: bool)
    ensures STREAM.Ok() && Validate(STREAM.port, [Asking(write)], 0) == Valid([Access(write)])
  {
    Accessible(write);
    hide Check;
    var reqs := [Asking(write)];
    assert Validate(STREAM.port, reqs, 1) == Valid([]);
    assert [Access(write)] + [] == [Access(write)];
  }

  /** One stream device that has nothing to do. */
  ghost predicate Idle(l: Library) {
    l.devices == [Device(STREAM, [], 0, false, false)] && l.open == map[]
  }

  /** A cycle with one operation is filled and closed. */
  function Round(id: nat, write: bool, checked: bool): seq<Step> {
    [Open(0, false), Fill(id, Asking(write), false), Close(id, checked)]
  }

  function Ready(l: Library, write: bool, checked: bool): Library {
    l.(devices := [Device(STREAM, [QueuedCycle(l.nextId, [Asking(write)], false, checked)], 0, false, false)], nextId := l.nextId + 1)
  }

  function Opened(l: Library): Library {
    l.(devices := [Device(STREAM, [], 1, false, false)], open := map[l.nextId := OpenCycle(0, [], false)], nextId := l.nextId + 1)
  }

  function Filled(l: Library, write: bool): Library {
    Opened(l).(open := map[l.nextId := OpenCycle(0, [Asking(write)], false)])
  }

  lemma OpenedIs(l: Library)
    requires LibraryOk(l) && Idle(l)
    ensures Possible(l, Open(0, false)) && Next(l, Open(0, false)) == Opened(l)
  {
    hide Transport.Ok, Short, QueueState;
  }

  lemma FilledIs(l: Library, write: bool)
    requires LibraryOk(Opened(l))
    ensures Possible(Opened(l), Fill(l.nextId, Asking(write), false))
    ensures Next(Opened(l), Fill(l.nextId, Asking(write), false)) == Filled(l, write)
  {
    hide Transport.Ok, Short, QueueState;
    assert [Asking(write)] + [] == [Asking(write)];
  }

  lemma ClosedIs(l: Library, write: bool, checked: bool)
    requires LibraryOk(Filled(l, write))
    ensures Possible(Filled(l, write), Close(l.nextId, checked))
    ensures Next(Filled(l, write), Close(l.nextId, checked)) == Ready(l, write, checked).(open := map[])
  {
    hide Transport.Ok, Short, QueueState;
    var c := QueuedCycle(l.nextId, [Asking(write)], false, checked);
    assert Reverse([Asking(write)]) == [Asking(write)];
    assert [c] + [] == [c];
  }

  lemma RoundIs(l: Library, write: bool, checked: bool)
    requires LibraryOk(l) && Idle(l)
    ensures Runs(l, Round(l.nextId, write, checked)) && After(l, Round(l.nextId, write, checked)) == Ready(l, write, checked)
  {
    OpenedIs(l);
    FilledIs(l, write);
    ClosedIs(l, write, checked);
    hide Next, LibraryOk, Possible;
    var id := l.nextId;
    var steps := Round(id, write, checked);
    assert steps[1..] == [Fill(id, Asking(write), false), Close(id, checked)] && steps[1..][1..] == [Close(id, checked)];
    RunOne(Filled(l, write), Close(id, checked));
  }

  /** The response of such a cycle. */
  function Waiting(l: Library, id: nat, write: bool, checked: bool): Response {
    NewResponse(Cycle(id, 0, [Access(write)]), l.rba, Deadline(l.clock), checked)
  }

  const FLUSH := FlushDevice(0, (id: nat) => false)

  /** Flushing it: it is sent, and its response waits. */
  lemma FlushIs(l: Library, write: bool, checked: bool)
    requires LibraryOk(Ready(l, write, checked)) && (!write || checked)
    ensures Possible(Ready(l, write, checked), FLUSH)
    ensures var l' := Next(Ready(l, write, checked), FLUSH);
            && l'.devices == [Device(STREAM, [], 0, false, false)] && l'.open == l.open && l'.nextId == l.nextId + 1 && l'.clock == l.clock
            && l'.aborted == l.aborted
            && l'.queue == Enqueue(l.queue, Waiting(l, l.nextId, write, checked)) && l'.rba == NextRba(l.rba)
  {
    var c := QueuedCycle(l.nextId, [Asking(write)], false, checked);
    FateWaits(l, c, write);
    OneFlushed(l, c);
    NextFlush(Ready(l, write, checked), c);
    hide *;
  }

  lemma OneFlushed(l: Library, c: QueuedCycle)
    requires STREAM.Ok() && SenderOk(STREAM, SenderOf(l)) && |c.requests| < NO_LIMIT
    ensures Reverse([c]) == [c] && Short([c])
    ensures FlushCycles(STREAM, 0, l.clock, SenderOf(l), [c], FLUSH.noMemory) == FlushCycle(STREAM, 0, l.clock, SenderOf(l), c, false)
  {
    hide FlushCycle;
    assert [c][1..] == [];
  }

  lemma NextFlush(l: Library, c: QueuedCycle)
    requires LibraryOk(l) && l.devices == [Device(STREAM, [c], 0, false, false)] && STREAM.Ok() && SenderOk(STREAM, SenderOf(l)) && Short([c])
    requires Reverse([c]) == [c]
    ensures Possible(l, FLUSH)
    ensures var s := FlushCycles(STREAM, 0, l.clock, SenderOf(l), [c], FLUSH.noMemory);
            Next(l, FLUSH) == l.(devices := [Device(STREAM, [], 0, false, false)], queue := s.queue, rba := s.rba)
  {
    hide Transport.Ok, Short, QueueState, FlushCycles, Reverse;
  }

  lemma FateWaits(l: Library, c: QueuedCycle, write: bool)
    requires c == QueuedCycle(l.nextId, [Asking(write)], false, c.checked) && (!write || c.checked) && l.rba % 2 == 0 && 0x8000 <= l.rba < 0x1_0000
    ensures STREAM.Ok() && SenderOk(STREAM, SenderOf(l))
    ensures var out := FlushCycle(STREAM, 0, l.clock, SenderOf(l), c, false);
            out.queue == Enqueue(l.queue, Waiting(l, l.nextId, write, c.checked)) && out.rba == NextRba(l.rba)
  {
    Validated(write);
    hide Validate, FlushCycle, NewResponse, NextRba, SentBy, Check;
    FlushCycleCorrect(STREAM, 0, l.clock, SenderOf(l), c, false);
    var ops := CycleOf(STREAM, c);
    assert ops == [Access(write)];
    assert ops[0].write == write && !ops[0].config;
  }

  // A faulty write.

  /** A device is opened, and one cycle of one operation is closed on it. */
  function Start(write: bool, checked: bool): seq<Step> {
    [OpenDevice(STREAM, false)] + Round(0, write, checked)
  }

  function Begun(write: bool, checked: bool): Library {
    Ready(INITIAL, write, checked)
  }

  lemma StartIs(write: bool, checked: bool)
    ensures LibraryOk(INITIAL) && Runs(INITIAL, Start(write, checked)) && After(INITIAL, Start(write, checked)) == Begun(write, checked)
  {
    NothingTold();
    Accessible(write);
    var l := INITIAL.(devices := [Device(STREAM, [], 0, false, false)]);
    DeviceIs();
    RoundIs(l, write, checked);
    hide Next, Possible, Round, Ready;
    assert Start(write, checked)[1..] == Round(0, write, checked);
  }

  lemma DeviceIs()
    requires STREAM.Ok()
    ensures Possible(INITIAL, OpenDevice(STREAM, false)) && LibraryOk(INITIAL)
    ensures Next(INITIAL, OpenDevice(STREAM, false)) == INITIAL.(devices := [Device(STREAM, [], 0, false, false)])
  {
    assert [] + [Device(STREAM, [], 0, false, false)] == [Device(STREAM, [], 0, false, false)];
  }

  /** The library when the first cycle has been flushed. */
  function Sent(write: bool, checked: bool): Library {
    INITIAL.(devices := [Device(STREAM, [], 0, false, false)], nextId := 1,
             queue := Queue([], [Waiting(INITIAL, 0, write, checked)], []), rba := 0x8002)
  }

  lemma SentIs(write: bool, checked: bool)
    requires !write || checked
    ensures LibraryOk(INITIAL) && Runs(INITIAL, Start(write, checked) + [FLUSH])
    ensures After(INITIAL, Start(write, checked) + [FLUSH]) == Sent(write, checked)
  {
    hide *;
    StartIs(write, checked);
    BegunIs(write, checked);
    FlushIs(INITIAL, write, checked);
    FirstSent(write, checked, Next(Begun(write, checked), FLUSH));
    Then(Start(write, checked), Begun(write, checked), FLUSH);
  }

  lemma BegunIs(write: bool, checked: bool)
    ensures Begun(write, checked) == Ready(INITIAL, write, checked)
  {}

  lemma FirstSent(write: bool, checked: bool, l: Library)
    requires l.devices == [Device(STREAM, [], 0, false, false)] && l.open == INITIAL.open && l.nextId == INITIAL.nextId + 1
    requires l.clock == INITIAL.clock && l.aborted == INITIAL.aborted && l.rba == NextRba(INITIAL.rba)
    requires l.queue == Enqueue(INITIAL.queue, Waiting(INITIAL, INITIAL.nextId, write, checked))
    ensures l == Sent(write, checked)
  {
    hide Waiting;
    var r := Waiting(INITIAL, 0, write, checked);
    assert [r] + [] == [r];
  }

  /** One more call at the end of a run. */
  lemma Then(steps: seq<Step>, l: Library, step: Step)
    requires LibraryOk(INITIAL) && Runs(INITIAL, steps) && After(INITIAL, steps) == l && Possible(l, step)
    ensures Runs(INITIAL, steps + [step]) && After(INITIAL, steps + [step]) == Next(l, step)
  {
    hide Next, Possible, LibraryOk;
    RunOne(l, step);
    RunsOn(INITIAL, steps, [step], [], 0);
  }

  const FAULT := Reply(4, 0x8001, 1)

  /** The status word of the first cycle says that its write failed. */
  lemma FaultIs(l: Library)
    requires l == Sent(true, true) && LibraryOk(l)
    ensures Possible(l, FAULT) && Next(l, FAULT).queue.log == [Done(0, 0, SEGFAULT, Operations([Access(true).(error := true)]))]
  {
    var r := Waiting(INITIAL, 0, true, true);
    var op := Access(true);
    FaultMarks(r);
    hide Answer, Transport.Ok, Short, QueueState;
    assert Reverse([r]) == [r] && [] + [r] == [r];
    assert Find([r], 0x8000) == 0 && ReturnAddress(0x8001) == 0x8000;
    assert HasError([op.(error := true)]) by { assert [op.(error := true)][0].error; }
  }

  lemma FaultMarks(r: Response)
    requires r == Waiting(INITIAL, 0, true, true)
    ensures ResponseOk(r) && r.address == 0x8000
    ensures Answer(r, 4, 0x8001, 1) == (r.(cycle := r.cycle.(ops := [Access(true).(error := true)]), sc := 1), false)
    ensures r.wc == 1 && r.cycle == Cycle(0, 0, [Access(true)])
  {
    var ops := [Access(true)];
    assert FindRead(ops, 1) == 1 && FindRead(ops, 0) == 1 && FindBus(ops, 0) == 0;
    assert CountBus(ops, 1, 31) == 0 && CountBus(ops, 0, 32) == 1;
    var marked := ops[0 := ops[0].(error := true)];
    assert marked == [Access(true).(error := true)];
    assert Bit(1, 0);
    assert AssignErrors(marked, 1, 0, 1) == (marked, 1);
    assert AssignErrors(ops, 0, 1, 1) == (marked, 1);
    assert FindBus(marked, 1) == 1;
  }

  /** A cycle that was sent and whose status is not OK: the remote side reports a fault. */
  lemma SentNotOk()
    ensures var run := Start(true, true) + [FLUSH] + [FAULT];
            && Runs(INITIAL, run) && |After(INITIAL, run).queue.log| == 1
            && After(INITIAL, run).queue.log[0].status == SEGFAULT && 0 in RunSends(INITIAL, run)
  {
    hide *;
    SentIs(true, true);
    FaultIs(Sent(true, true));
    Then(Start(true, true) + [FLUSH], Sent(true, true), FAULT);
    var run := Start(true, true) + [FLUSH] + [FAULT];
    var d := After(INITIAL, run).queue.log[0];
    SentIff(run, 0);
    FaultTells(d, FlushedAfter(run, d.id, d.device));
  }

  lemma FaultTells(d: Done, flushed: bool)
    requires d.status == SEGFAULT
    ensures Tells(d, flushed)
  {}

  /** The library with one device and nothing else. */
  function Alone(): Library {
    INITIAL.(devices := [Device(STREAM, [], 0, false, false)])
  }

  lemma AloneIs()
    ensures LibraryOk(INITIAL) && Runs(INITIAL, [OpenDevice(STREAM, false)]) && After(INITIAL, [OpenDevice(STREAM, false)]) == Alone()
    ensures LibraryOk(Alone()) && Idle(Alone())
  {
    NothingTold();
    Accessible(true);
    DeviceIs();
    RunOne(INITIAL, OpenDevice(STREAM, false));
    hide Next, Possible, LibraryOk;
  }

  function Emptied(): Library {
    Alone().(devices := [Device(STREAM, [QueuedCycle(0, [], false, false)], 0, false, false)], nextId := 1)
  }

  lemma CloseEmpty()
    requires LibraryOk(Opened(Alone()))
    ensures Possible(Opened(Alone()), Close(0, true)) && Next(Opened(Alone()), Close(0, true)) == Emptied()
  {
    hide Transport.Ok, Short, QueueState;
    var c := QueuedCycle(0, [], false, false);
    assert Reverse<Request>([]) == [] && [c] + [] == [c];
  }

  lemma FlushEmpty()
    requires LibraryOk(Emptied())
    ensures Possible(Emptied(), FLUSH) && Next(Emptied(), FLUSH).queue.log == [Done(0, 0, OK, NoOperations)]
  {
    var c := QueuedCycle(0, [], false, false);
    var l := Emptied();
    Accessible(true);
    OneFlushed(l, c);
    NextFlush(l, c);
    hide Next, LibraryOk, FlushCycles, Possible;
    assert l.queue.log + [Done(0, 0, OK, NoOperations)] == [Done(0, 0, OK, NoOperations)];
  }

  lemma EmptyRun()
    ensures var run := [OpenDevice(STREAM, false), Open(0, false), Close(0, true), FLUSH];
            LibraryOk(INITIAL) && Runs(INITIAL, run) && After(INITIAL, run).queue.log == [Done(0, 0, OK, NoOperations)]
  {
    hide *;
    AloneIs();
    OpenedIs(Alone());
    Then([OpenDevice(STREAM, false)], Alone(), Open(0, false));
    CloseEmpty();
    Then([OpenDevice(STREAM, false)] + [Open(0, false)], Opened(Alone()), Close(0, true));
    FlushEmpty();
    Then([OpenDevice(STREAM, false)] + [Open(0, false)] + [Close(0, true)], Emptied(), FLUSH);
    assert [OpenDevice(STREAM, false)] + [Open(0, false)] + [Close(0, true)] + [FLUSH]
        == [OpenDevice(STREAM, false), Open(0, false), Close(0, true), FLUSH];
  }

  /** A cycle without operations: its status is OK although nothing was sent. */
  lemma OkNotSent()
    ensures var run := [OpenDevice(STREAM, false), Open(0, false), Close(0, true), FLUSH];
            && Runs(INITIAL, run) && |After(INITIAL, run).queue.log| == 1
            && After(INITIAL, run).queue.log[0].status == OK && 0 !in RunSends(INITIAL, run)
  {
    hide *;
    var run := [OpenDevice(STREAM, false), Open(0, false), Close(0, true), FLUSH];
    NothingTold();
    EmptyRun();
    var d := After(INITIAL, run).queue.log[0];
    SentIff(run, 0);
    EmptyTells(d, FlushedAfter(run, d.id, d.device));
  }

  lemma EmptyTells(d: Done, flushed: bool)
    requires d.status == OK && d.view == NoOperations
    ensures !Tells(d, flushed)
  {}

  // A response that nobody gives up.

  lemma LateIs(l: Library)
    requires l == Sent(false, false) && LibraryOk(l)
    ensures Possible(l, CheckTime(100)) && Next(l, CheckTime(100)) == l.(clock := 100)
    ensures forall bs: seq<Birth>, n: nat :: StepBirths(l, CheckTime(100), bs, n) == bs
  {
    hide Waiting, Transport.Ok, Short, QueueState;
    assert ExpiredCount(l.queue.first, 0, 100) == 0;
    assert Timeouts(l.queue.first[..0]) == [] && l.queue.log + [] == l.queue.log;
  }

  lemma StartPaced(write: bool, checked: bool)
    ensures Paced(Start(write, checked) + [FLUSH], 0, false)
  {
    var open, fill, close := Open(0, false), Fill(0, Asking(write), false), Close(0, checked);
    var last := [close] + [FLUSH];
    PacedBefore(FLUSH, []);
    PacedBefore(close, [FLUSH]);
    PacedBefore(fill, last);
    PacedBefore(open, [fill] + last);
    PacedBefore(OpenDevice(STREAM, false), [open] + ([fill] + last));
    assert [FLUSH] + [] == [FLUSH];
    assert Start(write, checked) == [OpenDevice(STREAM, false)] + [open, fill, close];
    assert [open, fill, close] + [FLUSH] == [open] + ([fill] + last);
    Regroup([OpenDevice(STREAM, false)], [open, fill, close], [FLUSH]);
  }

  lemma PacedBefore(step: Step, rest: seq<Step>)
    requires !step.CheckTime? && !step.AskTimeout? && Paced(rest, 0, false)
    ensures Paced([step] + rest, 0, false)
  {
    assert ([step] + rest)[1..] == rest;
  }

  lemma OneWaits(write: bool, checked: bool)
    ensures |Fifo(Sent(write, checked).queue)| == 1 && Fifo(Sent(write, checked).queue)[0].deadline == 5 && Sent(write, checked).clock == 0
  {
    var r := Waiting(INITIAL, 0, write, checked);
    assert Reverse([r]) == [r];
  }

  /** A read that is never answered, sent at second 0 and due at second 5: a look at the clock at second 100
      leaves it waiting, because it still is in the back list. */
  lemma DueLeftBehind()
    ensures var run := Start(false, false) + [FLUSH] + [CheckTime(100)];
            && Runs(INITIAL, run) && After(INITIAL, run).clock == 100 && |Fifo(After(INITIAL, run).queue)| == 1 && Due(run) == [5]
  {
    hide *;
    var steps := Start(false, false) + [FLUSH];
    SentIs(false, false);
    StartPaced(false, false);
    PunctualFromStart(steps);
    DueInOrder(steps);
    OneWaits(false, false);
    DueFive(Due(steps));
    LateIs(Sent(false, false));
    Then(steps, Sent(false, false), CheckTime(100));
    SameBirths(steps, Sent(false, false), CheckTime(100));
    DueBirths(steps, steps + [CheckTime(100)]);
  }

  lemma DueFive(due: seq<nat>)
    requires |due| == 1 && due[0] % 0x1_0000 == 5 && due[0] <= 5
    ensures due == [5]
  {}

  lemma SameBirths(steps: seq<Step>, l: Library, step: Step)
    requires LibraryOk(INITIAL) && Runs(INITIAL, steps) && After(INITIAL, steps) == l && LibraryOk(l) && Possible(l, step)
    requires forall bs: seq<Birth>, n: nat :: StepBirths(l, step, bs, n) == bs
    ensures Runs(INITIAL, steps + [step]) && Births(steps + [step]) == Births(steps)
  {
    hide *;
    RunOne(l, step);
    RunsOn(INITIAL, steps, [step], [], 0);
    BirthsAre(steps);
    BirthsAre(steps + [step]);
    OneBirths(l, step, RunBirths(INITIAL, steps, [], 0), 0 + Issued(INITIAL, steps));
  }

  lemma OneBirths(l: Library, step: Step, bs: seq<Birth>, n: nat)
    requires LibraryOk(l) && Possible(l, step) && Runs(l, [step])
    ensures RunBirths(l, [step], bs, n) == StepBirths(l, step, bs, n)
  {
    hide Next, Possible, LibraryOk, StepBirths, Issues;
    assert [step][1..] == [];
  }

  lemma DueBirths(a: seq<Step>, b: seq<Step>)
    requires Runs(INITIAL, a) && Runs(INITIAL, b) && Births(a) == Births(b)
    ensures Due(a) == Due(b)
  {
    hide Births, Runs;
  }

  // A cycle that is shown its own index.

  function Dead(): Library {
    Opened(Alone()).(open := map[0 := OpenCycle(0, [], true)])
  }

  function DeadReady(): Library {
    Alone().(devices := [Device(STREAM, [QueuedCycle(0, [], true, false)], 0, false, false)], nextId := 1)
  }

  lemma DeadIs()
    requires LibraryOk(Opened(Alone()))
    ensures Possible(Opened(Alone()), Fill(0, Asking(true), true)) && Next(Opened(Alone()), Fill(0, Asking(true), true)) == Dead()
  {
    hide Transport.Ok, Short, QueueState;
  }

  lemma DeadClosed()
    requires LibraryOk(Dead())
    ensures Possible(Dead(), Close(0, true)) && Next(Dead(), Close(0, true)) == DeadReady()
  {
    hide Transport.Ok, Short, QueueState;
    var c := QueuedCycle(0, [], true, false);
    assert Reverse<Request>([]) == [] && [c] + [] == [c];
  }

  lemma DeadKilled()
    requires LibraryOk(DeadReady())
    ensures Possible(DeadReady(), CloseDevice(0)) && Next(DeadReady(), CloseDevice(0)).queue.log == [Done(0, 0, TIMEOUT, OwnIndex)]
  {
    hide Transport.Ok, Short, QueueState;
    var c := QueuedCycle(0, [], true, false);
    assert Reverse([c]) == [c] && [c][1..] == [];
    assert KilledAll(0, [c]) == [Killed(0, c)] + [] == [Done(0, 0, TIMEOUT, OwnIndex)];
    assert Fifo(DeadReady().queue) == [];
    assert KillInflight(DeadReady().queue, 0).log == [];
  }

  /** Memory runs out while a cycle is filled, and its device is closed before it is flushed. */
  lemma OwnIndexShown()
    ensures var run := [OpenDevice(STREAM, false), Open(0, false), Fill(0, Asking(true), true), Close(0, true), CloseDevice(0)];
            LibraryOk(INITIAL) && Runs(INITIAL, run) && After(INITIAL, run).queue.log == [Done(0, 0, TIMEOUT, OwnIndex)]
  {
    hide *;
    AloneIs();
    OpenedIs(Alone());
    Then([OpenDevice(STREAM, false)], Alone(), Open(0, false));
    DeadIs();
    Then([OpenDevice(STREAM, false)] + [Open(0, false)], Opened(Alone()), Fill(0, Asking(true), true));
    DeadClosed();
    Then([OpenDevice(STREAM, false)] + [Open(0, false)] + [Fill(0, Asking(true), true)], Dead(), Close(0, true));
    DeadKilled();
    Then([OpenDevice(STREAM, false)] + [Open(0, false)] + [Fill(0, Asking(true), true)] + [Close(0, true)], DeadReady(), CloseDevice(0));
    assert [OpenDevice(STREAM, false)] + [Open(0, false)] + [Fill(0, Asking(true), true)] + [Close(0, true)] + [CloseDevice(0)]
        == [OpenDevice(STREAM, false), Open(0, false), Fill(0, Asking(true), true), Close(0, true), CloseDevice(0)];
  }

  // Return addresses that come round.

  /** Reads that are sent and never answered. */
  function Rounds(id: nat, n: nat): (steps: seq<Step>)
    decreases n
  {
    if n == 0 then [] else Round(id, false, false) + [FLUSH] + Rounds(id + 1, n - 1)
  }

  /** All reads so far still wait, each at the address of its turn. */
  ghost predicate AllWait(l: Library) {
    && Idle(l) && l.rba == Claim(l.nextId) && |Fifo(l.queue)| == l.nextId
    && forall i: nat | i < l.nextId :: Fifo(l.queue)[i].address == Claim(i)
  }

  lemma RoundWaits(l: Library)
    requires LibraryOk(l) && AllWait(l)
    ensures var steps := Round(l.nextId, false, false) + [FLUSH];
            && Runs(l, steps) && AllWait(After(l, steps)) && After(l, steps).nextId == l.nextId + 1
  {
    hide *;
    var steps, id := Round(l.nextId, false, false), l.nextId;
    IsIdle(l);
    RoundIs(l, false, false);
    FlushIs(l, false, false);
    RunOne(Ready(l, false, false), FLUSH);
    RunsOn(l, steps, [FLUSH], [], 0);
    AddressFits(l);
    MoreWait(l, After(l, steps + [FLUSH]));
  }

  lemma AddressFits(l: Library)
    requires AllWait(l)
    ensures l.rba < 0x1_0000
  {}

  lemma IsIdle(l: Library)
    requires AllWait(l)
    ensures Idle(l)
  {}

  lemma MoreWait(l: Library, l': Library)
    requires AllWait(l) && l'.devices == [Device(STREAM, [], 0, false, false)] && l'.open == l.open && l'.nextId == l.nextId + 1
    requires l'.queue == Enqueue(l.queue, Waiting(l, l.nextId, false, false)) && l.rba < 0x1_0000 && l'.rba == NextRba(l.rba)
    ensures AllWait(l')
  {
    hide Claim, NextRba, Fifo, NewResponse;
    var r := Waiting(l, l.nextId, false, false);
    EnqueueIsLast(l.queue, r);
    NextClaim(l.nextId);
    ResponseBorn(Cycle(l.nextId, 0, [Access(false)]), l.rba, Deadline(l.clock), false);
  }

  lemma {:induction false} RoundsWait(l: Library, n: nat)
    requires LibraryOk(l) && AllWait(l)
    ensures Runs(l, Rounds(l.nextId, n)) && AllWait(After(l, Rounds(l.nextId, n))) && After(l, Rounds(l.nextId, n)).nextId == l.nextId + n
    decreases n
  {
    hide Next, Possible, LibraryOk, AllWait, Round;
    if n > 0 {
      var steps := Round(l.nextId, false, false) + [FLUSH];
      RoundWaits(l);
      RoundsWait(After(l, steps), n - 1);
      RunsOn(l, steps, Rounds(l.nextId + 1, n - 1), [], 0);
    }
  }

  /** After 16385 reads without an answer, the first and the last response wait at the same return address. */
  lemma AddressesClash()
    ensures var run := [OpenDevice(STREAM, false)] + Rounds(0, 0x4001);
            && LibraryOk(INITIAL) && Runs(INITIAL, run)
            && var rs := Fifo(After(INITIAL, run).queue); |rs| == 0x4001 && rs[0].address == rs[0x4000].address
  {
    hide *;
    AloneIs();
    AloneWaits();
    RoundsWait(Alone(), 0x4001);
    RunsOn(INITIAL, [OpenDevice(STREAM, false)], Rounds(0, 0x4001), [], 0);
    Clash(After(Alone(), Rounds(0, 0x4001)));
  }

  lemma AloneWaits()
    ensures AllWait(Alone()) && Alone().nextId == 0
  {
    assert Fifo(Alone().queue) == [];
  }

  lemma Clash(l: Library)
    requires AllWait(l) && l.nextId == 0x4001
    ensures |Fifo(l.queue)| == 0x4001 && Fifo(l.queue)[0].address == Fifo(l.queue)[0x4000].address
  {
    hide Claim, Fifo;
    SharedAddressIff(0, 0x4000);
  }
}
