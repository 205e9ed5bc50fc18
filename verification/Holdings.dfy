/**
 What the library takes from its pool and gives back, over whole runs: cycles, their operations, and responses.
 */
module Holdings {
  import opened Words
  import opened Operations
  import opened Packer
  import opened Responses
  import opened Delivery
  import opened Wire
  import opened Flush
  import opened Packets
  import opened SocketDevice
  import opened Lifecycle
  import Memory

  /** What a cell of the pool is taken for: a cycle, the operation that was queued as number `k`, or the
      response that waits for a cycle. */
  datatype Piece = OfCycle(id: nat) | OfOperation(id: nat, k: nat) | OfResponse(id: nat)

  datatype Move = Take(piece: Piece) | Give(piece: Piece)

  // Pieces that the library refers to.

  /** Whether a cycle with n operations holds the piece, counted. */
  function Holds(id: nat, n: nat, x: Piece): nat {
    if x.id == id && (x.OfCycle? || (x.OfOperation? && x.k < n)) then 1 else 0
  }

  function ReadyHolds(cs: seq<QueuedCycle>, x: Piece): nat {
    if |cs| == 0 then 0 else Holds(cs[0].id, |cs[0].requests|, x) + ReadyHolds(cs[1..], x)
  }

  function ResponseHolds(r: Response, x: Piece): nat {
    if x == OfResponse(r.cycle.id) then 1 else Holds(r.cycle.id, |r.cycle.ops|, x)
  }

  function ResponsesHold(rs: seq<Response>, x: Piece): nat {
    if |rs| == 0 then 0 else ResponseHolds(rs[0], x) + ResponsesHold(rs[1..], x)
  }

  function DevicesHold(devices: seq<Device>, x: Piece): nat {
    if |devices| == 0 then 0 else ReadyHolds(devices[0].ready, x) + DevicesHold(devices[1..], x)
  }

  function OpenHolds(open: map<nat, OpenCycle>, x: Piece): nat {
    if x.id in open then Holds(x.id, |open[x.id].requests|, x) else 0
  }

  /** In how many places the library refers to the piece. */
  function Held(l: Library, x: Piece): nat {
    OpenHolds(l.open, x) + DevicesHold(l.devices, x) + ResponsesHold(Fifo(l.queue), x)
  }

  // Taking and giving back.

  /** Seen from one piece, which is held once or not at all: it is only taken while it is not held, and only
      given back while it is. */
  predicate Legal(moves: seq<Move>, x: Piece, held: nat) {
    |moves| == 0 ||
    if moves[0].piece != x then Legal(moves[1..], x, held)
    else if moves[0].Take? then held == 0 && Legal(moves[1..], x, 1)
    else held == 1 && Legal(moves[1..], x, 0)
  }

  /** Whether it is held afterwards. */
  function Outcome(moves: seq<Move>, x: Piece, held: nat): nat {
    if |moves| == 0 then held
    else if moves[0].piece != x then Outcome(moves[1..], x, held)
    else Outcome(moves[1..], x, if moves[0].Take? then 1 else 0)
  }

  /** The moves are legal, and change what is held from `a` to `b`. */
  predicate Leads(moves: seq<Move>, x: Piece, a: nat, b: nat) {
    Legal(moves, x, a) && Outcome(moves, x, a) == b
  }

  lemma {:induction false} LeadsOn(a: seq<Move>, b: seq<Move>, x: Piece, n: nat, m: nat, k: nat)
    requires Leads(a, x, n, m) && Leads(b, x, m, k)
    ensures Leads(a + b, x, n, k)
    decreases |a|
  {
    if |a| == 0 {
      assert a + b == b;
    } else {
      assert (a + b)[1..] == a[1..] + b;
      LeadsOn(a[1..], b, x, if a[0].piece != x then n else if a[0].Take? then 1 else 0, m, k);
    }
  }

  lemma LeadsOne(move: Move, x: Piece, n: nat)
    requires move.piece == x ==> if move.Take? then n == 0 else n == 1
    ensures Leads([move], x, n, if move.piece != x then n else if move.Take? then 1 else 0)
  {
    assert [move][1..] == [];
  }

  function Count(pieces: seq<Piece>, x: Piece): nat {
    if |pieces| == 0 then 0 else (if pieces[0] == x then 1 else 0) + Count(pieces[1..], x)
  }

  lemma {:induction false} CountConcat(a: seq<Piece>, b: seq<Piece>, x: Piece)
    ensures Count(a + b, x) == Count(a, x) + Count(b, x)
  {
    if |a| == 0 {
      assert a + b == b;
    } else {
      assert (a + b)[1..] == a[1..] + b;
      CountConcat(a[1..], b, x);
    }
  }

  lemma CountOne(p: Piece, x: Piece)
    ensures Count([p], x) == if p == x then 1 else 0
  {
    assert [p][1..] == [];
  }

  lemma {:induction false} CountReverse(pieces: seq<Piece>, x: Piece)
    ensures Count(Reverse(pieces), x) == Count(pieces, x)
  {
    if |pieces| > 0 {
      CountReverse(pieces[1..], x);
      CountConcat(Reverse(pieces[1..]), [pieces[0]], x);
      CountOne(pieces[0], x);
    }
  }

  function Gives(pieces: seq<Piece>): seq<Move> {
    if |pieces| == 0 then [] else [Give(pieces[0])] + Gives(pieces[1..])
  }

  /** Giving back what is held, each piece once. */
  lemma {:induction false} GivesLead(pieces: seq<Piece>, x: Piece, n: nat)
    requires Count(pieces, x) <= n <= 1
    ensures Leads(Gives(pieces), x, n, n - Count(pieces, x))
  {
    if |pieces| > 0 {
      assert Gives(pieces)[1..] == Gives(pieces[1..]);
      GivesLead(pieces[1..], x, if pieces[0] == x then 0 else n);
    }
  }

  /** The operations of a cycle, oldest first. */
  function OpPieces(id: nat, n: nat): seq<Piece> {
    if n == 0 then [] else OpPieces(id, n - 1) + [OfOperation(id, n - 1)]
  }

  /** A cycle that is closed: its operations are given back oldest first, then itself. */
  function CyclePieces(id: nat, n: nat): seq<Piece> {
    OpPieces(id, n) + [OfCycle(id)]
  }

  lemma {:induction false} OpsCount(id: nat, n: nat, x: Piece)
    ensures Count(OpPieces(id, n), x) == if x.OfOperation? && x.id == id && x.k < n then 1 else 0
  {
    if n > 0 {
      OpsCount(id, n - 1, x);
      CountConcat(OpPieces(id, n - 1), [OfOperation(id, n - 1)], x);
      CountOne(OfOperation(id, n - 1), x);
    }
  }

  lemma CycleCount(id: nat, n: nat, x: Piece)
    ensures Count(CyclePieces(id, n), x) == Holds(id, n, x)
    ensures Count(Reverse(OpPieces(id, n)) + [OfCycle(id)], x) == Holds(id, n, x)
    ensures Count(Reverse(OpPieces(id, n)), x) == Count(OpPieces(id, n), x)
    ensures Count(CyclePieces(id, n) + [OfResponse(id)], x) == Holds(id, n, x) + if x == OfResponse(id) then 1 else 0
  {
    OpsCount(id, n, x);
    CountReverse(OpPieces(id, n), x);
    CountOne(OfCycle(id), x);
    CountOne(OfResponse(id), x);
    CountConcat(OpPieces(id, n), [OfCycle(id)], x);
    CountConcat(Reverse(OpPieces(id, n)), [OfCycle(id)], x);
    CountConcat(CyclePieces(id, n), [OfResponse(id)], x);
  }

  function ResponsePieces(r: Response): seq<Piece> {
    CyclePieces(r.cycle.id, |r.cycle.ops|) + [OfResponse(r.cycle.id)]
  }

  function AllResponsePieces(rs: seq<Response>): seq<Piece> {
    if |rs| == 0 then [] else ResponsePieces(rs[0]) + AllResponsePieces(rs[1..])
  }

  function AllCyclePieces(cs: seq<QueuedCycle>): seq<Piece> {
    if |cs| == 0 then [] else CyclePieces(cs[0].id, |cs[0].requests|) + AllCyclePieces(cs[1..])
  }

  lemma ResponseCount(r: Response, x: Piece)
    ensures Count(ResponsePieces(r), x) == ResponseHolds(r, x)
  {
    CycleCount(r.cycle.id, |r.cycle.ops|, x);
  }

  lemma {:induction false} ResponsesCount(rs: seq<Response>, x: Piece)
    ensures Count(AllResponsePieces(rs), x) == ResponsesHold(rs, x)
  {
    hide ResponsePieces, ResponseHolds;
    if |rs| > 0 {
      ResponseCount(rs[0], x);
      ResponsesCount(rs[1..], x);
      CountConcat(ResponsePieces(rs[0]), AllResponsePieces(rs[1..]), x);
    }
  }

  lemma {:induction false} CyclesCount(cs: seq<QueuedCycle>, x: Piece)
    ensures Count(AllCyclePieces(cs), x) == ReadyHolds(cs, x)
  {
    hide CyclePieces, Holds;
    if |cs| > 0 {
      CycleCount(cs[0].id, |cs[0].requests|, x);
      CyclesCount(cs[1..], x);
      CountConcat(CyclePieces(cs[0].id, |cs[0].requests|), AllCyclePieces(cs[1..]), x);
    }
  }

  // What each call takes and gives back.

  /** Flushing one cycle. A cycle that is tried first gets a response, and gives it back with everything else
      if nothing will come back. */
  function CycleMoves(t: Transport, rba: nat, c: QueuedCycle, oom: bool): seq<Move>
    requires t.Ok() && |c.requests| < NO_LIMIT && rba % 2 == 0 && rba < 0x1_0000
  {
    if c.dead || |c.requests| == 0 then [Give(OfCycle(c.id))]
    else if !Packs(t, c, oom) then Gives(CyclePieces(c.id, |c.requests|))
    else if Accepts(t, rba, c, oom) && NeedsReply(CycleOf(t, c), c.checked) then [Take(OfResponse(c.id))]
    else [Take(OfResponse(c.id))] + Gives(CyclePieces(c.id, |c.requests|) + [OfResponse(c.id)])
  }

  function FlushMoves(t: Transport, device: nat, time: nat, s: Sender, cs: seq<QueuedCycle>, oom: nat -> bool): seq<Move>
    requires t.Ok() && SenderOk(t, s) && |s.cur| == 0 && Short(cs)
    decreases |cs|
  {
    if |cs| == 0 then [] else
      CycleMoves(t, s.rba, cs[0], oom(cs[0].id))
      + FlushMoves(t, device, time, FlushCycle(t, device, time, s, cs[0], oom(cs[0].id)), cs[1..], oom)
  }

  /** A reply word gives everything back that belongs to the cycle it completes. */
  function ReplyMoves(rs: seq<Response>, size: nat, address: nat, value: nat): seq<Move>
    requires AllOk(rs)
  {
    var i := Find(rs, ReturnAddress(address));
    if i < |rs| && (var a := Answer(rs[i], size, address, value); Finished(a.0, a.1)) then Gives(ResponsePieces(rs[i])) else []
  }

  /** One call. An operation for a cycle that ran out of memory before, and a cycle for a device that takes none,
      are taken and given back at once. */
  function Moves(l: Library, step: Step): seq<Move>
    requires LibraryOk(l) && Possible(l, step)
  {
    match step
    case Open(device, oom) =>
      if oom then []
      else if l.devices[device].passive then [Take(OfCycle(l.nextId)), Give(OfCycle(l.nextId))]
      else [Take(OfCycle(l.nextId))]
    case Fill(id, _, oom) =>
      var c := l.open[id];
      if oom then Gives(Reverse(OpPieces(id, |c.requests|)))
      else if c.dead then [Take(OfOperation(id, 0)), Give(OfOperation(id, 0))]
      else [Take(OfOperation(id, |c.requests|))]
    case Abort(id) => Gives(Reverse(OpPieces(id, |l.open[id].requests|)) + [OfCycle(id)])
    case FlushDevice(device, noMemory) =>
      var d := l.devices[device];
      assert SenderOk(d.t, SenderOf(l));
      ShortReverse(d.ready);
      FlushMoves(d.t, device, l.clock, SenderOf(l), Reverse(d.ready), noMemory)
    case Reply(size, address, value) =>
      WriteConfigRefines(l.queue, size, address, value);
      ReplyMoves(Fifo(l.queue), size, address, value)
    case CheckTime(now) => Gives(AllResponsePieces(l.queue.first[..ExpiredCount(l.queue.first, l.clock, now)]))
    case CloseDevice(device) =>
      var d := l.devices[device];
      if d.unready != 0 || d.passive then []
      else Gives(AllResponsePieces(Select(Fifo(l.queue), device, true))) + Gives(AllCyclePieces(Reverse(d.ready)))
    case _ => []
  }

  // A piece is held at most once.

  lemma {:induction false} ReadyBound(cs: seq<QueuedCycle>, x: Piece)
    ensures ReadyHolds(cs, x) <= InCycles(cs, x.id) && (x.OfResponse? ==> ReadyHolds(cs, x) == 0)
  {
    if |cs| > 0 {
      ReadyBound(cs[1..], x);
    }
  }

  lemma {:induction false} ResponsesBound(rs: seq<Response>, x: Piece)
    ensures ResponsesHold(rs, x) <= InResponses(rs, x.id)
  {
    if |rs| > 0 {
      ResponsesBound(rs[1..], x);
    }
  }

  lemma {:induction false} DevicesBound(devices: seq<Device>, x: Piece)
    ensures DevicesHold(devices, x) <= InReady(devices, x.id) && (x.OfResponse? ==> DevicesHold(devices, x) == 0)
  {
    if |devices| > 0 {
      ReadyBound(devices[0].ready, x);
      DevicesBound(devices[1..], x);
    }
  }

  lemma HeldOnce(l: Library, x: Piece)
    requires OnePlaceEach(l)
    ensures Held(l, x) <= 1 && OpenHolds(l.open, x) <= (if x.id in l.open then 1 else 0)
    ensures DevicesHold(l.devices, x) <= InReady(l.devices, x.id) && ResponsesHold(Fifo(l.queue), x) <= InResponses(Fifo(l.queue), x.id)
    ensures (if x.id in l.open then 1 else 0) + InReady(l.devices, x.id) + InResponses(Fifo(l.queue), x.id) <= if x.id < l.nextId then 1 else 0
  {
    DevicesBound(l.devices, x);
    ResponsesBound(Fifo(l.queue), x);
    assert Places(l, x.id) == if x.id < l.nextId then 1 else 0;
  }

  lemma {:induction false} ReadyConcat(a: seq<QueuedCycle>, b: seq<QueuedCycle>, x: Piece)
    ensures ReadyHolds(a + b, x) == ReadyHolds(a, x) + ReadyHolds(b, x)
  {
    if |a| == 0 {
      assert a + b == b;
    } else {
      ReadyConcat(a[1..], b, x);
      assert (a + b)[1..] == a[1..] + b;
    }
  }

  lemma {:induction false} ReadyReverse(cs: seq<QueuedCycle>, x: Piece)
    ensures ReadyHolds(Reverse(cs), x) == ReadyHolds(cs, x)
  {
    if |cs| > 0 {
      ReadyReverse(cs[1..], x);
      ReadyConcat(Reverse(cs[1..]), [cs[0]], x);
      assert [cs[0]][1..] == [];
    }
  }

  lemma {:induction false} ResponsesConcat(a: seq<Response>, b: seq<Response>, x: Piece)
    ensures ResponsesHold(a + b, x) == ResponsesHold(a, x) + ResponsesHold(b, x)
  {
    hide ResponseHolds;
    if |a| == 0 {
      assert a + b == b;
    } else {
      ResponsesConcat(a[1..], b, x);
      assert (a + b)[1..] == a[1..] + b;
    }
  }

  lemma OneResponse(r: Response, x: Piece)
    ensures ResponsesHold([r], x) == ResponseHolds(r, x)
  {
    assert [r][1..] == [];
  }

  lemma {:induction false} SelectHolds(rs: seq<Response>, device: nat, x: Piece)
    ensures ResponsesHold(Select(rs, device, true), x) + ResponsesHold(Select(rs, device, false), x) == ResponsesHold(rs, x)
  {
    hide ResponseHolds;
    if |rs| > 0 {
      SelectHolds(rs[1..], device, x);
      var mine := rs[0].cycle.device == device;
      assert ([rs[0]] + Select(rs[1..], device, mine))[1..] == Select(rs[1..], device, mine);
    }
  }

  lemma {:induction false} DevicesUpdate(devices: seq<Device>, i: nat, d: Device, x: Piece)
    requires i < |devices|
    ensures DevicesHold(devices[i := d], x) + ReadyHolds(devices[i].ready, x) == DevicesHold(devices, x) + ReadyHolds(d.ready, x)
  {
    if i == 0 {
      assert devices[0 := d][1..] == devices[1..];
    } else {
      DevicesUpdate(devices[1..], i - 1, d, x);
      assert devices[i := d][1..] == devices[1..][i - 1 := d];
    }
  }

  lemma {:induction false} DevicesAppend(devices: seq<Device>, d: Device, x: Piece)
    ensures DevicesHold(devices + [d], x) == DevicesHold(devices, x) + ReadyHolds(d.ready, x)
  {
    if |devices| == 0 {
      assert (devices + [d])[1..] == [];
    } else {
      DevicesAppend(devices[1..], d, x);
      assert (devices + [d])[1..] == devices[1..] + [d];
    }
  }

  // One call.

  /** A cycle that ran out of memory has given its operations back. */
  predicate Starved(cs: seq<QueuedCycle>) {
    forall k | 0 <= k < |cs| && cs[k].dead :: cs[k].requests == []
  }

  ghost predicate DeadEmpty(l: Library) {
    && (forall id | id in l.open && l.open[id].dead :: l.open[id].requests == [])
    && forall i | 0 <= i < |l.devices| :: Starved(l.devices[i].ready)
  }

  lemma {:induction false} StarvedReverse(cs: seq<QueuedCycle>)
    requires Starved(cs)
    ensures Starved(Reverse(cs))
  {
    if |cs| > 0 {
      StarvedReverse(cs[1..]);
    }
  }

  lemma DeadEmptyKept(l: Library, step: Step)
    requires LibraryOk(l) && Possible(l, step) && DeadEmpty(l)
    ensures DeadEmpty(Next(l, step))
  {
    hide Transport.Ok, WriteConfig, FlushCycles, KillInflight, Expire, Turned, KilledAll, Short, QueueState;
    if step.Close? {
      assert l.open[step.id].requests == [] ==> Reverse(l.open[step.id].requests) == [];
    }
  }

  /** Whether a cycle waits for its reply after the flush. */
  predicate Awaits(t: Transport, rba: nat, c: QueuedCycle, oom: bool)
    requires t.Ok() && |c.requests| < NO_LIMIT && rba % 2 == 0 && rba < 0x1_0000
  {
    Accepts(t, rba, c, oom) && NeedsReply(CycleOf(t, c), c.checked)
  }

  /** Whether a cycle and its response hold the piece, counted. */
  function HoldsAll(id: nat, n: nat, x: Piece): nat {
    if x == OfResponse(id) then 1 else Holds(id, n, x)
  }

  /** Flushing one cycle, which is held once or not at all and has no response yet. */
  lemma CycleLeads(t: Transport, rba: nat, c: QueuedCycle, oom: bool, x: Piece, held: nat)
    requires t.Ok() && |c.requests| < NO_LIMIT && rba % 2 == 0 && rba < 0x1_0000
    requires Starved([c]) && Holds(c.id, |c.requests|, x) <= held <= 1 && (x == OfResponse(c.id) ==> held == 0)
    ensures Leads(CycleMoves(t, rba, c, oom), x, held,
                  held - Holds(c.id, |c.requests|, x) + if Awaits(t, rba, c, oom) then HoldsAll(c.id, |c.requests|, x) else 0)
  {
    hide Accepts, NeedsReply, Validate, CycleOf, CyclePieces, Legal, Outcome, Gives, Leads, Starved;
    var n := |c.requests|;
    CycleCount(c.id, n, x);
    StarvedOne(c);
    if c.dead || n == 0 {
      LeadsOne(Give(OfCycle(c.id)), x, held);
    } else if !Packs(t, c, oom) {
      GivesLead(CyclePieces(c.id, n), x, held);
    } else {
      LeadsOne(Take(OfResponse(c.id)), x, held);
      if !Awaits(t, rba, c, oom) {
        var taken := if x == OfResponse(c.id) then 1 else held;
        GivesLead(CyclePieces(c.id, n) + [OfResponse(c.id)], x, taken);
        LeadsOn([Take(OfResponse(c.id))], Gives(CyclePieces(c.id, n) + [OfResponse(c.id)]), x, held, taken, held - Holds(c.id, n, x));
      }
    }
  }

  lemma FateHolds(t: Transport, device: nat, time: nat, s: Sender, out: Sender, c: QueuedCycle, oom: bool, x: Piece)
    requires t.Ok() && |c.requests| < NO_LIMIT && s.rba % 2 == 0 && s.rba < 0x1_0000 && FateOf(t, device, time, s, out, c, oom)
    ensures ResponsesHold(Fifo(out.queue), x)
         == ResponsesHold(Fifo(s.queue), x) + if Awaits(t, s.rba, c, oom) then HoldsAll(c.id, |c.requests|, x) else 0
    ensures InResponses(Fifo(out.queue), x.id) <= InResponses(Fifo(s.queue), x.id) + if c.id == x.id then 1 else 0
  {
    hide Accepts, NeedsReply, Validate, FlushStatus, FlushShows, Fifo, CycleOf, FindRead, FindBus;
    if Awaits(t, s.rba, c, oom) {
      var r := NewResponse(Cycle(c.id, device, CycleOf(t, c)), s.rba, Deadline(time), c.checked);
      EnqueueIsLast(s.queue, r);
      ResponsesConcat(Fifo(s.queue), [r], x);
      InResponsesConcat(Fifo(s.queue), [r], x.id);
      OneResponse(r, x);
      assert [r][1..] == [];
    } else {
      SameFifo(s.queue, out.queue);
    }
  }

  lemma StarvedOne(c: QueuedCycle)
    requires Starved([c])
    ensures c.dead ==> |c.requests| == 0
  {
    assert [c][0] == c;
  }

  lemma SameFifo(q: Queue, q': Queue)
    requires q'.first == q.first && q'.last == q.last
    ensures Fifo(q') == Fifo(q)
  {}

  /** `o` is what is held elsewhere, and `k` counts the other places of the cycle the piece belongs to. */
  lemma {:induction false} FlushLeads(t: Transport, device: nat, time: nat, s: Sender, cs: seq<QueuedCycle>, oom: nat -> bool, x: Piece, o: nat, k: nat)
    requires t.Ok() && SenderOk(t, s) && |s.cur| == 0 && Short(cs) && Starved(cs)
    requires o <= k && k + InCycles(cs, x.id) + InResponses(Fifo(s.queue), x.id) <= 1
    ensures Leads(FlushMoves(t, device, time, s, cs, oom), x, o + ReadyHolds(cs, x) + ResponsesHold(Fifo(s.queue), x),
                  o + ResponsesHold(Fifo(FlushCycles(t, device, time, s, cs, oom).queue), x))
    decreases |cs|
  {
    hide FlushCycle, SentBy, FateOf, Fifo, CycleMoves, Leads, Starved, Awaits, ReadyHolds, ResponsesHold, InCycles, InResponses, HoldsAll, Holds;
    if |cs| == 0 {
      NothingLeads(x, o + ResponsesHold(Fifo(s.queue), x));
      NothingReady(x);
    } else {
      var c := cs[0];
      var s1 := FlushCycle(t, device, time, s, c, oom(c.id));
      FlushCycleCorrect(t, device, time, s, c, oom(c.id));
      FateHolds(t, device, time, s, s1, c, oom(c.id), x);
      StarvedSplit(cs);
      var held := FirstReady(cs, Fifo(s.queue), x, o, k);
      CycleLeads(t, s.rba, c, oom(c.id), x, held);
      FlushLeads(t, device, time, s1, cs[1..], oom, x, o, k);
      LeadsOn(CycleMoves(t, s.rba, c, oom(c.id)), FlushMoves(t, device, time, s1, cs[1..], oom), x,
        held, o + ReadyHolds(cs[1..], x) + ResponsesHold(Fifo(s1.queue), x),
        o + ResponsesHold(Fifo(FlushCycles(t, device, time, s, cs, oom).queue), x));
    }
  }

  lemma NothingReady(x: Piece)
    ensures ReadyHolds([], x) == 0
  {}

  lemma FirstReady(cs: seq<QueuedCycle>, rs: seq<Response>, x: Piece, o: nat, k: nat) returns (held: nat)
    requires |cs| > 0 && o <= k && k + InCycles(cs, x.id) + InResponses(rs, x.id) <= 1
    ensures held == o + ReadyHolds(cs, x) + ResponsesHold(rs, x)
    ensures ReadyHolds(cs, x) == Holds(cs[0].id, |cs[0].requests|, x) + ReadyHolds(cs[1..], x)
    ensures InCycles(cs, x.id) == (if cs[0].id == x.id then 1 else 0) + InCycles(cs[1..], x.id)
    ensures held <= 1 && (x == OfResponse(cs[0].id) ==> held == 0)
  {
    ResponsesBound(rs, x);
    ReadyBound(cs[1..], x);
    held := o + ReadyHolds(cs, x) + ResponsesHold(rs, x);
  }

  lemma StarvedSplit(cs: seq<QueuedCycle>)
    requires Starved(cs) && |cs| > 0
    ensures Starved([cs[0]]) && Starved(cs[1..])
  {}

  lemma NothingLeads(x: Piece, n: nat)
    ensures Leads([], x, n, n)
  {}

  lemma OpenLeads(l: Library, step: Step, x: Piece)
    requires LibraryOk(l) && OnePlaceEach(l) && Possible(l, step) && step.Open?
    ensures Leads(Moves(l, step), x, Held(l, x), Held(Next(l, step), x))
  {
    hide Transport.Ok, Short, QueueState, Fifo, DevicesHold, ResponsesHold, Legal, Outcome, Leads, OnePlaceEach, LibraryOk;
    HeldOnce(l, x);
    var c := OfCycle(l.nextId);
    if step.oom {
      NothingLeads(x, Held(l, x));
    } else {
      LeadsOne(Take(c), x, Held(l, x));
      if l.devices[step.device].passive {
        LeadsOne(Give(c), x, if x == c then 1 else Held(l, x));
        LeadsOn([Take(c)], [Give(c)], x, Held(l, x), if x == c then 1 else Held(l, x), Held(l, x));
        assert [Take(c)] + [Give(c)] == [Take(c), Give(c)];
      } else {
        var d := l.devices[step.device];
        DevicesUpdate(l.devices, step.device, d.(unready := (d.unready + 1) % 256), x);
      }
    }
  }

  lemma FillLeads(l: Library, step: Step, x: Piece)
    requires LibraryOk(l) && OnePlaceEach(l) && DeadEmpty(l) && Possible(l, step) && step.Fill?
    ensures Leads(Moves(l, step), x, Held(l, x), Held(Next(l, step), x))
  {
    hide Transport.Ok, Short, QueueState, Fifo, DevicesHold, ResponsesHold, Legal, Outcome, Leads, OpPieces, Reverse, Gives, OnePlaceEach, LibraryOk;
    HeldOnce(l, x);
    var c, id := l.open[step.id], step.id;
    var n, held := |c.requests|, Held(l, x);
    if step.oom {
      CycleCount(id, n, x);
      OpsCount(id, n, x);
      GivesLead(Reverse(OpPieces(id, n)), x, held);
    } else {
      var p := OfOperation(id, n);
      LeadsOne(Take(p), x, held);
      if c.dead {
        LeadsOne(Give(p), x, if x == p then 1 else held);
        LeadsOn([Take(p)], [Give(p)], x, held, if x == p then 1 else held, held);
        assert [Take(p)] + [Give(p)] == [Take(p), Give(p)];
      }
    }
  }

  lemma CloseLeads(l: Library, step: Step, x: Piece)
    requires LibraryOk(l) && OnePlaceEach(l) && Possible(l, step) && step.Close?
    ensures Leads(Moves(l, step), x, Held(l, x), Held(Next(l, step), x))
  {
    hide Transport.Ok, Short, QueueState, Fifo, DevicesHold, ResponsesHold, Legal, Outcome, Leads, Reverse, ReadyHolds, OnePlaceEach;
    var c := l.open[step.id];
    var queued := QueuedCycle(step.id, Reverse(c.requests), c.dead, step.checked && |c.requests| > 0);
    NothingLeads(x, Held(l, x));
    OneReady(queued, l.devices[c.device].ready, x);
    ClosedHolds(l, step, queued, x);
  }

  lemma AbortLeads(l: Library, step: Step, x: Piece)
    requires LibraryOk(l) && OnePlaceEach(l) && Possible(l, step) && step.Abort?
    ensures Leads(Moves(l, step), x, Held(l, x), Held(Next(l, step), x))
  {
    hide Transport.Ok, Short, QueueState, Fifo, DevicesHold, ResponsesHold, Legal, Outcome, Leads, OpPieces, Reverse, Gives, ReadyHolds, OnePlaceEach;
    HeldOnce(l, x);
    var c := l.open[step.id];
    var d := l.devices[c.device];
    CycleCount(step.id, |c.requests|, x);
    GivesLead(Reverse(OpPieces(step.id, |c.requests|)) + [OfCycle(step.id)], x, Held(l, x));
    DevicesUpdate(l.devices, c.device, d.(unready := (d.unready - 1) % 256), x);
  }

  lemma OneReady(c: QueuedCycle, cs: seq<QueuedCycle>, x: Piece)
    ensures ReadyHolds([c] + cs, x) == Holds(c.id, |c.requests|, x) + ReadyHolds(cs, x)
  {
    assert ([c] + cs)[1..] == cs;
  }

  lemma ClosedHolds(l: Library, step: Step, queued: QueuedCycle, x: Piece)
    requires LibraryOk(l) && Possible(l, step) && step.Close? && l.open[step.id].device < |l.devices|
    requires var c := l.open[step.id]; queued == QueuedCycle(step.id, Reverse(c.requests), c.dead, step.checked && |c.requests| > 0)
    ensures var i := l.open[step.id].device;
            DevicesHold(Next(l, step).devices, x) + ReadyHolds(l.devices[i].ready, x)
            == DevicesHold(l.devices, x) + ReadyHolds([queued] + l.devices[i].ready, x)
  {
    hide Transport.Ok, Short, QueueState, DevicesHold, ReadyHolds, Reverse;
    var i := l.open[step.id].device;
    var d := l.devices[i];
    var ready := [queued] + d.ready;
    DevicesUpdate(l.devices, i, d.(ready := ready, unready := (d.unready - 1) % 256), x);
    assert Next(l, step).devices == l.devices[i := d.(ready := ready, unready := (d.unready - 1) % 256)];
  }

  lemma FlushStepLeads(l: Library, step: Step, x: Piece)
    requires LibraryOk(l) && OnePlaceEach(l) && DeadEmpty(l) && Possible(l, step) && step.FlushDevice?
    ensures Leads(Moves(l, step), x, Held(l, x), Held(Next(l, step), x))
  {
    hide Transport.Ok, QueueState, Fifo, DevicesHold, ResponsesHold, Legal, Outcome, Leads, Reverse, Gives, ReadyHolds, FlushMoves, FlushCycles, InReady, InResponses, Starved;
    HeldOnce(l, x);
    var d := l.devices[step.device];
    var cs := Reverse(d.ready);
    ShortReverse(d.ready);
    StarvedReverse(d.ready);
    ReadyReverse(d.ready, x);
    InCyclesReverse(d.ready, x.id);
    DevicesUpdate(l.devices, step.device, d.(ready := []), x);
    InReadyUpdate(l.devices, step.device, d.(ready := []), x.id);
    NothingReady(x);
    var others := l.devices[step.device := d.(ready := [])];
    DevicesBound(others, x);
    var o := OpenHolds(l.open, x) + DevicesHold(others, x);
    var k := (if x.id in l.open then 1 else 0) + InReady(others, x.id);
    FlushLeads(d.t, step.device, l.clock, SenderOf(l), cs, step.noMemory, x, o, k);
  }

  lemma ReplyLeads(l: Library, step: Step, x: Piece)
    requires LibraryOk(l) && OnePlaceEach(l) && Possible(l, step) && step.Reply?
    ensures Leads(Moves(l, step), x, Held(l, x), Held(Next(l, step), x))
  {
    hide Transport.Ok, Short, QueueState, Fifo, DevicesHold, ResponsesHold, Legal, Outcome, Leads, Gives, Answer, Finished, DoneBy, Find, ResponsePieces, ResponseHolds, OpenHolds, WriteConfig, ReturnAddress, OnePlaceEach, LibraryOk;
    HeldOnce(l, x);
    QueueFits(l);
    WriteConfigRefines(l.queue, step.size, step.address, step.value);
    var rs := Fifo(l.queue);
    var i := Find(rs, ReturnAddress(step.address));
    if i == |rs| {
      NothingLeads(x, Held(l, x));
    } else {
      var a := Answer(rs[i], step.size, step.address, step.value);
      OneAnswered(rs, i, a.0, x);
      ResponseCount(rs[i], x);
      AnswerHolds(rs[i], step.size, step.address, step.value, x);
      if Finished(a.0, a.1) {
        GivesLead(ResponsePieces(rs[i]), x, Held(l, x));
      } else {
        NothingLeads(x, Held(l, x));
      }
    }
  }

  lemma OneAnswered(rs: seq<Response>, i: nat, r: Response, x: Piece)
    requires i < |rs|
    ensures ResponsesHold(rs, x) == ResponsesHold(rs[..i] + rs[i + 1..], x) + ResponseHolds(rs[i], x)
    ensures ResponsesHold(rs[i := r], x) == ResponsesHold(rs[..i] + rs[i + 1..], x) + ResponseHolds(r, x)
  {
    hide ResponsesHold, ResponseHolds;
    assert rs == rs[..i] + ([rs[i]] + rs[i + 1..]) && rs[i := r] == rs[..i] + ([r] + rs[i + 1..]);
    ResponsesConcat(rs[..i], [rs[i]] + rs[i + 1..], x);
    ResponsesConcat(rs[..i], [r] + rs[i + 1..], x);
    ResponsesConcat([rs[i]], rs[i + 1..], x);
    ResponsesConcat([r], rs[i + 1..], x);
    ResponsesConcat(rs[..i], rs[i + 1..], x);
    OneResponse(rs[i], x);
    OneResponse(r, x);
  }

  lemma AnswerHolds(r: Response, size: nat, address: nat, value: nat, x: Piece)
    requires ResponseOk(r)
    ensures ResponseHolds(Answer(r, size, address, value).0, x) == ResponseHolds(r, x)
  {
    hide FindRead, FindBus, CountBus, AssignErrors;
  }

  lemma ExpireLeads(l: Library, step: Step, x: Piece)
    requires LibraryOk(l) && OnePlaceEach(l) && Possible(l, step) && step.CheckTime?
    ensures Leads(Moves(l, step), x, Held(l, x), Held(Next(l, step), x))
  {
    hide *;
    HeldOnce(l, x);
    QueueFits(l);
    var n := ExpiredCount(l.queue.first, l.clock, step.now);
    ExpireHolds(l, step, x);
    ResponsesCount(l.queue.first[..n], x);
    GivesLead(AllResponsePieces(l.queue.first[..n]), x, Held(l, x));
  }

  lemma ExpireHolds(l: Library, step: Step, x: Piece)
    requires LibraryOk(l) && Possible(l, step) && step.CheckTime? && l.clock < WORD32
    ensures var gone := l.queue.first[..ExpiredCount(l.queue.first, l.clock, step.now)];
            Held(l, x) == Held(Next(l, step), x) + ResponsesHold(gone, x) && Moves(l, step) == Gives(AllResponsePieces(gone))
  {
    hide Transport.Ok, Short, QueueState, DevicesHold, ResponsesHold, Gives, ExpiredCount, AllResponsePieces, Timeouts, LibraryOk, OpenHolds;
    var q := l.queue;
    var n := ExpiredCount(q.first, l.clock, step.now);
    assert Fifo(q) == q.first[..n] + (q.first[n..] + Reverse(q.last));
    ResponsesConcat(q.first[..n], q.first[n..] + Reverse(q.last), x);
  }

  lemma QueueFits(l: Library)
    requires LibraryOk(l)
    ensures QueueOk(l.queue) && l.clock < WORD32
  {}

  lemma KillLeads(l: Library, step: Step, x: Piece)
    requires LibraryOk(l) && OnePlaceEach(l) && NoStrays(l) && Possible(l, step) && step.CloseDevice?
    ensures Leads(Moves(l, step), x, Held(l, x), Held(Next(l, step), x))
  {
    hide *;
    HeldOnce(l, x);
    KillHolds(l, step, x);
    var i := step.device;
    DeviceHere(l, step);
    var d, held := l.devices[i], Held(l, x);
    KillMoves(l, step);
    if d.unready != 0 || d.passive {
      NothingLeads(x, held);
    } else {
      var mine, cs := Select(Fifo(l.queue), i, true), Reverse(d.ready);
      ResponsesCount(mine, x);
      CyclesCount(cs, x);
      GivesLead(AllResponsePieces(mine), x, held);
      GivesLead(AllCyclePieces(cs), x, held - ResponsesHold(mine, x));
      LeadsOn(Gives(AllResponsePieces(mine)), Gives(AllCyclePieces(cs)), x, held, held - ResponsesHold(mine, x),
        held - ResponsesHold(mine, x) - ReadyHolds(cs, x));
    }
  }

  lemma DeviceHere(l: Library, step: Step)
    requires LibraryOk(l) && Possible(l, step) && step.CloseDevice?
    ensures step.device < |l.devices|
  {}

  lemma KillMoves(l: Library, step: Step)
    requires LibraryOk(l) && Possible(l, step) && step.CloseDevice? && step.device < |l.devices|
    ensures var d := l.devices[step.device];
            Moves(l, step) == if d.unready != 0 || d.passive then []
                              else Gives(AllResponsePieces(Select(Fifo(l.queue), step.device, true))) + Gives(AllCyclePieces(Reverse(d.ready)))
  {
    hide Transport.Ok, Short, QueueState, LibraryOk, Gives, AllResponsePieces, AllCyclePieces, Select, Reverse, Fifo;
  }

  lemma KillHolds(l: Library, step: Step, x: Piece)
    requires LibraryOk(l) && NoStrays(l) && Possible(l, step) && step.CloseDevice?
    ensures step.device < |l.devices|
    ensures var d := l.devices[step.device];
            Held(l, x) == Held(Next(l, step), x) + if d.unready != 0 || d.passive then 0
              else ResponsesHold(Select(Fifo(l.queue), step.device, true), x) + ReadyHolds(Reverse(d.ready), x)
  {
    hide Transport.Ok, Short, QueueState, LibraryOk, DevicesHold, ResponsesHold, ReadyHolds, OpenHolds, Select, Timeouts, KilledAll, Reverse, Fifo;
    var d, i := l.devices[step.device], step.device;
    if d.unready == 0 {
      DevicesUpdate(l.devices, i, d.(ready := [], passive := true, gone := true), x);
      NothingReady(x);
      if !d.passive {
        SelectHolds(Fifo(l.queue), i, x);
        FrontOnly(Next(l, step).queue);
        ReadyReverse(d.ready, x);
      }
    }
  }

  lemma FrontOnly(q: Queue)
    requires q.last == []
    ensures Fifo(q) == q.first
  {
    assert Reverse<Response>([]) == [];
  }

  lemma OtherLeads(l: Library, step: Step, x: Piece)
    requires LibraryOk(l) && Possible(l, step) && (step.OpenDevice? || step.AskTimeout?)
    ensures Leads(Moves(l, step), x, Held(l, x), Held(Next(l, step), x))
  {
    hide Transport.Ok, Short, QueueState, Fifo, DevicesHold, ResponsesHold, Legal, Outcome, Leads, ReadyHolds, Turned;
    NothingLeads(x, Held(l, x));
    if step.OpenDevice? {
      DevicesAppend(l.devices, Device(step.t, [], 0, step.passive, false), x);
      NothingReady(x);
    } else {
      TurnedSame(l.queue);
    }
  }

  /** What a call takes is not held, what it gives back is, and afterwards exactly that is held to which the
      library still refers. */
  lemma MovesLead(l: Library, step: Step, x: Piece)
    requires Invariant(l) && DeadEmpty(l) && Possible(l, step)
    ensures Leads(Moves(l, step), x, Held(l, x), Held(Next(l, step), x))
  {
    match step
    case Open(_, _) => OpenLeads(l, step, x);
    case Fill(_, _, _) => FillLeads(l, step, x);
    case Close(_, _) => CloseLeads(l, step, x);
    case Abort(_) => AbortLeads(l, step, x);
    case FlushDevice(_, _) => FlushStepLeads(l, step, x);
    case Reply(_, _, _) => ReplyLeads(l, step, x);
    case CheckTime(_) => ExpireLeads(l, step, x);
    case CloseDevice(_) => KillLeads(l, step, x);
    case _ => OtherLeads(l, step, x);
  }

  // Over runs.

  function RunMoves(l: Library, steps: seq<Step>): seq<Move>
    requires LibraryOk(l) && Runs(l, steps)
    decreases |steps|
  {
    if |steps| == 0 then [] else Moves(l, steps[0]) + RunMoves(Next(l, steps[0]), steps[1..])
  }

  lemma {:induction false} RunLeads(l: Library, steps: seq<Step>, x: Piece)
    requires Invariant(l) && DeadEmpty(l) && Runs(l, steps)
    ensures Leads(RunMoves(l, steps), x, Held(l, x), Held(After(l, steps), x))
    decreases |steps|
  {
    hide Next, Possible, Moves, Held, Leads, DeadEmpty, NoStrays, OnePlaceEach, CountersExact, LibraryOk;
    if |steps| == 0 {
      NothingLeads(x, Held(l, x));
    } else {
      MovesLead(l, steps[0], x);
      InvariantKept(l, steps[0]);
      DeadEmptyKept(l, steps[0]);
      RunLeads(Next(l, steps[0]), steps[1..], x);
      LeadsOn(Moves(l, steps[0]), RunMoves(Next(l, steps[0]), steps[1..]), x, Held(l, x), Held(Next(l, steps[0]), x), Held(After(l, steps), x));
    }
  }

  lemma NothingHeld(x: Piece)
    ensures Invariant(INITIAL) && DeadEmpty(INITIAL) && Held(INITIAL, x) == 0
  {
    InitialInvariant();
    assert Fifo(INITIAL.queue) == [];
  }

  /** In every run each cycle, operation and response is taken only while it is not held and given back only
      while it is; and what is held in the end is what the library refers to, in one place. */
  lemma HeldInRun(steps: seq<Step>, x: Piece)
    requires Runs(INITIAL, steps)
    ensures LibraryOk(INITIAL) && Leads(RunMoves(INITIAL, steps), x, 0, Held(After(INITIAL, steps), x))
    ensures Held(After(INITIAL, steps), x) <= 1
  {
    hide Runs, After, RunMoves, Leads, Held, Invariant;
    NothingHeld(x);
    RunLeads(INITIAL, steps, x);
    OneHeld(steps, x);
  }

  lemma OneHeld(steps: seq<Step>, x: Piece)
    requires LibraryOk(INITIAL) && Runs(INITIAL, steps)
    ensures Held(After(INITIAL, steps), x) <= 1
  {
    hide Runs, After, Held, OnePlaceEach, NoStrays, CountersExact, LibraryOk;
    InitialInvariant();
    RunsKeep(INITIAL, steps);
    HeldOnce(After(INITIAL, steps), x);
  }

  lemma OnlyOpen(l: Library, x: Piece)
    requires NoStrays(l) && forall i | 0 <= i < |l.devices| :: l.devices[i].gone
    ensures Held(l, x) == OpenHolds(l.open, x)
  {
    NothingLeft(l, x.id);
    DevicesBound(l.devices, x);
    ResponsesBound(Fifo(l.queue), x);
  }

  /** Once every device has been closed, everything has been given back exactly if no device was closed under an
      open cycle. */
  lemma AllGivenBack(steps: seq<Step>)
    requires Runs(INITIAL, steps)
    requires var l := After(INITIAL, steps); forall i | 0 <= i < |l.devices| :: l.devices[i].gone
    ensures (forall x: Piece :: Held(After(INITIAL, steps), x) == 0) <==> Careful(INITIAL, steps)
  {
    hide After, Runs, Careful, LibraryOk, OnePlaceEach, CountersExact, NoStrays, Held;
    InitialInvariant();
    var l := After(INITIAL, steps);
    RunsKeep(INITIAL, steps);
    AllAnswered(steps, 0);
    forall x: Piece ensures Held(l, x) == OpenHolds(l.open, x) {
      OnlyOpen(l, x);
    }
    if l.open != map[] {
      var id :| id in l.open;
      assert Held(l, OfCycle(id)) == 1;
    }
  }

  // On the pool.

  const NOBODY := Memory.Book(map[], map[], {}, map[])

  predicate Apart(places: map<Piece, nat>) {
    forall x, y | x in places && y in places && x != y :: places[x] != places[y]
  }

  /** Each piece has a cell of its own, and the pool has handed out no others. */
  ghost predicate Houses(pool: Memory.Pool, places: map<Piece, nat>)
    reads pool
  {
    pool.PoolOk() && pool.book == NOBODY && places.Values == pool.others && |pool.others| == |places| && Apart(places)
  }

  /** The 16-bit count of used cells is the number of pieces that are held. */
  lemma UsedIs(pool: Memory.Pool, places: map<Piece, nat>)
    requires Houses(pool, places)
    ensures pool.used == |places| && pool.Live() == places.Values
  {
    assert pool.Live() == pool.others;
  }

  function In(places: map<Piece, nat>, x: Piece): nat {
    if x in places then 1 else 0
  }

  lemma OneMore(places: map<Piece, nat>, x: Piece, item: nat)
    requires Apart(places) && x !in places && item !in places.Values
    ensures Apart(places[x := item]) && places[x := item].Values == places.Values + {item} && |places[x := item]| == |places| + 1
  {
    MoreApart(places, x, item);
    MoreValues(places, x, item);
    hide Apart;
    assert places[x := item].Keys == places.Keys + {x};
    SizeOf(places);
    SizeOf(places[x := item]);
  }

  lemma MoreValues(places: map<Piece, nat>, x: Piece, item: nat)
    requires x !in places
    ensures places[x := item].Values == places.Values + {item}
  {
    var more := places[x := item];
    forall v | v in places.Values ensures v in more.Values {
      var y :| y in places && places[y] == v;
      assert more[y] == v;
    }
    assert more[x] == item;
  }

  lemma MoreApart(places: map<Piece, nat>, x: Piece, item: nat)
    requires Apart(places) && x !in places && item !in places.Values
    ensures Apart(places[x := item])
  {
    assert forall y | y in places :: places[y] in places.Values;
  }

  lemma OneLess(places: map<Piece, nat>, x: Piece)
    requires Apart(places) && x in places
    ensures Apart(places - {x}) && (places - {x}).Values == places.Values - {places[x]} && |places - {x}| == |places| - 1
  {
    var less := places - {x};
    forall v | v in places.Values && v != places[x] ensures v in less.Values {
      var y :| y in places && places[y] == v;
      assert less[y] == v;
    }
    assert less.Keys == places.Keys - {x};
    SizeOf(places);
    SizeOf(less);
  }

  lemma SizeOf(places: map<Piece, nat>)
    ensures |places.Keys| == |places|
  {}

  /** Takes a cell for a piece. */
  method House(pool: Memory.Pool, before: map<Piece, nat>, x: Piece, oom: bool) returns (places: map<Piece, nat>, ok: bool)
    requires Houses(pool, before) && x !in before
    modifies pool
    ensures Houses(pool, places) && ok == !old(pool.Exhausted(oom))
    ensures places.Keys == if ok then before.Keys + {x} else before.Keys
    ensures !ok ==> unchanged(pool) && places == before
  {
    hide *;
    HousesSays(pool, before);
    UsedIs(pool, before);
    ExhaustedIs(pool, oom);
    var item := pool.New(oom);
    ok, places := item != Memory.NULL, before;
    if ok {
      OneMore(before, x, item);
      places := before[x := item];
      OneLarger(before.Values, item);
      NowHouses(pool, places);
    }
  }

  lemma OneLarger(s: set<nat>, item: nat)
    requires item !in s
    ensures |s + {item}| == |s| + 1
  {}

  lemma ExhaustedIs(pool: Memory.Pool, oom: bool)
    ensures pool.Exhausted(oom) <==> pool.free == [] && (pool.Grown() || (pool.fixed == 0 && oom))
  {}

  lemma HousesSays(pool: Memory.Pool, places: map<Piece, nat>)
    requires Houses(pool, places)
    ensures pool.PoolOk() && pool.book == NOBODY && places.Values == pool.others && |pool.others| == |places| && Apart(places)
  {}

  lemma NowHouses(pool: Memory.Pool, places: map<Piece, nat>)
    requires pool.PoolOk() && pool.book == NOBODY && places.Values == pool.others && |pool.others| == |places| && Apart(places)
    ensures Houses(pool, places)
  {}

  /** Gives its cell back. */
  method Vacate(pool: Memory.Pool, before: map<Piece, nat>, x: Piece) returns (places: map<Piece, nat>)
    requires Houses(pool, before) && x in before
    modifies pool
    ensures Houses(pool, places) && places == before - {x}
  {
    hide Memory.PoolState, Apart;
    OneLess(before, x);
    pool.Release(before[x]);
    places := before - {x};
  }

  /** What is left to do, seen from one piece. */
  predicate Goes(moves: seq<Move>, n: nat, x: Piece, held: nat, end: nat)
    requires n <= |moves|
  {
    Leads(moves[n..], x, held, end)
  }

  lemma GoesOn(moves: seq<Move>, n: nat, x: Piece, held: nat, end: nat)
    requires n < |moves| && Goes(moves, n, x, held, end)
    ensures Goes(moves, n + 1, x, if moves[n].piece != x then held else if moves[n].Take? then 1 else 0, end)
    ensures moves[n].piece == x ==> held == if moves[n].Take? then 0 else 1
  {
    assert moves[n..][1..] == moves[n + 1..];
  }

  /** Legal moves never break the pool: it hands out a cell that nobody holds for each piece that is taken, gets
      back a cell that is held for each piece that is given back, and counts them. It stops only where it is
      exhausted. */
  method Replay(pool: Memory.Pool, moves: seq<Move>, before: map<Piece, nat>, oom: nat -> bool, ghost end: Piece -> nat)
    returns (places: map<Piece, nat>, n: nat)
    requires Houses(pool, before) && forall x :: Goes(moves, 0, x, In(before, x), end(x))
    modifies pool
    ensures Houses(pool, places) && n <= |moves|
    ensures n < |moves| ==> moves[n].Take? && pool.Exhausted(oom(n))
    ensures forall x :: Goes(moves, n, x, In(places, x), end(x))
    ensures n == |moves| ==> forall x :: In(places, x) == end(x)
  {
    hide Goes, Houses;
    n, places := 0, before;
    while n < |moves|
      invariant n <= |moves| && Houses(pool, places)
      invariant forall x :: Goes(moves, n, x, In(places, x), end(x))
    {
      forall x: Piece ensures Goes(moves, n + 1, x, if moves[n].piece != x then In(places, x) else if moves[n].Take? then 1 else 0, end(x)) {
        GoesOn(moves, n, x, In(places, x), end(x));
      }
      GoesOn(moves, n, moves[n].piece, In(places, moves[n].piece), end(moves[n].piece));
      if moves[n].Take? {
        var ok;
        places, ok := House(pool, places, moves[n].piece, oom(n));
        if !ok {
          return;
        }
      } else {
        places := Vacate(pool, places, moves[n].piece);
      }
      n := n + 1;
    }
    forall x: Piece ensures In(places, x) == end(x) {
      GoneTo(moves, x, In(places, x), end(x));
    }
  }

  lemma GoneTo(moves: seq<Move>, x: Piece, held: nat, end: nat)
    requires Goes(moves, |moves|, x, held, end)
    ensures held == end
  {}

  /** The library on a pool: each piece that the library refers to has a cell of its own, nothing else has one,
      and free and used cells make up the pool. */
  ghost predicate Coupled(l: Library, pool: Memory.Pool, places: map<Piece, nat>)
    reads pool
  {
    Invariant(l) && DeadEmpty(l) && Houses(pool, places) && forall x :: In(places, x) == Held(l, x)
  }

  lemma CoupledAtStart(pool: Memory.Pool)
    requires pool.Valid() && pool.book == NOBODY && pool.others == {}
    ensures Coupled(INITIAL, pool, map[])
  {
    hide *;
    HousesNone(pool);
    forall x: Piece ensures In(map[], x) == Held(INITIAL, x) {
      NothingHeld(x);
      InNone(x);
    }
    NothingHeld(OfCycle(0));
    CoupledIs(INITIAL, pool, map[]);
  }

  lemma InNone(x: Piece)
    ensures In(map[], x) == 0
  {}

  lemma HousesNone(pool: Memory.Pool)
    requires pool.Valid() && pool.book == NOBODY && pool.others == {}
    ensures Houses(pool, map[])
  {}

  lemma CoupledIs(l: Library, pool: Memory.Pool, places: map<Piece, nat>)
    requires Invariant(l) && DeadEmpty(l) && Houses(pool, places) && forall x :: In(places, x) == Held(l, x)
    ensures Coupled(l, pool, places)
  {}

  /** One call on a pool: either the pool is exhausted when a cell is asked for, or library and pool stay
      coupled. */
  method Perform(l: Library, step: Step, pool: Memory.Pool, before: map<Piece, nat>, oom: nat -> bool)
    returns (places: map<Piece, nat>, n: nat)
    requires Coupled(l, pool, before) && Possible(l, step)
    modifies pool
    ensures LibraryOk(l) && n <= |Moves(l, step)|
    ensures n < |Moves(l, step)| ==> Moves(l, step)[n].Take? && pool.Exhausted(oom(n)) && Houses(pool, places)
    ensures n == |Moves(l, step)| ==> Coupled(Next(l, step), pool, places)
  {
    hide Next, Moves, Held, In, Goes, Leads, Houses, Possible, LibraryOk, DeadEmpty, OnePlaceEach, NoStrays, CountersExact;
    var moves := Moves(l, step);
    ghost var end := x => Held(Next(l, step), x);
    forall x: Piece ensures Goes(moves, 0, x, In(before, x), end(x)) {
      MovesLead(l, step, x);
      GoesWhole(moves, x, In(before, x), end(x));
    }
    places, n := Replay(pool, moves, before, oom, end);
    InvariantKept(l, step);
    DeadEmptyKept(l, step);
  }

  lemma GoesWhole(moves: seq<Move>, x: Piece, held: nat, end: nat)
    requires Leads(moves, x, held, end)
    ensures Goes(moves, 0, x, held, end)
  {
    hide Leads;
    assert moves[0..] == moves;
  }
}
