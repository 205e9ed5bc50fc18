/**
 Copying a file to a device and back: how a range is tiled with aligned transfers, and what the transfers
 do to byte-addressed memory.
 */
module Tiling {
  import opened Words

  /** One cycle: `count` operations of `size` bytes from `address` on. */
  datatype Chunk = Chunk(address: nat, size: nat, count: nat)

  const OPERATIONS_PER_CYCLE: nat := 32

  /** The widths both ends support, as the bits of a byte. */
  function Bulk(sizes: bv8): bv8 {
    var a := sizes | (sizes >> 1);
    var b := a | (a >> 2);
    b ^ (b >> 1)
  }

  function Edge(sizes: bv8): bv8 {
    sizes & (0 - sizes)
  }

  /** Bulk is the largest width of the set and edge the smallest, so that edge divides bulk. */
  lemma WidthChoice(sizes: bv8, w: bv8)
    requires 0 < sizes <= 15
    ensures Bulk(sizes) & sizes == Bulk(sizes) && Edge(sizes) & sizes == Edge(sizes)
    ensures Bulk(sizes) in {1, 2, 4, 8} && Edge(sizes) in {1, 2, 4, 8}
    ensures w in {1, 2, 4, 8} && w & sizes == w ==> Edge(sizes) <= w <= Bulk(sizes)
  {
  }

  /** The chunks cover `lo..hi` without gap or overlap, in order. */
  ghost predicate Tiles(cs: seq<Chunk>, lo: nat, hi: nat) {
    if |cs| == 0 then lo == hi
    else cs[0].address == lo && Tiles(cs[1..], lo + cs[0].size * cs[0].count, hi)
  }

  predicate ChunkOk(c: Chunk, bulk: nat, edge: nat) {
    && c.size in {bulk, edge} && c.size > 0 && c.address % c.size == 0 && 0 < c.count <= 32
  }

  predicate Widths(bulk: nat, edge: nat) {
    bulk in {1, 2, 4, 8} && edge in {1, 2, 4, 8} && edge <= bulk
  }

  lemma {:induction false} TilesSnoc(cs: seq<Chunk>, c: Chunk, lo: nat, hi: nat)
    requires Tiles(cs, lo, hi) && c.address == hi
    ensures Tiles(cs + [c], lo, hi + c.size * c.count)
    decreases |cs|
  {
    if |cs| == 0 {
      assert (cs + [c])[1..] == [];
    } else {
      TilesSnoc(cs[1..], c, lo + cs[0].size * cs[0].count, hi);
      assert (cs + [c])[1..] == cs[1..] + [c];
    }
  }

  predicate Multiple(n: nat, d: nat) {
    d in {1, 2, 4, 8} && n % d == 0
  }

  /** The first multiple of `d` from `n` on. */
  function RoundUp(n: nat, d: nat): nat
    requires d in {1, 2, 4, 8}
  {
    if n % d == 0 then n else n - n % d + d
  }

  function RoundDown(n: nat, d: nat): nat
    requires d in {1, 2, 4, 8}
  {
    n - n % d
  }

  /** Where the plan for a range ends. */
  function PlanEnd(address: nat, length: nat, bulk: nat): nat
    requires bulk in {1, 2, 4, 8}
  {
    if RoundUp(address, bulk) <= address + length then address + length else RoundUp(address, bulk)
  }

  /** The chunks so far are in order and end at `pos`. */
  ghost predicate Planned(cs: seq<Chunk>, address: nat, pos: nat, bulk: nat, edge: nat) {
    Tiles(cs, address, pos) && forall i | 0 <= i < |cs| :: ChunkOk(cs[i], bulk, edge)
  }

  lemma PlannedNone(address: nat, bulk: nat, edge: nat)
    ensures Planned([], address, address, bulk, edge)
  {
  }

  lemma PlannedSnoc(cs: seq<Chunk>, c: Chunk, address: nat, pos: nat, bulk: nat, edge: nat)
    requires Planned(cs, address, pos, bulk, edge) && c.address == pos && ChunkOk(c, bulk, edge)
    ensures Planned(cs + [c], address, pos + c.size * c.count, bulk, edge)
  {
    TilesSnoc(cs, c, address, pos);
  }

  /** Edge transfers up to a bulk boundary. */
  method PlanHead(address: nat, bulk: nat, edge: nat) returns (cs: seq<Chunk>, pos: nat)
    requires Widths(bulk, edge) && Multiple(address, edge)
    ensures Planned(cs, address, pos, bulk, edge) && pos == RoundUp(address, bulk) && Multiple(pos, bulk)
  {
    hide Planned, RoundUp, Multiple, ChunkOk;
    Start(address, 0, bulk, edge);
    PlannedNone(address, bulk, edge);
    cs, pos := [], address;
    while !Multiple(pos, bulk)
      invariant address <= pos <= RoundUp(address, bulk) && Multiple(pos, edge) && Planned(cs, address, pos, bulk, edge)
      decreases RoundUp(address, bulk) - pos
    {
      HeadStep(address, pos, bulk, edge);
      PlannedSnoc(cs, Chunk(pos, edge, 1), address, pos, bulk, edge);
      cs, pos := cs + [Chunk(pos, edge, 1)], pos + edge;
    }
    HeadEnd(address, pos, bulk);
  }

  /** Bulk transfers up to the last bulk boundary of the range. */
  method PlanBulk(cs0: seq<Chunk>, pos0: nat, end: nat, bulk: nat, edge: nat, ghost address: nat) returns (cs: seq<Chunk>, pos: nat)
    requires Widths(bulk, edge) && Planned(cs0, address, pos0, bulk, edge) && Multiple(pos0, bulk)
    ensures Planned(cs, address, pos, bulk, edge) && Multiple(pos, bulk)
    ensures pos == if pos0 < RoundDown(end, bulk) then RoundDown(end, bulk) else pos0
  {
    hide Planned, RoundDown, Multiple, ChunkOk;
    var endBulk := RoundDown(end, bulk);
    cs, pos := cs0, pos0;
    while pos < endBulk
      invariant Multiple(pos, bulk) && Planned(cs, address, pos, bulk, edge)
      invariant pos0 <= pos && (pos <= endBulk || pos == pos0)
      decreases endBulk - pos
    {
      var step := (endBulk - pos) / bulk;
      if step > OPERATIONS_PER_CYCLE {
        step := OPERATIONS_PER_CYCLE;
      }
      BulkStep(pos, end, bulk, edge, step);
      PlannedSnoc(cs, Chunk(pos, bulk, step), address, pos, bulk, edge);
      cs, pos := cs + [Chunk(pos, bulk, step)], pos + step * bulk;
    }
  }

  /** Bulk transfers, then edge transfers up to the end of the range. */
  method PlanRest(cs0: seq<Chunk>, pos0: nat, end: nat, bulk: nat, edge: nat, ghost address: nat) returns (cs: seq<Chunk>)
    requires Widths(bulk, edge) && Planned(cs0, address, pos0, bulk, edge) && Multiple(pos0, bulk) && Multiple(end, edge)
    ensures Planned(cs, address, if pos0 <= end then end else pos0, bulk, edge)
  {
    hide Planned, RoundDown, Multiple, ChunkOk;
    var pos: nat;
    cs, pos := PlanBulk(cs0, pos0, end, bulk, edge, address);
    TailStart(pos, end, bulk, edge);
    while pos < end
      invariant Multiple(pos, edge) && Planned(cs, address, pos, bulk, edge)
      invariant pos0 <= pos && (pos <= end || pos == pos0)
      decreases end - pos
    {
      TailStep(pos, end, bulk, edge);
      PlannedSnoc(cs, Chunk(pos, edge, 1), address, pos, bulk, edge);
      cs, pos := cs + [Chunk(pos, edge, 1)], pos + edge;
    }
  }

  /** Head, bulk and tail. The head loop runs up to a bulk boundary whether or not the range reaches one. */
  method Plan(address: nat, length: nat, bulk: nat, edge: nat) returns (cs: seq<Chunk>)
    requires Widths(bulk, edge) && Multiple(address, edge) && Multiple(length, edge)
    ensures Planned(cs, address, PlanEnd(address, length, bulk), bulk, edge)
  {
    hide Planned, RoundUp, RoundDown, Multiple, ChunkOk;
    Start(address, length, bulk, edge);
    var pos: nat;
    cs, pos := PlanHead(address, bulk, edge);
    cs := PlanRest(cs, pos, address + length, bulk, edge, address);
  }

  /** The plan stays inside the range exactly if the range reaches a bulk boundary; otherwise it goes on to
      the boundary behind the range. */
  lemma PlanStaysIff(address: nat, length: nat, bulk: nat)
    requires bulk in {1, 2, 4, 8}
    ensures PlanEnd(address, length, bulk) == address + length <==> RoundUp(address, bulk) <= address + length
    ensures RoundUp(address, bulk) <= address + length <==> exists b :: address <= b <= address + length && Multiple(b, bulk)
    ensures !(RoundUp(address, bulk) <= address + length) ==> PlanEnd(address, length, bulk) > address + length
  {
    RoundUpIs(address, bulk);
    hide RoundUp, Multiple;
    var r := RoundUp(address, bulk);
    forall b: nat | address <= b <= address + length && Multiple(b, bulk) ensures r <= b {
      RoundUpLeast(address, b, bulk);
    }
  }

  lemma RoundUpIs(n: nat, d: nat)
    requires d in {1, 2, 4, 8}
    ensures n <= RoundUp(n, d) && Multiple(RoundUp(n, d), d)
  {
    if d == 1 {
    } else if d == 2 {
    } else if d == 4 {
    } else {
    }
  }

  lemma RoundUpLeast(n: nat, b: nat, d: nat)
    requires n <= b && Multiple(b, d)
    ensures RoundUp(n, d) <= b
  {
    if d == 1 {
    } else if d == 2 {
    } else if d == 4 {
    } else {
    }
  }

  lemma Start(address: nat, length: nat, bulk: nat, edge: nat)
    requires Widths(bulk, edge) && Multiple(address, edge) && Multiple(length, edge)
    ensures Multiple(address + length, edge) && address <= RoundUp(address, bulk)
  {
    RoundUpIs(address, bulk);
    SumMultiple(address, length, edge);
  }

  lemma SumMultiple(a: nat, b: nat, d: nat)
    requires d > 0 && a % d == 0 && b % d == 0
    ensures (a + b) % d == 0
  {
    assert a == d * (a / d) && b == d * (b / d);
    assert d * (a / d + b / d) == d * (a / d) + d * (b / d);
    DivModUnique(a + b, d, a / d + b / d, 0);
  }

  /** A whole number of steps of `d` leads from one multiple to the next. */
  lemma Steps(a: nat, b: nat, d: nat, n: nat)
    requires d > 0 && a % d == 0 && b % d == 0 && a < b && n <= (b - a) / d
    ensures (b - a) / d > 0 && a + n * d <= b && (a + n * d) % d == 0
  {
    var p, q := a / d, b / d;
    assert a == d * p && b == d * q;
    StepsBetween(p, q, d, n);
  }

  lemma StepsBetween(p: nat, q: nat, d: nat, n: nat)
    requires d > 0 && d * p < d * q && n <= (d * q - d * p) / d
    ensures (d * q - d * p) / d == q - p > 0 && d * p + n * d <= d * q && (d * p + n * d) % d == 0
  {
    if q <= p {
      MulMonotone(d, q, p);
    }
    assert d * (q - p) == d * q - d * p;
    DivModUnique(d * q - d * p, d, q - p, 0);
    assert d * (p + n) == d * p + n * d;
    DivModUnique(d * p + n * d, d, p + n, 0);
    MulMonotone(d, p + n, q);
  }

  lemma HeadStep(address: nat, pos: nat, bulk: nat, edge: nat)
    requires Widths(bulk, edge) && pos <= RoundUp(address, bulk) && Multiple(pos, edge) && !Multiple(pos, bulk)
    ensures pos + edge <= RoundUp(address, bulk) && Multiple(pos + edge, edge) && ChunkOk(Chunk(pos, edge, 1), bulk, edge)
  {
    var r := RoundUp(address, bulk);
    assert Multiple(r, bulk);
    hide Multiple, RoundUp, ChunkOk;
    TailStart(r, r, bulk, edge);
    TailStep(pos, r, bulk, edge);
  }

  lemma HeadEnd(address: nat, pos: nat, bulk: nat)
    requires bulk in {1, 2, 4, 8} && address <= pos <= RoundUp(address, bulk) && Multiple(pos, bulk)
    ensures pos == RoundUp(address, bulk)
  {
    RoundUpLeast(address, pos, bulk);
  }

  lemma BulkStep(pos: nat, end: nat, bulk: nat, edge: nat, step: nat)
    requires Widths(bulk, edge) && Multiple(pos, bulk) && pos < RoundDown(end, bulk)
    requires var all := (RoundDown(end, bulk) - pos) / bulk; step == if all > OPERATIONS_PER_CYCLE then OPERATIONS_PER_CYCLE else all
    ensures 0 < step && pos + step * bulk <= RoundDown(end, bulk) && Multiple(pos + step * bulk, bulk)
    ensures ChunkOk(Chunk(pos, bulk, step), bulk, edge)
  {
    RoundDownIs(end, bulk);
    hide RoundDown;
    Steps(pos, RoundDown(end, bulk), bulk, step);
  }

  lemma RoundDownIs(n: nat, d: nat)
    requires d in {1, 2, 4, 8}
    ensures RoundDown(n, d) <= n && RoundDown(n, d) % d == 0
  {
    assert n == d * (n / d) + n % d;
    DivModUnique(n - n % d, d, n / d, 0);
  }

  lemma TailStart(pos: nat, end: nat, bulk: nat, edge: nat)
    requires Widths(bulk, edge) && Multiple(pos, bulk)
    ensures Multiple(pos, edge) && RoundDown(end, bulk) <= end
  {
    if bulk == 2 {
    } else if bulk == 4 {
      if edge == 1 {} else {}
    } else if bulk == 8 {
      if edge == 1 {} else if edge == 2 {} else {}
    }
  }

  lemma TailStep(pos: nat, end: nat, bulk: nat, edge: nat)
    requires Widths(bulk, edge) && pos < end && Multiple(pos, edge) && Multiple(end, edge)
    ensures pos + edge <= end && Multiple(pos + edge, edge) && ChunkOk(Chunk(pos, edge, 1), bulk, edge)
  {
    NextMultiple(pos, end, edge);
  }

  /** Multiples of `d` lie at least `d` apart. */
  lemma NextMultiple(a: nat, b: nat, d: nat)
    requires d > 0 && a % d == 0 && b % d == 0 && a < b
    ensures a + d <= b && (a + d) % d == 0
  {
    var p, q := a / d, b / d;
    assert a == d * p && b == d * q;
    assert d * (p + 1) == d * p + d;
    DivModUnique(a + d, d, p + 1, 0);
    if q <= p {
      MulMonotone(d, q, p);
    } else {
      MulMonotone(d, p + 1, q);
    }
  }

  lemma Room(size: nat, i: nat, count: nat)
    requires i < count
    ensures size * i + size == size * (i + 1) <= size * count
  {
  }

  /** A word as its bytes in memory, and back. */
  function Load(big: bool, bytes: seq<byte>): nat {
    FromBytes(if big then bytes else Reverse(bytes))
  }

  function Store(big: bool, value: nat, n: nat): (bytes: seq<byte>)
    ensures |bytes| == n
  {
    if big then ToBytes(value, n) else Reverse(ToBytes(value, n))
  }

  /** A big-endian device has the most significant byte at the lowest address, and a little-endian one at the
      highest. */
  lemma LoadOrder(big: bool, bytes: seq<byte>)
    requires |bytes| > 0
    ensures var n := |bytes| - 1;
            Load(big, bytes) == if big then bytes[0] * Pow256(n) + Load(big, bytes[1..]) else bytes[n] * Pow256(n) + Load(big, bytes[..n])
  {
    hide FromBytes;
    var n := |bytes| - 1;
    if big {
      MostSignificantFirst(bytes);
    } else {
      ReverseAppend(bytes[..n], [bytes[n]]);
      assert bytes[..n] + [bytes[n]] == bytes && Reverse([bytes[n]]) == [bytes[n]];
      MostSignificantFirst(Reverse(bytes));
    }
  }

  lemma StoreLoad(big: bool, bytes: seq<byte>)
    ensures Store(big, Load(big, bytes), |bytes|) == bytes
  {
    BytesRoundTrip(if big then bytes else Reverse(bytes));
    ReverseTwice(bytes);
  }

  /** Put the bytes of a word together, in the order of the device. */
  method Assemble(big: bool, bytes: seq<byte>) returns (value: nat)
    ensures value == Load(big, bytes)
  {
    value := 0;
    if big {
      for j := 0 to |bytes|
        invariant value == FromBytes(bytes[..j])
      {
        value := value * 256 + bytes[j];
        assert bytes[..j + 1][..j] == bytes[..j];
      }
      assert bytes[..|bytes|] == bytes;
    } else {
      var j := |bytes|;
      while j > 0
        invariant 0 <= j <= |bytes| && value == FromBytes(Reverse(bytes[j..]))
      {
        j := j - 1;
        value := value * 256 + bytes[j];
        assert bytes[j..][1..] == bytes[j + 1..];
        assert Reverse(bytes[j..])[..|bytes| - j - 1] == Reverse(bytes[j + 1..]);
      }
      assert bytes[0..] == bytes;
    }
  }

  /** Take a word apart into bytes, in the order of the device. */
  method Disassemble(big: bool, value: nat, n: nat) returns (bytes: seq<byte>)
    ensures bytes == Store(big, value, n)
  {
    var data := value;
    bytes := [];
    if big {
      var j := n;
      while j > 0
        invariant 0 <= j <= n && ToBytes(value, n) == ToBytes(data, j) + bytes
      {
        Regroup(ToBytes(data / 256, j - 1), [data % 256], bytes);
        bytes, data, j := [data % 256] + bytes, data / 256, j - 1;
      }
      assert ToBytes(data, 0) + bytes == bytes;
    } else {
      for j := 0 to n
        invariant Reverse(ToBytes(value, n)) == bytes + Reverse(ToBytes(data, n - j))
      {
        var low: seq<byte> := [data % 256];
        assert ToBytes(data, n - j) == ToBytes(data / 256, n - j - 1) + low;
        ReverseAppend(ToBytes(data / 256, n - j - 1), low);
        assert Reverse(low) == low;
        Regroup(bytes, low, Reverse(ToBytes(data / 256, n - j - 1)));
        bytes, data := bytes + low, data / 256;
      }
      assert Reverse(ToBytes(data, 0)) == [];
    }
  }

  lemma TilesStep(cs: seq<Chunk>, i: nat, lo: nat, hi: nat, bulk: nat, edge: nat)
    requires i < |cs| && Tiles(cs[i..], lo, hi) && ChunkOk(cs[i], bulk, edge)
    ensures cs[i].address == lo && cs[i].size > 0 && Tiles(cs[i + 1..], lo + cs[i].size * cs[i].count, hi)
    ensures lo + cs[i].size * cs[i].count <= hi
  {
    assert cs[i..][1..] == cs[i + 1..];
    TilesBound(cs[i + 1..], lo + cs[i].size * cs[i].count, hi);
  }

  lemma {:induction false} TilesBound(cs: seq<Chunk>, lo: nat, hi: nat)
    requires Tiles(cs, lo, hi)
    ensures lo <= hi
    decreases |cs|
  {
    if |cs| > 0 {
      assert cs[0].size * cs[0].count >= 0;
      TilesBound(cs[1..], lo + cs[0].size * cs[0].count, hi);
    }
  }

  lemma PlannedBound(cs: seq<Chunk>, lo: nat, hi: nat, bulk: nat, edge: nat)
    requires Planned(cs, lo, hi, bulk, edge)
    ensures lo <= hi
  {
    TilesBound(cs, lo, hi);
  }

  lemma TilesEnd(cs: seq<Chunk>, lo: nat, hi: nat)
    requires Tiles(cs, lo, hi) && cs == []
    ensures lo == hi
  {
  }

  /** The words are those of the file, from its start on. */
  predicate HeadOf(big: bool, words: seq<nat>, file: seq<byte>, size: nat) {
    forall k | 0 <= k < |words| :: size * k + size <= |file| && words[k] == Load(big, file[size * k..size * k + size])
  }

  lemma NothingQueued(big: bool, file: seq<byte>, size: nat)
    ensures HeadOf(big, [], file, size)
  {
  }

  lemma OneQueued(big: bool, words: seq<nat>, file: seq<byte>, size: nat, value: nat)
    requires HeadOf(big, words, file, size) && size * |words| + size <= |file|
    requires value == Load(big, file[size * |words|..size * |words| + size])
    ensures HeadOf(big, words + [value], file, size) && size * |words + [value]| == size * |words| + size
  {
    hide Load;
    assert size * (|words| + 1) == size * |words| + size;
  }

  /** Byte-addressed memory behind a bus, from address `base` on. */
  class Memory {
    const base: nat
    const big: bool
    const bytes: array<byte>

    /** Whether `n` bytes from `address` on are memory. */
    predicate Has(address: nat, n: nat) {
      base <= address && address + n <= base + bytes.Length
    }

    function At(address: nat, n: nat): (s: seq<byte>)
      requires Has(address, n)
      reads bytes
      ensures |s| == n
    {
      bytes[address - base..address - base + n]
    }

    lemma AtSplit(address: nat, n: nat, m: nat)
      requires Has(address, n + m)
      ensures At(address, n + m) == At(address, n) + At(address + n, m)
    {
    }

    method Read(address: nat, width: nat) returns (value: nat)
      requires Has(address, width)
      ensures value == Load(big, At(address, width))
    {
      value := Assemble(big, bytes[address - base..address - base + width]);
    }

    method Write(address: nat, width: nat, value: nat)
      requires Has(address, width)
      modifies bytes
      ensures At(address, width) == Store(big, value, width)
      ensures bytes[..address - base] == old(bytes[..address - base])
      ensures bytes[address - base + width..] == old(bytes[address - base + width..])
    {
      var data := Disassemble(big, value, width);
      forall i | 0 <= i < width {
        bytes[address - base + i] := data[i];
      }
    }

    /** The head transfers of a put, as they are queued: one word each, read from the file. They stay queued
        until the first wait behind the loop; the run ends here when the file does. */
    method QueueHead(address: nat, file: seq<byte>, bulk: nat, edge: nat) returns (ok: bool, queued: seq<nat>, pos: nat)
      requires Widths(bulk, edge) && Multiple(address, edge) && Multiple(|file|, edge)
      ensures ok <==> RoundUp(address, bulk) <= address + |file|
      ensures pos == (if ok then RoundUp(address, bulk) else address + |file|) == address + edge * |queued| && (ok ==> Multiple(pos, bulk))
      ensures HeadOf(big, queued, file, edge)
    {
      hide RoundUp, Multiple, ChunkOk, HeadOf, Load;
      NothingQueued(big, file, edge);
      Start(address, |file|, bulk, edge);
      queued, pos := [], address;
      while !Multiple(pos, bulk)
        invariant address <= pos <= RoundUp(address, bulk) && pos <= address + |file| && Multiple(pos, edge)
        invariant pos == address + edge * |queued| && HeadOf(big, queued, file, edge)
        decreases RoundUp(address, bulk) - pos
      {
        HeadStep(address, pos, bulk, edge);
        if pos == address + |file| {
          return false, queued, pos;
        }
        TailStep(pos, address + |file|, bulk, edge);
        var value := Assemble(big, file[pos - address..pos - address + edge]);
        OneQueued(big, queued, file, edge, value);
        queued, pos := queued + [value], pos + edge;
      }
      HeadEnd(address, pos, bulk);
      ok := true;
    }

    /** Waiting for the head: the queued words are written. */
    method FlushHead(address: nat, file: seq<byte>, edge: nat, queued: seq<nat>)
      requires edge > 0 && Has(address, |file|) && edge * |queued| <= |file| && HeadOf(big, queued, file, edge)
      modifies bytes
      ensures At(address, edge * |queued|) == file[..edge * |queued|]
      ensures bytes[..address - base] == old(bytes[..address - base])
      ensures bytes[address - base + |file|..] == old(bytes[address - base + |file|..])
    {
      hide Store, Load;
      var i, next: nat := 0, 0;
      while i < |queued|
        invariant 0 <= i <= |queued| && next == edge * i <= |file| && At(address, next) == file[..next]
        invariant bytes[..address - base] == old(bytes[..address - base])
        invariant bytes[address - base + |file|..] == old(bytes[address - base + |file|..])
      {
        Room(edge, i, |queued|);
        StoreLoad(big, file[next..next + edge]);
        PutWord(file, address, next, edge, queued[i]);
        next, i := next + edge, i + 1;
      }
    }

    /** One cycle of a put: `done` bytes of the file are written already. */
    method PutChunk(c: Chunk, file: seq<byte>, address: nat, done: nat) returns (next: nat)
      requires c.size > 0 && c.address == address + done && Has(address, |file|) && done + c.size * c.count <= |file|
      requires At(address, done) == file[..done]
      modifies bytes
      ensures next == done + c.size * c.count && At(address, next) == file[..next]
      ensures bytes[..address - base] == old(bytes[..address - base])
      ensures bytes[address - base + |file|..] == old(bytes[address - base + |file|..])
    {
      hide Store, Load;
      next := done;
      var i := 0;
      while i < c.count
        invariant 0 <= i <= c.count && next == done + c.size * i && At(address, next) == file[..next]
        invariant bytes[..address - base] == old(bytes[..address - base])
        invariant bytes[address - base + |file|..] == old(bytes[address - base + |file|..])
      {
        Room(c.size, i, c.count);
        var value := Assemble(big, file[next..next + c.size]);
        StoreLoad(big, file[next..next + c.size]);
        PutWord(file, address, next, c.size, value);
        next, i := next + c.size, i + 1;
      }
    }

    method PutWord(file: seq<byte>, address: nat, next: nat, size: nat, value: nat)
      requires Has(address, |file|) && next + size <= |file| && At(address, next) == file[..next]
      requires Store(big, value, size) == file[next..next + size]
      modifies bytes
      ensures At(address, next + size) == file[..next + size]
      ensures bytes[..address - base] == old(bytes[..address - base])
      ensures bytes[address - base + |file|..] == old(bytes[address - base + |file|..])
    {
      ghost var before := bytes[..];
      Write(address + next, size, value);
      assert At(address, next + size) == At(address, next) + At(address + next, size);
      assert At(address, next) == before[address - base..address - base + next];
      assert file[..next + size] == file[..next] + file[next..next + size];
    }

    /** One cycle of a get: its words are appended to the file, which holds `done` bytes already. The file
        position is only moved if an answer is not where the last one ended. */
    method GetChunk(c: Chunk, out: OutputFile, address: nat)
      requires c.size > 0 && c.address == address + |out.content| && Has(address, |out.content| + c.size * c.count)
      requires out.content == At(address, |out.content|) && out.position == out.lastOffset == |out.content|
      modifies out
      ensures |out.content| == old(|out.content|) + c.size * c.count
      ensures out.content == At(address, |out.content|) && out.position == out.lastOffset == |out.content|
    {
      var i := 0;
      while i < c.count
        invariant 0 <= i <= c.count && |out.content| == old(|out.content|) + c.size * i
        invariant out.content == At(address, |out.content|) && out.position == out.lastOffset == |out.content|
      {
        Room(c.size, i, c.count);
        GetWord(c.address + c.size * i, c.size, out, address);
        i := i + 1;
      }
    }

    method GetWord(operation: nat, size: nat, out: OutputFile, address: nat)
      requires operation == address + |out.content| && Has(address, |out.content| + size)
      requires out.content == At(address, |out.content|) && out.position == out.lastOffset == |out.content|
      modifies out
      ensures |out.content| == old(|out.content|) + size
      ensures out.content == At(address, |out.content|) && out.position == out.lastOffset == |out.content|
    {
      hide Load, Store, Patched;
      AtSplit(address, |out.content|, size);
      var value := Read(operation, size);
      var data := Disassemble(big, value, size);
      StoreLoad(big, At(operation, size));
      PatchedEnd(out.content, data);
      out.Answer(operation - address, data);
    }

    /** eb-put: the file is written to the range, and nothing outside it changes. If the range does not reach
        a bulk boundary the head loop runs out of file: what it queued is never sent, and nothing changes. */
    method Put(address: nat, file: seq<byte>, bulk: nat, edge: nat) returns (ok: bool)
      requires Widths(bulk, edge) && Multiple(address, edge) && Multiple(|file|, edge) && Has(address, |file|)
      modifies bytes
      ensures ok <==> RoundUp(address, bulk) <= address + |file|
      ensures ok ==> At(address, |file|) == file
      ensures !ok ==> bytes[..] == old(bytes[..])
      ensures bytes[..address - base] == old(bytes[..address - base])
      ensures bytes[address - base + |file|..] == old(bytes[address - base + |file|..])
    {
      hide RoundUp, Tiles, ChunkOk, Multiple;
      var queued, pos;
      ok, queued, pos := QueueHead(address, file, bulk, edge);
      if !ok {
        return;
      }
      FlushHead(address, file, edge, queued);
      Start(address, |file|, bulk, edge);
      PlannedNone(pos, bulk, edge);
      var cs := PlanRest([], pos, address + |file|, bulk, edge, pos);
      assert cs[0..] == cs;
      PutRest(address, file, bulk, edge, cs, pos - address);
    }

    /** The bulk and tail transfers of a put: `start` bytes of the file are written already. */
    method PutRest(address: nat, file: seq<byte>, ghost bulk: nat, ghost edge: nat, cs: seq<Chunk>, start: nat)
      requires Has(address, |file|) && start <= |file| && At(address, start) == file[..start]
      requires Planned(cs, address + start, address + |file|, bulk, edge)
      modifies bytes
      ensures At(address, |file|) == file
      ensures bytes[..address - base] == old(bytes[..address - base])
      ensures bytes[address - base + |file|..] == old(bytes[address - base + |file|..])
    {
      hide Tiles, ChunkOk;
      assert cs[0..] == cs;
      var done: nat, i := start, 0;
      while i < |cs|
        invariant 0 <= i <= |cs| && done <= |file| && Tiles(cs[i..], address + done, address + |file|) && At(address, done) == file[..done]
        invariant bytes[..address - base] == old(bytes[..address - base])
        invariant bytes[address - base + |file|..] == old(bytes[address - base + |file|..])
      {
        TilesStep(cs, i, address + done, address + |file|, bulk, edge);
        done := PutChunk(cs[i], file, address, done);
        i := i + 1;
      }
      TilesEnd(cs[i..], address + done, address + |file|);
    }

    /** eb-get: the file is what memory holds from the address on, up to where the plan ends. */
    method Get(address: nat, length: nat, bulk: nat, edge: nat) returns (file: seq<byte>)
      requires Widths(bulk, edge) && Multiple(address, edge) && Multiple(length, edge)
      requires Has(address, PlanEnd(address, length, bulk) - address)
      ensures file == At(address, PlanEnd(address, length, bulk) - address)
    {
      hide RoundUp, Tiles, ChunkOk, Multiple, PlanEnd;
      var cs := Plan(address, length, bulk, edge);
      ghost var end := PlanEnd(address, length, bulk);
      var out := new OutputFile();
      PlannedBound(cs, address, end, bulk, edge);
      var i := 0;
      while i < |cs|
        invariant 0 <= i <= |cs| && address + |out.content| <= end && Tiles(cs[i..], address + |out.content|, end)
        invariant out.content == At(address, |out.content|) && out.position == out.lastOffset == |out.content|
        invariant fresh(out)
      {
        TilesStep(cs, i, address + |out.content|, end, bulk, edge);
        GetChunk(cs[i], out, address);
        i := i + 1;
      }
      TilesEnd(cs[i..], address + |out.content|, end);
      file := out.content;
    }

    /** What was put comes back, in either byte order and whatever widths the two transfers use. */
    method PutThenGet(address: nat, file: seq<byte>, bulk: nat, edge: nat, bulk': nat, edge': nat) returns (copy: seq<byte>)
      requires Widths(bulk, edge) && Widths(bulk', edge') && Has(address, |file|)
      requires Multiple(address, edge) && Multiple(|file|, edge) && Multiple(address, edge') && Multiple(|file|, edge')
      requires RoundUp(address, bulk) <= address + |file| && RoundUp(address, bulk') <= address + |file|
      modifies bytes
      ensures copy == file
    {
      var ok := Put(address, file, bulk, edge);
      copy := Get(address, |file|, bulk', edge');
    }
  }

  /** A file after writing some bytes at an offset. */
  function Patched(content: seq<byte>, offset: nat, data: seq<byte>): seq<byte>
    requires offset <= |content|
  {
    content[..offset] + data + if offset + |data| <= |content| then content[offset + |data|..] else []
  }

  lemma PatchedEnd(content: seq<byte>, data: seq<byte>)
    ensures Patched(content, |content|, data) == content + data
  {
  }

  /** The file a get writes, with the offset behind the last answer. */
  class OutputFile {
    var content: seq<byte>
    var position: nat
    var lastOffset: nat

    constructor ()
      ensures content == [] && position == 0 && lastOffset == 0
    {
      content, position, lastOffset := [], 0, 0;
    }

    method Answer(offset: nat, data: seq<byte>)
      requires offset <= |content| && position == lastOffset <= |content|
      modifies this
      ensures content == Patched(old(content), offset, data)
      ensures position == lastOffset == offset + |data|
    {
      if offset != lastOffset {
        position, lastOffset := offset, offset;
      }
      content := Patched(content, position, data);
      position, lastOffset := position + |data|, lastOffset + |data|;
    }
  }
}
