/**
 The baud rate of the USB serial line: the host's SET_LINE_CODING (section 6.2.12 of USB CDC 1.1) carries
 a 32-bit speed, which is scaled in 32-bit arithmetic and shifted out bit by bit.
 */
module Baud {
  import opened Words

  /** A C `unsigned long` of 32 bits. Every operation on it is checked not to overflow. */
  newtype uint32 = x: int | 0 <= x < 0x1_0000_0000

  /** 62.5 MHz / 8, divided by the factors of two that are multiplied in again. */
  const DIVISOR: uint32 := 1953125

  /** `speed * 2^14 / 1953125`, rounded to nearest. */
  function Scaled(speed: nat): nat {
    (speed * 0x4000 + 976562) / 1953125
  }

  /** It is the nearest whole number; there are no ties, as the divisor is odd. */
  lemma ScaledIsNearest(speed: nat, other: nat)
    ensures -976562 <= Scaled(speed) * 1953125 - speed * 0x4000 <= 976562
    ensures other != Scaled(speed) ==> other * 1953125 - speed * 0x4000 > 976562 || speed * 0x4000 - other * 1953125 > 976562
  {
    var n := speed * 0x4000 + 976562;
    assert n == n / 1953125 * 1953125 + n % 1953125;
  }

  /** The 17 bits of the line hold the value exactly for speeds up to 15624940. */
  lemma FitsIff(speed: nat)
    ensures Scaled(speed) < Pow2(17) <==> speed <= 15_624_940
  {
    assert Pow2(17) == 0x2_0000 by { Pow2Values(); }
  }

  lemma Pow2Values()
    ensures Pow2(4) == 16 && Pow2(8) == 256 && Pow2(12) == 4096 && Pow2(16) == 0x1_0000 && Pow2(17) == 0x2_0000
  {
    assert Pow2(4) == 16;
    assert Pow2(8) == 256;
    assert Pow2(12) == 4096;
    assert Pow2(16) == 0x1_0000;
  }

  /** The low `n` bits of a number, lowest first, and the number they spell. */
  function LowBits(v: nat, n: nat): (bits: seq<bool>)
    ensures |bits| == n
  {
    if n == 0 then [] else [v % 2 == 1] + LowBits(v / 2, n - 1)
  }

  function FromBits(bits: seq<bool>): nat {
    if |bits| == 0 then 0 else (if bits[0] then 1 else 0) + 2 * FromBits(bits[1..])
  }

  lemma {:induction false} BitsRoundTrip(v: nat, n: nat)
    ensures FromBits(LowBits(v, n)) == v % Pow2(n)
  {
    if n > 0 {
      BitsRoundTrip(v / 2, n - 1);
      ModSplit(v, 2, Pow2(n - 1));
    }
  }

  /** The other end gets the scaled speed itself, exactly for speeds up to 15624940. */
  lemma ReceivedIff(speed: nat)
    ensures FromBits(LowBits(Scaled(speed), 17)) == Scaled(speed) <==> speed <= 15_624_940
  {
    hide Scaled, Pow2;
    BitsRoundTrip(Scaled(speed), 17);
    FitsIff(speed);
    Reduced(Scaled(speed), Pow2(17));
  }

  lemma Reduced(v: nat, p: nat)
    requires p > 0
    ensures v % p == v <==> v < p
  {
  }

  lemma {:induction false} LowBitsSnoc(v: nat, n: nat)
    ensures LowBits(v, n + 1) == LowBits(v, n) + [v / Pow2(n) % 2 == 1]
  {
    if n > 0 {
      LowBitsSnoc(v / 2, n - 1);
      Halved(v, Pow2(n - 1));
    }
  }

  lemma Halved(v: nat, p: nat)
    requires p > 0
    ensures v / (2 * p) == v / 2 / p
  {
    var q := v / 2 / p;
    var r := v / 2 % p;
    assert v / 2 == p * q + r;
    assert v == (2 * p) * q + (2 * r + v % 2);
    DivModUnique(v, 2 * p, q, 2 * r + v % 2);
  }

  /** The two lines of the port that carry the speed, and the other six. */
  predicate Data(x: bv8) {
    x & 1 == 1
  }

  predicate Clock(x: bv8) {
    x & 2 == 2
  }

  function Others(x: bv8): bv8 {
    x & 0xFC
  }

  /** What the other end of the port takes in: the data bit whenever the clock bit rises. */
  function Clocked(last: bv8, log: seq<bv8>): (bits: seq<bool>)
    decreases log
  {
    if |log| == 0 then []
    else (if !Clock(last) && Clock(log[0]) then [Data(log[0])] else []) + Clocked(log[0], log[1..])
  }

  function Last(start: bv8, log: seq<bv8>): bv8 {
    if |log| == 0 then start else log[|log| - 1]
  }

  lemma {:induction false} ClockedSnoc(start: bv8, log: seq<bv8>, x: bv8)
    ensures Clocked(start, log + [x]) == Clocked(start, log) + (if !Clock(Last(start, log)) && Clock(x) then [Data(x)] else [])
    decreases |log|
  {
    hide Clock, Data;
    if |log| == 0 {
      assert (log + [x])[1..] == [];
    } else {
      ClockedSnoc(log[0], log[1..], x);
      assert (log + [x])[1..] == log[1..] + [x];
    }
  }

  class Board {
    /** Port A, and every value it has taken since `start`. */
    var ioa: bv8
    ghost const start: bv8
    ghost var log: seq<bv8>

    ghost predicate Valid()
      reads this
    {
      ioa == Last(start, log)
    }

    constructor (ioa: bv8)
      ensures Valid() && this.ioa == ioa && start == ioa && log == []
    {
      this.ioa, start, log := ioa, ioa, [];
    }

    method Drive(x: bv8)
      requires Valid()
      modifies this
      ensures Valid() && ioa == x && log == old(log) + [x]
    {
      ioa := x;
      log := log + [x];
    }

    /** One bit: data, then the clock up and down. A clock that is up already does not rise. */
    method ShiftOut(bit: bool)
      requires Valid()
      modifies this
      ensures Valid() && !Clock(ioa) && Others(ioa) == Others(old(ioa))
      ensures Clocked(start, log) == Clocked(start, old(log)) + Risen(old(Clock(ioa)), [bit])
    {
      hide *;
      PulseOthers(ioa, bit);
      LastIs();
      PulseClocked(start, log, ioa, bit);
      Drive(WithData(ioa, bit));
      Drive(ioa | 2);
      Drive(ioa & 0xFD);
    }

    lemma LastIs()
      requires Valid()
      ensures ioa == Last(start, log)
    {
    }

    /** BangBaudRate: in every case the intermediate values fit 32 bits, the scaled speed is computed as if
        in one step, and its low 17 bits reach the other end, lowest first; the lowest is lost if the clock
        was left up. */
    method BangBaudRate(lineCode: seq<byte>) returns (value: uint32)
      requires Valid() && |lineCode| >= 4
      modifies this
      ensures Valid() && !Clock(ioa) && Others(ioa) == Others(old(ioa))
      ensures value as int == Scaled(Speed(lineCode))
      ensures Clocked(start, log)
           == Clocked(start, old(log)) + if old(Clock(ioa)) then LowBits(value as int / 2, 16) else LowBits(value as int, 17)
    {
      hide Clock, Data, Others, Clocked, Scaled, LowBits, Pow2, Risen;
      var speed: uint32 := lineCode[3] as uint32;
      speed := speed * 256 + lineCode[2] as uint32;
      speed := speed * 256 + lineCode[1] as uint32;
      speed := speed * 256 + lineCode[0] as uint32;
      value := Scale(speed);
      var shift, i := value, 0;
      ghost var high := Clock(ioa);
      NoBits(value as int);
      RisenNone(high);
      assert Clocked(start, log) + [] == Clocked(start, log);
      while i <= 16
        invariant 0 <= i <= 17 && Valid() && (Clock(ioa) <==> high && i == 0) && Others(ioa) == Others(old(ioa))
        invariant shift as int == (value as int) / Pow2(i)
        invariant Clocked(start, log) == Clocked(start, old(log)) + Risen(high, LowBits(value as int, i))
      {
        LowBitsSnoc(value as int, i);
        RisenSnoc(high, LowBits(value as int, i), shift % 2 == 1);
        Regroup(Clocked(start, old(log)), Risen(high, LowBits(value as int, i)), Risen(high && i == 0, [shift % 2 == 1]));
        Halves(value as int, i);
        ShiftOut(shift % 2 == 1);
        shift, i := shift / 2, i + 1;
      }
      RisenAll(high, value as int);
    }
  }

  /** The bits whose clock edge rises, when the clock may have been up before the first. */
  function Risen(high: bool, bits: seq<bool>): seq<bool> {
    if high && |bits| > 0 then bits[1..] else bits
  }

  lemma RisenNone(high: bool)
    ensures Risen(high, []) == []
  {
  }

  lemma RisenSnoc(high: bool, bits: seq<bool>, bit: bool)
    ensures Risen(high, bits + [bit]) == Risen(high, bits) + Risen(high && |bits| == 0, [bit])
  {
    assert [bit][1..] == [];
  }

  lemma RisenAll(high: bool, v: nat)
    ensures Risen(high, LowBits(v, 17)) == if high then LowBits(v / 2, 16) else LowBits(v, 17)
  {
  }

  function Speed(lineCode: seq<byte>): nat
    requires |lineCode| >= 4
  {
    lineCode[0] as int + 0x100 * lineCode[1] as int + 0x1_0000 * lineCode[2] as int + 0x100_0000 * lineCode[3] as int
  }

  lemma Halves(v: nat, n: nat)
    ensures v / Pow2(n) / 2 == v / Pow2(n + 1)
  {
    var p := Pow2(n);
    var q, r := v / p / 2, v / p % 2;
    assert v == p * (v / p) + v % p;
    assert v / p == 2 * q + r;
    assert p * (2 * q + r) == (2 * p) * q + p * r;
    DivModUnique(v, 2 * p, q, p * r + v % p);
  }

  lemma NoBits(v: nat)
    ensures LowBits(v, 0) == [] && v / Pow2(0) == v
  {
  }

  /** The port with the data bit set. */
  function WithData(ioa: bv8, bit: bool): bv8 {
    (ioa & 0xFE) | (if bit then 1 else 0)
  }

  lemma PulseBits(ioa: bv8, bit: bool)
    ensures var x := WithData(ioa, bit);
            Clock(x) == Clock(ioa) && Clock(x | 2) && !Clock((x | 2) & 0xFD) && Data(x | 2) == bit
  {
  }

  lemma PulseOthers(ioa: bv8, bit: bool)
    ensures var x := WithData(ioa, bit); !Clock((x | 2) & 0xFD) && Others((x | 2) & 0xFD) == Others(ioa)
  {
  }

  /** What one pulse of the clock hands over. */
  lemma PulseClocked(start: bv8, log: seq<bv8>, ioa: bv8, bit: bool)
    requires ioa == Last(start, log)
    ensures var x := WithData(ioa, bit);
            Clocked(start, log + [x] + [x | 2] + [(x | 2) & 0xFD]) == Clocked(start, log) + Risen(Clock(ioa), [bit])
  {
    hide Clock, Data, Clocked, WithData;
    PulseBits(ioa, bit);
    var x := WithData(ioa, bit);
    var before := Clocked(start, log);
    ClockedSnoc(start, log, x);
    ClockedSnoc(start, log + [x], x | 2);
    ClockedSnoc(start, log + [x] + [x | 2], (x | 2) & 0xFD);
    assert before + [] == before && [bit][1..] == [];
    assert before + Risen(Clock(ioa), [bit]) + [] == before + Risen(Clock(ioa), [bit]);
  }

  /** Division in two steps of seven bits, each of which stays below 32 bits. */
  method Scale(speed: uint32) returns (high: uint32)
    ensures high as int == Scaled(speed as int)
  {
    high := speed / DIVISOR;
    var low := speed % DIVISOR;
    high, low := high * 128, low * 128;
    high := high + low / DIVISOR;
    low := low % DIVISOR;
    assert speed as int * 128 == high as int * 1953125 + low as int;
    high, low := high * 128, low * 128;
    low := low + DIVISOR / 2;
    high := high + low / DIVISOR;
  }
}
