/**
 EtherBone records: the unit of the wire format, its byte encoding, and the parser the slave runs.
 */
module Records {
  import opened Words
  import opened Lanes

  type Mask = n: int | 0 < n < 256 witness 1

  const RECORD_BCA: Mask := 0x80
  const RECORD_RCA: Mask := 0x40
  const RECORD_RFF: Mask := 0x20
  const RECORD_CYC: Mask := 0x08
  const RECORD_WCA: Mask := 0x04
  const RECORD_WFF: Mask := 0x02

  /** `bwa` and `bra` exist on the wire only in front of a non-empty list; otherwise they are 0. */
  datatype Record = Record(
    cyc: bool, wca: bool, wff: bool, bca: bool, rca: bool, rff: bool,
    select: byte, bwa: nat, values: seq<nat>, bra: nat, addrs: seq<nat>)

  /** A record that carries only the end-of-cycle flag. */
  const TERMINATOR := Record(true, false, false, false, false, false, 0, 0, [], 0, [])

  function Flags(r: Record): byte {
    (if r.bca then RECORD_BCA else 0) + (if r.rca then RECORD_RCA else 0) + (if r.rff then RECORD_RFF else 0)
    + (if r.cyc then RECORD_CYC else 0) + (if r.wca then RECORD_WCA else 0) + (if r.wff then RECORD_WFF else 0)
  }

  predicate HasFlag(flags: byte, mask: Mask) {
    (flags / mask) % 2 == 1
  }

  function Zeros(n: nat): (s: seq<byte>)
    ensures |s| == n
  {
    seq(n, _ => 0)
  }

  function Header(port: Port, flags: byte, select: byte, wcount: byte, rcount: byte): (s: seq<byte>)
    requires port.Valid()
    ensures |s| == port.RecordAlignment()
  {
    [flags, select, wcount, rcount] + Zeros(port.RecordAlignment() - 4)
  }

  /** Bytes taken by n words. Written as a sum; SpanIsProduct says it is the product. */
  function Span(n: nat, align: nat): (bytes: nat) {
    if n == 0 then 0 else align + Span(n - 1, align)
  }

  lemma {:induction false} SpanIsProduct(n: nat, align: nat)
    ensures Span(n, align) == n * align
  {
    if n != 0 {
      SpanIsProduct(n - 1, align);
      assert n * align == align + (n - 1) * align;
    }
  }

  function WordBytes(ws: seq<nat>, align: nat): (s: seq<byte>)
    ensures |s| == Span(|ws|, align)
  {
    if |ws| == 0 then [] else ToBytes(ws[0], align) + WordBytes(ws[1..], align)
  }

  /** A base address followed by its words; nothing at all for an empty list. */
  function Block(base: nat, ws: seq<nat>, align: nat): (s: seq<byte>)
    ensures |s| == Span(BlockWords(|ws|), align)
  {
    if |ws| == 0 then [] else ToBytes(base, align) + WordBytes(ws, align)
  }

  function BlockWords(n: nat): nat {
    if n == 0 then 0 else n + 1
  }

  predicate WordsFit(ws: seq<nat>, align: nat) {
    forall i :: 0 <= i < |ws| ==> ws[i] < Pow256(align)
  }

  predicate BlockFits(base: nat, ws: seq<nat>, align: nat) {
    |ws| <= 255 && WordsFit(ws, align) && (if |ws| == 0 then base == 0 else base < Pow256(align))
  }

  /** The record can be represented on this port. */
  predicate RecordFits(port: Port, r: Record)
    requires port.Valid()
  {
    BlockFits(r.bwa, r.values, port.Alignment()) && BlockFits(r.bra, r.addrs, port.Alignment())
  }

  function RecordLength(port: Port, wcount: nat, rcount: nat): nat
    requires port.Valid()
  {
    port.RecordAlignment() + Span(BlockWords(wcount), port.Alignment()) + Span(BlockWords(rcount), port.Alignment())
  }

  function Encode(port: Port, r: Record): (s: seq<byte>)
    requires port.Valid() && RecordFits(port, r)
    ensures |s| == RecordLength(port, |r.values|, |r.addrs|)
  {
    Header(port, Flags(r), r.select, |r.values|, |r.addrs|)
    + Block(r.bwa, r.values, port.Alignment())
    + Block(r.bra, r.addrs, port.Alignment())
  }

  function EncodeAll(port: Port, rs: seq<Record>): (s: seq<byte>)
    requires port.Valid() && forall i :: 0 <= i < |rs| ==> RecordFits(port, rs[i])
  {
    if |rs| == 0 then [] else Encode(port, rs[0]) + EncodeAll(port, rs[1..])
  }

  /** Words parsed from the front of a byte string. */
  function ParseWords(bytes: seq<byte>, n: nat, align: nat): (ws: seq<nat>)
    requires |bytes| >= Span(n, align)
    ensures |ws| == n
  {
    if n == 0 then [] else
      [FromBytes(bytes[..align])] + ParseWords(bytes[align..], n - 1, align)
  }

  /** The base address in front of n words, 0 when there is none. */
  function ParseBase(bytes: seq<byte>, n: nat, align: nat): nat
    requires |bytes| >= Span(BlockWords(n), align)
  {
    if n == 0 then 0 else
      FromBytes(bytes[..align])
  }

  function ParseBlock(bytes: seq<byte>, n: nat, align: nat): (ws: seq<nat>)
    requires |bytes| >= Span(BlockWords(n), align)
    ensures |ws| == n
  {
    if n == 0 then [] else
      ParseWords(bytes[align..], n, align)
  }

  /** Whether a whole record is at the front of the input. */
  predicate Complete(port: Port, bytes: seq<byte>)
    requires port.Valid()
  {
    |bytes| >= port.RecordAlignment() && |bytes| >= RecordLength(port, bytes[2], bytes[3])
  }

  function ParseRecord(port: Port, bytes: seq<byte>): (r: Record)
    requires port.Valid() && Complete(port, bytes)
    ensures |r.values| == bytes[2] && |r.addrs| == bytes[3]
  {
    var align := port.Alignment();
    var flags := bytes[0];
    var body := bytes[port.RecordAlignment()..];
    var tail := body[Span(BlockWords(bytes[2]), align)..];
    Record(HasFlag(flags, RECORD_CYC), HasFlag(flags, RECORD_WCA), HasFlag(flags, RECORD_WFF),
           HasFlag(flags, RECORD_BCA), HasFlag(flags, RECORD_RCA), HasFlag(flags, RECORD_RFF),
           bytes[1],
           ParseBase(body, bytes[2], align), ParseBlock(body, bytes[2], align),
           ParseBase(tail, bytes[3], align), ParseBlock(tail, bytes[3], align))
  }

  lemma FlagsRoundTrip(r: Record)
    ensures HasFlag(Flags(r), RECORD_CYC) == r.cyc && HasFlag(Flags(r), RECORD_WCA) == r.wca
    ensures HasFlag(Flags(r), RECORD_WFF) == r.wff && HasFlag(Flags(r), RECORD_BCA) == r.bca
    ensures HasFlag(Flags(r), RECORD_RCA) == r.rca && HasFlag(Flags(r), RECORD_RFF) == r.rff
  {}

  /** The flag byte, bit by bit. */
  lemma FlagBits(r: Record)
    ensures var f := Flags(r);
            && Bit(f, 7) == r.bca && Bit(f, 6) == r.rca && Bit(f, 5) == r.rff && !Bit(f, 4)
            && Bit(f, 3) == r.cyc && Bit(f, 2) == r.wca && Bit(f, 1) == r.wff && !Bit(f, 0)
  {
    var u7 := Digit(r.bca);
    var u6 := 2 * u7 + Digit(r.rca);
    var u5 := 2 * u6 + Digit(r.rff);
    var u4 := 2 * u5 + Digit(false);
    var u3 := 2 * u4 + Digit(r.cyc);
    var u2 := 2 * u3 + Digit(r.wca);
    var u1 := 2 * u2 + Digit(r.wff);
    assert Flags(r) == 2 * u1 + Digit(false);
    hide Flags, Digit;
    LowBit(Flags(r), u1, false);
    LowBit(u1, u2, r.wff);
    LowBit(u2, u3, r.wca);
    LowBit(u3, u4, r.cyc);
    LowBit(u4, u5, false);
    LowBit(u5, u6, r.rff);
    LowBit(u6, u7, r.rca);
    OneDigit(r.bca);
    hide Bit;
  }

  function Digit(b: bool): nat {
    if b then 1 else 0
  }

  lemma OneDigit(b: bool)
    ensures Bit(Digit(b), 0) == b
  {}

  lemma LowBit(v: nat, u: nat, b: bool)
    requires v == 2 * u + Digit(b)
    ensures Bit(v, 0) == b
    ensures forall i: nat | i > 0 :: Bit(v, i) == Bit(u, i - 1)
  {}

  lemma {:induction false} ParseWordsRoundTrip(ws: seq<nat>, rest: seq<byte>, align: nat)
    requires WordsFit(ws, align)
    ensures ParseWords(WordBytes(ws, align) + rest, |ws|, align) == ws
  {
    if |ws| != 0 {
      var bytes := WordBytes(ws, align) + rest;
      var first := ToBytes(ws[0], align);
      assert bytes == first + (WordBytes(ws[1..], align) + rest);
      assert bytes[..align] == first && bytes[align..] == WordBytes(ws[1..], align) + rest;
      WordRoundTrip(ws[0], align);
      ParseWordsRoundTrip(ws[1..], rest, align);
    }
  }

  lemma ParseBlockRoundTrip(base: nat, ws: seq<nat>, rest: seq<byte>, align: nat)
    requires BlockFits(base, ws, align)
    ensures ParseBase(Block(base, ws, align) + rest, |ws|, align) == base
    ensures ParseBlock(Block(base, ws, align) + rest, |ws|, align) == ws
  {
    if |ws| != 0 {
      var bytes := Block(base, ws, align) + rest;
      assert bytes == ToBytes(base, align) + (WordBytes(ws, align) + rest);
      assert bytes[..align] == ToBytes(base, align) && bytes[align..] == WordBytes(ws, align) + rest;
      WordRoundTrip(base, align);
      ParseWordsRoundTrip(ws, rest, align);
    }
  }

  /** What is parsed from a header, a block of writes, a block of reads and whatever follows. */
  lemma ParsedParts(port: Port, h: seq<byte>, w: seq<byte>, b: seq<byte>, rest: seq<byte>)
    requires port.Valid() && |h| == port.RecordAlignment()
    requires |w| == Span(BlockWords(h[2]), port.Alignment()) && |b| == Span(BlockWords(h[3]), port.Alignment())
    ensures var bytes, align := h + w + b + rest, port.Alignment();
            && Complete(port, bytes) && bytes[RecordLength(port, h[2], h[3])..] == rest
            && ParseRecord(port, bytes)
               == Record(HasFlag(h[0], RECORD_CYC), HasFlag(h[0], RECORD_WCA), HasFlag(h[0], RECORD_WFF),
                         HasFlag(h[0], RECORD_BCA), HasFlag(h[0], RECORD_RCA), HasFlag(h[0], RECORD_RFF), h[1],
                         ParseBase(w + (b + rest), h[2], align), ParseBlock(w + (b + rest), h[2], align),
                         ParseBase(b + rest, h[3], align), ParseBlock(b + rest, h[3], align))
  {
    hide HasFlag, ParseBase, ParseBlock, Span, Port.Alignment, BlockWords;
    Split(h, w, b, rest);
    var bytes := h + w + b + rest;
    assert bytes[0] == h[0] && bytes[1] == h[1] && bytes[2] == h[2] && bytes[3] == h[3];
  }

  lemma EncodedParts(port: Port, r: Record)
    requires port.Valid() && RecordFits(port, r)
    ensures |r.values| <= 255 && |r.addrs| <= 255
    ensures BlockFits(r.bwa, r.values, port.Alignment()) && BlockFits(r.bra, r.addrs, port.Alignment())
    ensures var h := Header(port, Flags(r), r.select, |r.values|, |r.addrs|);
            && |h| >= 4 && h[0] == Flags(r) && h[1] == r.select && h[2] == |r.values| && h[3] == |r.addrs|
            && Encode(port, r) == h + Block(r.bwa, r.values, port.Alignment()) + Block(r.bra, r.addrs, port.Alignment())
  {
    hide Flags, Block, Span, Port.Alignment;
  }

  /** Parsing undoes encoding, whatever follows on the wire. */
  lemma RecordRoundTrip(port: Port, r: Record, rest: seq<byte>)
    requires port.Valid() && RecordFits(port, r)
    ensures var bytes := Encode(port, r) + rest;
            Complete(port, bytes) && ParseRecord(port, bytes) == r
            && bytes[RecordLength(port, |r.values|, |r.addrs|)..] == rest
  {
    hide *;
    EncodedParts(port, r);
    var align := port.Alignment();
    var w, b := Block(r.bwa, r.values, align), Block(r.bra, r.addrs, align);
    var h := Header(port, Flags(r), r.select, |r.values|, |r.addrs|);
    ParsedParts(port, h, w, b, rest);
    FlagsRoundTrip(r);
    ParseBlockRoundTrip(r.bwa, r.values, b + rest, align);
    ParseBlockRoundTrip(r.bra, r.addrs, rest, align);
  }

  lemma Split(h: seq<byte>, w: seq<byte>, b: seq<byte>, rest: seq<byte>)
    ensures var bytes := h + w + b + rest;
            && bytes[..|h|] == h
            && bytes[|h|..] == w + (b + rest)
            && bytes[|h| + |w| + |b|..] == rest
    ensures (w + (b + rest))[|w|..] == b + rest
  {}
}
