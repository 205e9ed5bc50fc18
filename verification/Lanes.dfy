/**
 Negotiated port widths and the byte-enable ("select") byte of a record: which byte lanes of the
 data bus an operation uses, and how the slave recovers size and shift from it.
 */
module Lanes {
  import opened Words

  /** Data and address width of a negotiated link, in bytes. */
  datatype Port = Port(data: nat, addr: nat)
  {
    predicate Valid() {
      IsWidth(data) && IsWidth(addr)
    }

    /** Every address and data word on the wire takes this many bytes. */
    function Alignment(): (n: nat)
      requires Valid()
      ensures n == 2 || n == 4 || n == 8
      ensures data <= n && addr <= n
    {
      var biggest := if addr > data then addr else data;
      2 + (if biggest >= 4 then 2 else 0) + (if biggest >= 8 then 4 else 0)
    }

    /** Size of a record header, and of the packet header. */
    function RecordAlignment(): (n: nat)
      requires Valid()
      ensures n == 4 || n == 8
    {
      4 + (if addr >= 8 || data >= 8 then 4 else 0)
    }
  }

  /** Words take the fewest of 2, 4 or 8 bytes that hold both an address and a data word, and headers as many
      bytes as a word, but at least four. */
  lemma AlignmentIs(port: Port, n: nat)
    requires port.Valid() && (n == 2 || n == 4 || n == 8)
    ensures port.Alignment() <= n <==> port.data <= n && port.addr <= n
    ensures port.RecordAlignment() == if port.Alignment() == 2 then 4 else port.Alignment()
  {}

  predicate IsWidth(n: nat) {
    n == 1 || n == 2 || n == 4 || n == 8
  }

  /** An operation of `size` bytes shifted up by `shift` bytes is naturally aligned inside the port. */
  predicate LaneFits(size: nat, shift: nat, data: nat) {
    IsWidth(size) && shift % size == 0 && shift + size <= data
  }

  /** Result of decoding a select byte. `size` and `shift` mean something only when `ok`. */
  datatype Lane = Lane(ok: bool, size: nat, shift: nat)

  function Small(n: nat): (b: bv8)
    requires n <= 8
  {
    if n == 0 then 0 else if n == 1 then 1 else if n == 2 then 2 else if n == 3 then 3 else if n == 4 then 4
    else if n == 5 then 5 else if n == 6 then 6 else if n == 7 then 7 else 8
  }

  function Count(b: bv8): (n: nat)
    requires b <= 8
    ensures n <= 8 && Small(n) == b
  {
    if b == 0 then 0 else if b == 1 then 1 else if b == 2 then 2 else if b == 3 then 3 else if b == 4 then 4
    else if b == 5 then 5 else if b == 6 then 6 else if b == 7 then 7 else 8
  }

  function SelectBits(size: bv8, shift: bv8): bv8
    requires 1 <= size <= 8 && shift <= 8
  {
    ((0xFF as bv8) >> (8 - size)) << shift
  }

  /** The master's select byte. */
  function SelectByte(size: nat, shift: nat): byte
    requires 1 <= size <= 8 && shift <= 8
  {
    SelectBits(Small(size), Small(shift)) as int
  }

  /** Table entry i of the slave's multiplicative base-two logarithm. */
  function Log2Entry(i: bv8): bv8 {
    if i == 0 then 0 else if i == 1 then 1 else if i == 2 then 2 else if i == 3 then 4
    else if i == 4 then 7 else if i == 5 then 3 else if i == 6 then 6 else 5
  }

  function Log2(x: bv8): bv8 {
    Log2Entry((x * 0x17) >> 5)
  }

  /** For a single set bit the table holds its position. */
  lemma Log2OfBit(k: bv8)
    requires k < 8
    ensures Log2(1 << k) == k
  {}

  function FirstSetBit(select: bv8): (shift: bv8)
    ensures shift < 8
  {
    Log2(select & (0 - select))
  }

  function RunLength(select: bv8): (width: bv8)
    ensures 1 <= width <= 8
  {
    Log2(((select >> FirstSetBit(select)) >> 1) + 1) + 1
  }

  predicate SelectBitsOk(select: bv8) {
    var bits, width := select >> FirstSetBit(select), RunLength(select);
    && select != 0
    && bits & (bits + 1) == 0
    && width & (width - 1) == 0
    && FirstSetBit(select) & (width - 1) == 0
  }

  /** The slave's view of a select byte on a port of `data` bytes. */
  function DecodeSelect(selectByte: byte, data: nat): (lane: Lane)
    ensures lane.shift < 8 && 1 <= lane.size <= 8
    ensures lane.ok ==> lane.size <= data && lane.shift < data
  {
    var select := selectByte as bv8;
    var size, shift := Count(RunLength(select)), Count(FirstSetBit(select));
    Lane(SelectBitsOk(select) && size <= data && shift < data, size, shift)
  }

  predicate RunFits(size: bv8, shift: bv8) {
    (size == 1 || size == 2 || size == 4 || size == 8) && shift < 8 && shift & (size - 1) == 0
  }

  lemma BitsRoundTrip(size: bv8, shift: bv8)
    requires RunFits(size, shift) && shift + size <= 8
    ensures var select := SelectBits(size, shift);
            SelectBitsOk(select) && RunLength(select) == size && FirstSetBit(select) == shift
  {}

  lemma AcceptedBits(select: bv8)
    requires SelectBitsOk(select)
    ensures RunFits(RunLength(select), FirstSetBit(select))
    ensures RunLength(select) + FirstSetBit(select) <= 8
    ensures select == SelectBits(RunLength(select), FirstSetBit(select))
  {}

  lemma SmallFits(size: nat, shift: nat)
    requires size <= 8 && shift < 8
    ensures RunFits(Small(size), Small(shift)) <==> IsWidth(size) && shift % size == 0
    ensures Count(Small(size)) == size && Count(Small(shift)) == shift
    ensures size + shift <= 8 ==> Small(shift) + Small(size) <= 8
  {}

  /** What the master encodes, the slave decodes. */
  lemma SelectRoundTrip(size: nat, shift: nat, data: nat)
    requires IsWidth(data) && LaneFits(size, shift, data)
    ensures DecodeSelect(SelectByte(size, shift), data) == Lane(true, size, shift)
  {
    SmallFits(size, shift);
    BitsRoundTrip(Small(size), Small(shift));
  }

  /** A select byte passes the slave's check exactly when it is one the master can send. */
  lemma SelectAcceptedIff(select: byte, data: nat)
    requires IsWidth(data)
    ensures DecodeSelect(select, data).ok
       <==> exists size, shift | 0 <= size <= 8 && 0 <= shift <= 8 ::
              LaneFits(size, shift, data) && select == SelectByte(size, shift)
  {
    if DecodeSelect(select, data).ok {
      AcceptedSelect(select, data);
    }
    forall size: int, shift: int
      | 0 <= size <= 8 && 0 <= shift <= 8 && LaneFits(size, shift, data) && select == SelectByte(size, shift)
      ensures DecodeSelect(select, data).ok
    {
      SelectRoundTrip(size, shift, data);
    }
  }

  lemma AcceptedSelect(select: byte, data: nat)
    requires IsWidth(data)
    requires DecodeSelect(select, data).ok
    ensures var lane := DecodeSelect(select, data);
            LaneFits(lane.size, lane.shift, data) && select == SelectByte(lane.size, lane.shift)
  {
    var lane := DecodeSelect(select, data);
    AcceptedBits(select as bv8);
    SmallFits(lane.size, lane.shift);
  }
}
