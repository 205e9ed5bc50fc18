/**
 Bus operations queued on a cycle: the validation the master runs over a cycle before it sends
 anything, and where on the data bus a validated operation sits.
 */
module Operations {
  import opened Words
  import opened Lanes
  import opened Widths

  datatype Status =
    | OK | FAIL | ADDRESS | WIDTH | OVERFLOW | ENDIAN | BUSY | TIMEOUT | OOM | SEGFAULT

  datatype Endian = Auto | Big | Little

  /** An operation as the user queued it. `format` is a set of widths (0x0F) and of endians (0x30). */
  datatype Request = Request(write: bool, config: bool, address: nat, value: nat, format: bv8)

  /** An operation the master accepted, and the results it has received for it so far. */
  datatype Operation = Operation(
    write: bool, config: bool, address: nat, value: nat, size: nat, endian: Endian, error: bool)

  datatype Checked = Accepted(op: Operation) | Rejected(status: Status)

  const CONFIG_SPACE := 0x1_0000
  const BIG_ENDIAN: bv8 := 0x10
  const LITTLE_ENDIAN: bv8 := 0x20

  /** The highest width bit of the format that is not above the port's own. */
  function WidthBit(format: bv8, d: bv8): (b: bv8)
    requires d in {1, 2, 4, 8}
    ensures b <= 8
  {
    HighestBit(format & (d - 1 + d))
  }

  /** Largest width in the format that the port can carry in one operation; 0 if there is none. */
  function OperationSize(port: Port, format: bv8): (size: nat)
    requires port.Valid()
    ensures size <= 8
  {
    Count(WidthBit(format, Small(port.data)))
  }

  /** `a & (limit - 1 - (size - 1))` for powers of two. */
  function AddressBits(a: nat, limit: nat, size: nat): nat
    requires limit > 0 && size > 0
  {
    a % limit - a % limit % size
  }

  /** One turn of the master's validation loop. */
  function Check(port: Port, r: Request): Checked
    requires port.Valid()
  {
    var size := OperationSize(port, r.format);
    var endian := if size == port.data then 0 else r.format & 0x30;
    if size == 0 then
      Rejected(WIDTH)
    else if endian == BIG_ENDIAN | LITTLE_ENDIAN || (size != port.data && endian == 0) then
      Rejected(ENDIAN)
    else if !r.config && AddressBits(r.address, Pow256(port.addr), size) != r.address then
      Rejected(ADDRESS)
    else if r.config && AddressBits(r.address, CONFIG_SPACE, size) != r.address then
      Rejected(ADDRESS)
    else if r.write && r.value % Pow256(size) != r.value then
      Rejected(WIDTH)
    else
      Accepted(Operation(r.write, r.config, r.address, r.value, size,
        if endian == BIG_ENDIAN then Big else if endian == LITTLE_ENDIAN then Little else Auto, false))
  }

  /** What the interface documents about an operation that can be sent. */
  predicate ValidOperation(port: Port, op: Operation)
    requires port.Valid()
  {
    && IsWidth(op.size) && op.size <= port.data
    && (op.endian == Auto <==> op.size == port.data)
    && op.address % op.size == 0
    && op.address < (if op.config then CONFIG_SPACE else Pow256(port.addr))
    && (op.write ==> op.value < Pow256(op.size))
  }

  predicate ValidOperations(port: Port, ops: seq<Operation>)
    requires port.Valid()
  {
    forall i :: 0 <= i < |ops| ==> ValidOperation(port, ops[i])
  }

  /** `size` is the largest operation width both listed in the format and carried by the port. */
  predicate LargestCommonWidth(port: Port, format: bv8, size: nat) {
    && IsWidth(size) && size <= port.data && Small(size) & format != 0
    && forall w: nat | IsWidth(w) && w <= port.data && Small(w) & format != 0 :: w <= size
  }

  /** Exactly one endian is named. */
  predicate OneEndian(format: bv8) {
    (format & 0x10 != 0) != (format & 0x20 != 0)
  }

  lemma EndianBits(format: bv8)
    ensures var e := format & 0x30;
            && (OneEndian(format) <==> e == BIG_ENDIAN || e == LITTLE_ENDIAN)
            && (!OneEndian(format) <==> e == 0 || e == BIG_ENDIAN | LITTLE_ENDIAN)
            && (e == BIG_ENDIAN ==> format & BIG_ENDIAN != 0)
            && (e == LITTLE_ENDIAN ==> format & BIG_ENDIAN == 0)
  {}

  lemma SizeBits(format: bv8, d: bv8, w: bv8)
    requires d == 1 || d == 2 || d == 4 || d == 8
    requires w == 1 || w == 2 || w == 4 || w == 8
    ensures var s := WidthBit(format, d);
            && (s == 0 || ((s == 1 || s == 2 || s == 4 || s == 8) && s <= d && s & format != 0))
            && (w <= d && w & format != 0 ==> w <= s)
  {}

  lemma SizeIsLargest(port: Port, format: bv8)
    requires port.Valid()
    ensures var size := OperationSize(port, format);
            if size == 0 then forall w: nat | IsWidth(w) && w <= port.data :: Small(w) & format == 0
            else LargestCommonWidth(port, format, size)
  {
    var size := OperationSize(port, format);
    forall w: nat | IsWidth(w) ensures w <= port.data && Small(w) & format != 0 ==> w <= size {
      WidthOption(port, format, w);
    }
    WidthOption(port, format, 1);
    hide OperationSize, HighestBit, Small, Count;
  }

  /** One width that the size may be. */
  lemma WidthOption(port: Port, format: bv8, w: nat)
    requires port.Valid() && IsWidth(w)
    ensures var size := OperationSize(port, format);
            && (size == 0 || (IsWidth(size) && size <= port.data && Small(size) & format != 0))
            && (w <= port.data && Small(w) & format != 0 ==> w <= size)
  {
    hide *;
    PortWidth(port);
    SmallWidth(port.data);
    SmallWidth(w);
    var d := Small(port.data);
    SizeBits(format, d, Small(w));
    var s := WidthBit(format, d);
    SizeIs(port, format);
    SmallOrder(s, d);
    SmallOrder(Small(w), d);
    SmallOrder(Small(w), s);
    CountSmall(s);
  }

  lemma SizeIs(port: Port, format: bv8)
    requires port.Valid()
    ensures Small(port.data) in {1, 2, 4, 8} && OperationSize(port, format) == Count(WidthBit(format, Small(port.data)))
  {
    hide WidthBit, Count;
  }

  lemma PortWidth(port: Port)
    requires port.Valid()
    ensures IsWidth(port.data)
  {
  }

  lemma SmallWidth(n: nat)
    requires IsWidth(n)
    ensures Small(n) in {1, 2, 4, 8} && Count(Small(n)) == n
  {
  }

  lemma CountSmall(b: bv8)
    requires b <= 8
    ensures Small(Count(b)) == b
  {
  }

  /** Bits of a byte and the widths they stand for are in the same order. */
  lemma SmallOrder(a: bv8, b: bv8)
    requires a in {0, 1, 2, 4, 8} && b in {0, 1, 2, 4, 8}
    ensures a <= b <==> Count(a) <= Count(b)
    ensures a != 0 ==> IsWidth(Count(a))
    ensures Count(a) == 0 <==> a == 0
  {
  }

  /** The address test accepts exactly the aligned addresses below the limit. */
  lemma AddressTestIff(a: nat, limit: nat, size: nat)
    requires limit > 0 && size > 0
    ensures AddressBits(a, limit, size) == a <==> a < limit && a % size == 0
  {
    if a < limit {
      DivModUnique(a, limit, 0, a);
    }
  }

  lemma ValueTestIff(v: nat, limit: nat)
    requires limit > 0
    ensures v % limit == v <==> v < limit
  {
    if v < limit {
      DivModUnique(v, limit, 0, v);
    }
  }

  /** Every accepted operation is valid and says what the request said; every rejection has the
      documented reason. */
  lemma CheckCorrect(port: Port, r: Request)
    requires port.Valid()
    ensures var size := OperationSize(port, r.format);
            var inPlace := size > 0 && r.address % size == 0
              && r.address < (if r.config then 0x1_0000 else Pow256(port.addr));
            match Check(port, r)
            case Accepted(op) =>
              && ValidOperation(port, op) && LargestCommonWidth(port, r.format, op.size)
              && op.write == r.write && op.config == r.config && op.address == r.address && op.value == r.value
              && (op.size != port.data ==> OneEndian(r.format) && (op.endian == Big <==> r.format & 0x10 != 0))
              && (op.size == port.data ==> op.endian == Auto) && !op.error
            case Rejected(status) =>
              if size == 0 then status == WIDTH
              else if size != port.data && !OneEndian(r.format) then status == ENDIAN
              else if !inPlace then status == ADDRESS
              else status == WIDTH && r.write && r.value >= Pow256(size)
  {
    var size := OperationSize(port, r.format);
    SizeIsLargest(port, r.format);
    EndianBits(r.format);
    if size > 0 {
      AddressTestIff(r.address, Pow256(port.addr), size);
      AddressTestIff(r.address, CONFIG_SPACE, size);
      ValueTestIff(r.value, Pow256(size));
    }
  }

  /** The low address bits, which the bus does not carry. */
  function LowAddress(port: Port, op: Operation): (low: nat)
    requires port.Valid()
    ensures low < port.data
  {
    op.address % port.data
  }

  /** How many byte lanes up an operation's value sits: the low address decides, from the other
      end for big-endian. */
  function LaneShiftOf(size: nat, endian: Endian, low: nat, data: nat): int {
    if endian == Big then data - (low + size) else low
  }

  lemma LowAddressFits(port: Port, op: Operation)
    requires port.Valid() && ValidOperation(port, op)
    ensures var low := LowAddress(port, op);
            && low % op.size == 0 && low + op.size <= port.data
            && (op.endian == Auto ==> low == 0)
            && LaneShiftOf(op.size, op.endian, low, port.data) >= 0
            && LaneFits(op.size, LaneShiftOf(op.size, op.endian, low, port.data), port.data)
  {}
}
