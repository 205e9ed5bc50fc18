/**
 Programming a flash: scan for dirty sectors, erase them, write the image.
 */
module Flash {
  import opened Words

  const MASK_0F: bv64 := 0x0F0F_0F0F_0F0F_0F0F

  /** Reverse the bits within every byte. */
  function FlipBits(x: bv64): bv64 {
    var a := ((x >> 4) & MASK_0F) | ((x & MASK_0F) << 4);
    var mask2 := MASK_0F ^ (MASK_0F << 2);
    var b := ((a >> 2) & mask2) | ((a & mask2) << 2);
    var mask1 := mask2 ^ (mask2 << 1);
    ((b >> 1) & mask1) | ((b & mask1) << 1)
  }

  function Flip(invert: bool, x: bv64): bv64 {
    if invert then FlipBits(x) else x
  }

  /** Bit b of a word. */
  predicate BitAt(x: bv64, b: bv64)
    requires b < 64
  {
    (x >> b) & 1 == 1
  }

  /** Every bit of `y` is the bit of `x` on the other side of its byte. */
  ghost predicate Mirrored(x: bv64, y: bv64) {
    forall b: bv64 | b < 64 :: BitAt(y, b) <==> BitAt(x, b ^ 7)
  }

  /** Bits are mirrored exactly if the device asks for it. */
  lemma FlipMeans(invert: bool, x: bv64)
    ensures if invert then Mirrored(x, Flip(invert, x)) else Flip(invert, x) == x
  {
    hide FlipBits;
    if invert {
      forall b: bv64 | b < 64 ensures BitAt(FlipBits(x), b) <==> BitAt(x, b ^ 7) {
        FlipMirrors(x, b);
      }
    }
  }

  /** All ones in a word of this many bytes. */
  function AllOnes(size: nat): bv64
    requires size in {1, 2, 4, 8}
  {
    (0xFFFF_FFFF_FFFF_FFFF as bv64) >> ((8 - size) * 8)
  }

  lemma OnesAre(size: nat)
    requires size in {1, 2, 4, 8}
    ensures AllOnes(size) == if size == 1 then 0xFF else if size == 2 then 0xFFFF else if size == 4 then 0xFFFF_FFFF else 0xFFFF_FFFF_FFFF_FFFF
  {
  }

  predicate WordFits(x: bv64, size: nat)
    requires size in {1, 2, 4, 8}
  {
    x & AllOnes(size) == x
  }

  /** What a word holds after a write: flash cells can only be cleared. */
  function Cleared(was: bv64, data: bv64): bv64 {
    was & data
  }

  /** Bit 8k + j comes from bit 8k + 7 - j. */
  lemma FlipMirrors(x: bv64, i: bv64)
    requires i < 64
    ensures (FlipBits(x) >> i) & 1 == (x >> (i ^ 7)) & 1
  {
  }

  lemma FlipTwice(x: bv64)
    ensures FlipBits(FlipBits(x)) == x
  {
  }

  lemma FlipKeeps(x: bv64, size: nat)
    requires size in {1, 2, 4, 8}
    ensures WordFits(x, size) ==> WordFits(FlipBits(x), size)
    ensures FlipBits(AllOnes(size)) == AllOnes(size)
  {
  }

  /** Skipping all-ones words before the flip skips exactly the words that are all ones after it. */
  lemma SkipSound(invert: bool, x: bv64, size: nat)
    requires size in {1, 2, 4, 8}
    ensures x == AllOnes(size) <==> Flip(invert, x) == AllOnes(size)
  {
    FlipTwice(x);
    FlipKeeps(x, size);
  }

  lemma MulAtLeast(a: int, d: nat)
    requires a >= 1
    ensures a * d >= d
  {
  }

  /** The bitmap index the answer to a read is filed under, in 64-bit addresses. */
  function MarkIndex(address: nat, sectorSize: nat, position: nat): nat
    requires sectorSize > 0 && address < 0x1_0000_0000_0000_0000
  {
    (position + 0x1_0000_0000_0000_0000 - address) % 0x1_0000_0000_0000_0000 / sectorSize
  }

  /** The number of the sector in scan order, which starts at the sector the image starts in. */
  predicate MarkAgrees(address: nat, sectorSize: nat, sector: nat, offset: nat)
    requires sectorSize > 0 && address < 0x1_0000_0000_0000_0000
  {
    MarkIndex(address, sectorSize, address - address % sectorSize + sector * sectorSize + offset) == sector
  }

  lemma MarkOnBoundary(address: nat, sectorSize: nat, sector: nat, offset: nat)
    requires sectorSize > 0 && address % sectorSize == 0 && offset < sectorSize
    requires address + sector * sectorSize + offset < 0x1_0000_0000_0000_0000
    ensures MarkAgrees(address, sectorSize, sector, offset)
  {
    hide *;
    MarkIs(address, sectorSize, sector, offset);
    DivModUnique(sector * sectorSize + offset, sectorSize, sector, offset);
  }

  lemma MarkIs(address: nat, sectorSize: nat, sector: nat, offset: nat)
    requires sectorSize > 0 && address % sectorSize == 0
    requires address + sector * sectorSize + offset < 0x1_0000_0000_0000_0000
    ensures MarkAgrees(address, sectorSize, sector, offset) <==> (sector * sectorSize + offset) / sectorSize == sector
  {
    var x := sector * sectorSize + offset;
    assert 0 <= sector * sectorSize;
    assert address - address % sectorSize + sector * sectorSize + offset == address + x;
    Wraps(x);
  }

  lemma Wraps(x: nat)
    requires x < 0x1_0000_0000_0000_0000
    ensures (x + 0x1_0000_0000_0000_0000) % 0x1_0000_0000_0000_0000 == x
  {
  }

  lemma MarkOffBoundary(address: nat, sectorSize: nat)
    requires 0 < sectorSize <= 0x8000_0000_0000_0000 && address < 0x1_0000_0000_0000_0000 && address % sectorSize != 0
    ensures !MarkAgrees(address, sectorSize, 0, 0)
  {
    var n := 0x1_0000_0000_0000_0000 - address % sectorSize;
    assert 0 * sectorSize == 0;
    assert MarkIndex(address, sectorSize, address - address % sectorSize) == n / sectorSize;
    assert n == n / sectorSize * sectorSize + n % sectorSize;
  }

  /** Scanning and erasing number the sectors alike exactly if the image starts on a sector boundary. */
  lemma MarkAgreesIff(address: nat, sectorSize: nat)
    requires 0 < sectorSize <= 0x8000_0000_0000_0000 && address < 0x1_0000_0000_0000_0000 - sectorSize
    ensures address % sectorSize == 0 <==> forall sector: nat, offset: nat
      | offset < sectorSize && address + sector * sectorSize + offset < 0x1_0000_0000_0000_0000 :: MarkAgrees(address, sectorSize, sector, offset)
  {
    hide MarkAgrees;
    if address % sectorSize == 0 {
      forall sector: nat, offset: nat | offset < sectorSize && address + sector * sectorSize + offset < 0x1_0000_0000_0000_0000
        ensures MarkAgrees(address, sectorSize, sector, offset)
      {
        MarkOnBoundary(address, sectorSize, sector, offset);
      }
    } else {
      MarkOffBoundary(address, sectorSize);
      assert 0 * sectorSize == 0;
    }
  }

  /** Sectors of an image, when a sector is `m` pages. */
  function SectorsOf(pages: nat, m: nat): (q: nat)
    requires m > 0
    ensures m * q <= pages + m - 1 < m * q + m
  {
    Quotient(pages + m - 1, m);
    (pages + m - 1) / m
  }

  /** The bitmap has one bit per page, rounded down to whole bytes. That is a bit for every sector exactly
      if the image is a multiple of eight pages, when sectors are pages, and exactly if it has at least
      eight pages, when sectors are larger. */
  lemma BitmapFitsIff(pages: nat, m: nat)
    requires m > 0
    ensures SectorsOf(pages, m) <= 8 * (pages / 8) <==> pages == 0 || if m == 1 then pages % 8 == 0 else pages >= 8
  {
    hide SectorsOf;
    var q, k := SectorsOf(pages, m), pages / 8;
    assert m * (8 * k + 1) == 8 * (k * m) + m;
    if m > 1 && pages >= 8 && q > 8 * k {
      MulMonotone(k, 2, m);
      MulMonotone(m, 8 * k + 1, q);
    } else if q <= 0 {
      assert m * q == 0;
    } else {
      MulMonotone(m, 1, q);
    }
  }

  /** Gaps that double from here reach the sector size exactly. */
  predicate Doubles(offset: nat, sector: nat)
    decreases sector - offset
  {
    offset == sector || (0 < offset && 2 * offset <= sector && Doubles(2 * offset, sector))
  }

  function GetBit(b: bv8, i: nat): bool
    requires i < 8
  {
    (b >> i) & 1 == 1
  }

  function SetBit(b: bv8, i: nat): bv8
    requires i < 8
  {
    b | (1 << i)
  }

  /** Shifting by a number is shifting by one of eight constants. */
  lemma ShiftCases(b: bv8, i: nat)
    requires i < 8
    ensures b >> i == match i case 0 => b case 1 => b >> 1 case 2 => b >> 2 case 3 => b >> 3
                             case 4 => b >> 4 case 5 => b >> 5 case 6 => b >> 6 case _ => b >> 7
    ensures (1 as bv8) << i == match i case 0 => 1 case 1 => 2 case 2 => 4 case 3 => 8
                             case 4 => 16 case 5 => 32 case 6 => 64 case _ => 128
  {
  }

  lemma SetBitSets(b: bv8, i: nat, j: nat)
    requires i < 8 && j < 8
    ensures GetBit(SetBit(b, i), j) <==> i == j || GetBit(b, j)
  {
    ShiftCases(b, i);
    ShiftCases(b, j);
    ShiftCases(SetBit(b, i), j);
  }

  lemma AllOrNone(j: nat)
    requires j < 8
    ensures GetBit(0xFF, j) && !GetBit(0, j)
  {
    ShiftCases(0xFF, j);
    ShiftCases(0, j);
  }

  lemma ShiftedQuotient(a: nat, d: nat, x: nat)
    requires d > 0 && a % d == 0
    ensures a / d * d == a && (a + x) / d * d == a + x / d * d
  {
    assert a == a / d * d + a % d;
    assert (a / d + x / d) * d == a / d * d + x / d * d;
    DivModUnique(a + x, d, a / d + x / d, x % d);
  }

  lemma GapFits(n: nat, wps: nat, size: nat)
    requires size in {1, 2, 4, 8} && n > 0 && Doubles(n * size, wps * size)
    ensures n <= wps && (n * size != wps * size ==> n + n <= wps && (n + n) * size == n * size + n * size && Doubles(n * size + n * size, wps * size))
    ensures n * size == wps * size ==> n == wps
  {
    DoublesBound(n * size, wps * size);
    Ordered(n, wps, size);
    if n * size != wps * size {
      DoublesBound(2 * (n * size), wps * size);
      assert (n + n) * size == n * size + n * size;
      Ordered(n + n, wps, size);
    } else {
      Ordered(wps, n, size);
    }
  }

  lemma Ordered(a: nat, b: nat, d: nat)
    requires d > 0 && a * d <= b * d
    ensures a <= b
  {
    if a > b {
      StrictlyMore(a, b, d);
    }
  }

  lemma StrictlyMore(a: nat, b: nat, d: nat)
    requires d > 0 && a > b
    ensures a * d > b * d
  {
    MulAtLeast(a - b, d);
    assert (a - b) * d == a * d - b * d;
  }

  lemma {:induction false} DoublesBound(offset: nat, sector: nat)
    requires Doubles(offset, sector)
    ensures offset <= sector
    decreases sector - offset
  {
  }

  lemma Regrouped(k: nat, w: nat, size: nat)
    requires size > 0
    ensures (k * (w * size)) / size == k * w && (k + 1) * (w * size) == k * (w * size) + w * size
  {
    assert k * (w * size) == (k * w) * size;
    DivModUnique((k * w) * size, size, k * w, 0);
  }

  lemma Fits(k: nat, n: nat, w: nat)
    requires k < n
    ensures k * w <= (k + 1) * w <= n * w
  {
    assert (n - k - 1) * w >= 0;
    assert (n - k - 1) * w == n * w - (k + 1) * w;
  }

  lemma Between(q: nat, n: nat, d: nat, w: nat)
    requires d > 0 && q * d <= w < q * d + d
    ensures q < n <==> w < n * d
    ensures q >= n <==> n * d <= w
  {
    if q < n {
      Fits(q, n, d);
    } else {
      assert (q - n) * d >= 0;
      assert (q - n) * d == q * d - n * d;
    }
  }

  lemma Quotient(w: nat, d: nat)
    requires d > 0
    ensures w == w / d * d + w % d && w % d < d
  {
  }

  lemma Covers(n: nat, size: nat, wps: nat, sectors: nat, length: nat)
    requires size > 0 && wps > 0 && n * size == length && wps * size > 0 && sectors == (length + wps * size - 1) / (wps * size)
    ensures n <= sectors * wps
  {
    var d := wps * size;
    Quotient(length + d - 1, d);
    assert sectors * d >= length;
    assert sectors * d == (sectors * wps) * size;
    assert (n - sectors * wps) * size == n * size - (sectors * wps) * size;
    if n > sectors * wps {
      MulAtLeast(n - sectors * wps, size);
    }
  }

  lemma FlipFits(invert: bool, x: bv64, size: nat)
    requires size in {1, 2, 4, 8} && WordFits(x, size)
    ensures Cleared(AllOnes(size), Flip(invert, x)) == Flip(invert, x)
  {
    FlipKeeps(x, size);
    Commutes(AllOnes(size), Flip(invert, x));
  }

  lemma Commutes(a: bv64, b: bv64)
    ensures a & b == b & a
  {
  }

  predicate PageEnds(position: nat, pageSize: nat)
    requires pageSize > 0
  {
    position % pageSize == 0
  }

  lemma MoreWords(sector: nat, size: nat, lo: nat, n: nat, w: nat)
    requires lo <= w <= lo + n && size > 0
    ensures sector + w * size == sector + lo * size + n * size <==> w == lo + n
    ensures sector + w * size + size == sector + (w + 1) * size
  {
    assert lo * size + n * size == (lo + n) * size;
    if w < lo + n {
      MulAtLeast(lo + n - w, size);
      assert (lo + n - w) * size == (lo + n) * size - w * size;
    }
  }

  /** The numbers below n. */
  function UpTo(n: nat): (ks: seq<nat>)
    ensures |ks| == n && forall i | 0 <= i < n :: ks[i] == i
  {
    if n == 0 then [] else UpTo(n - 1) + [n - 1]
  }

  class Flasher {
    const size: nat
    const address: nat
    const length: nat
    const sectorSize: nat
    const pageSize: nat
    const eraseAddress: nat
    const invert: bool
    const flash: array<bv64>
    const bitmap: array<bv8>
    /** Addresses that were read and not answered yet, and reads in the open cycle. */
    var pending: seq<nat>
    var ops: nat
    /** Words per sector; the reads as sector and word, and how often each word was read. */
    ghost const wps: nat
    const sectors: nat
    ghost var asked: seq<(nat, nat)>
    ghost var scanned: multiset<(nat, nat)>
    /** The sectors that were erased, one after the other. */
    ghost var erased: seq<nat>

    /** The flash array starts at the image and ends with the last sector the image touches; the image
        starts on a sector boundary and every sector has a bit. */
    ghost predicate Valid()
      reads `pending, `asked
    {
      && size in {1, 2, 4, 8} && wps > 0 && sectorSize == wps * size && address % sectorSize == 0 && pageSize > 0 && pageSize % size == 0
      && sectors == (length + sectorSize - 1) / sectorSize && sectors <= 8 * bitmap.Length
      && flash.Length == sectors * wps && length % size == 0
      && |asked| == |pending|
      && (forall i | 0 <= i < |asked| :: IsWord(asked[i].0, asked[i].1) && pending[i] == address + At(asked[i].0, asked[i].1) * size)
    }

    ghost predicate IsWord(k: nat, r: nat) {
      k < sectors && r < wps
    }

    ghost function At(k: nat, r: nat): nat {
      k * wps + r
    }

    lemma AtBound(k: nat, r: nat)
      requires IsWord(k, r) && flash.Length == sectors * wps
      ensures At(k, r) < flash.Length
    {
      MulAtLeast(sectors - k, wps);
      assert (sectors - k) * wps == sectors * wps - k * wps;
    }

    lemma PositionOf(k: nat, r: nat)
      requires sectorSize == wps * size
      ensures address + At(k, r) * size == address + k * sectorSize + r * size
    {
    }

    /** What the answer to a read is taken for: its word, and the sector it is filed under. */
    lemma Located(k: nat, r: nat)
      requires size > 0 && IsWord(k, r) && sectorSize == wps * size
      ensures (At(k, r) * size) / size == At(k, r)
      ensures sectorSize > 0 && (At(k, r) * size) / sectorSize == k
    {
      DivModUnique(At(k, r) * size, size, At(k, r), 0);
      assert At(k, r) * size == k * sectorSize + r * size;
      MulAtLeast(wps - r, size);
      assert (wps - r) * size == sectorSize - r * size;
      DivModUnique(At(k, r) * size, sectorSize, k, r * size);
    }

    predicate Bit(k: nat)
      requires k < 8 * bitmap.Length
      reads bitmap
    {
      GetBit(bitmap[k / 8], k % 8)
    }

    predicate Blank(w: nat)
      requires w < flash.Length && size in {1, 2, 4, 8}
      reads flash
    {
      flash[w] == AllOnes(size)
    }

    /** Sector `k` has a word before `hi` that is not blank. */
    ghost predicate DirtyIn(k: nat, hi: nat)
      requires k < sectors && hi <= wps && flash.Length == sectors * wps && size in {1, 2, 4, 8}
      reads flash
    {
      exists r | 0 <= r < hi :: IsDirty(k, r)
    }

    ghost predicate IsDirty(k: nat, r: nat)
      requires k < sectors && r < wps && flash.Length == sectors * wps && size in {1, 2, 4, 8}
      reads flash
    {
      AtBound(k, r);
      !Blank(At(k, r))
    }

    /** Only sectors that are dirty before `hi` are marked, and nothing behind `hi` was asked for. */
    ghost predicate Sound(hi: nat)
      requires Valid() && hi <= wps
      reads `pending, `asked, flash, bitmap
    {
      && (forall k | 0 <= k < sectors && Bit(k) :: DirtyIn(k, hi))
      && (forall i | 0 <= i < |asked| :: asked[i].1 < hi)
    }

    /** If this word is dirty its sector is marked, or will be when the answers are in. */
    ghost predicate Covered(k: nat, r: nat)
      requires Valid() && IsWord(k, r)
      reads `pending, `asked, flash, bitmap
    {
      Bit(k) || !IsDirty(k, r) || (k, r) in asked
    }

    method Mark(k: nat)
      requires k < 8 * bitmap.Length
      modifies bitmap
      ensures forall j | 0 <= j < 8 * bitmap.Length :: Bit(j) <==> j == k || old(Bit(j))
    {
      ghost var was := bitmap[..];
      bitmap[k / 8] := SetBit(bitmap[k / 8], k % 8);
      forall j | 0 <= j < 8 * bitmap.Length ensures Bit(j) <==> j == k || GetBit(was[j / 8], j % 8) {
        SetBitSets(was[k / 8], k % 8, j % 8);
      }
    }

    /** The oldest read is answered. */
    method Answer(ghost hi: nat)
      requires Valid() && pending != [] && hi <= wps && Sound(hi)
      modifies `pending, `asked, bitmap
      ensures Valid() && Sound(hi) && pending == old(pending[1..])
      ensures forall k | 0 <= k < sectors && old(Bit(k)) :: Bit(k)
      ensures forall k, r | 0 <= k < sectors && 0 <= r < wps && old(Covered(k, r)) :: Covered(k, r)
    {
      ghost var k, r := asked[0].0, asked[0].1;
      assert IsWord(k, r);
      AtBound(k, r);
      Located(k, r);
      ghost var was, q := bitmap[..], asked;
      var position := pending[0];
      if flash[(position - address) / size] != AllOnes(size) {
        assert IsDirty(k, r);
        Mark((position - address) / sectorSize);
      }
      pending, asked := pending[1..], asked[1..];
      assert q == [(k, r)] + asked;
    }

    /** Any number of reads is answered while the tool waits for the bus. */
    method Poll(ghost hi: nat)
      requires Valid() && hi <= wps && Sound(hi)
      modifies `pending, `asked, bitmap
      ensures Valid() && Sound(hi)
      ensures forall k | 0 <= k < sectors && old(Bit(k)) :: Bit(k)
      ensures forall k, r | 0 <= k < sectors && 0 <= r < wps && old(Covered(k, r)) :: Covered(k, r)
    {
      var left :| 0 <= left <= |pending|;
      while |pending| > left
        invariant Valid() && Sound(hi) && left <= |pending|
        invariant forall k | 0 <= k < sectors && old(Bit(k)) :: Bit(k)
        invariant forall k, r | 0 <= k < sectors && 0 <= r < wps && old(Covered(k, r)) :: Covered(k, r)
      {
        Answer(hi);
      }
    }

    /** Every word of the stripe of sector `k` is read once. */
    method ScanSector(ghost k: nat, sector: nat, offset: nat, len: nat, ghost lo: nat, ghost n: nat)
      requires Valid() && k < sectors && sector == address + k * sectorSize && offset == lo * size && len == n * size && lo + n <= wps
      requires Sound(lo + n) && forall r | lo <= r < lo + n :: scanned[(k, r)] == 0
      modifies `pending, `asked, `ops, `scanned, bitmap
      ensures Valid() && Sound(lo + n)
      ensures forall j | 0 <= j < sectors && old(Bit(j)) :: Bit(j)
      ensures forall j, r | 0 <= j < sectors && 0 <= r < wps && old(Covered(j, r)) :: Covered(j, r)
      ensures forall r | lo <= r < lo + n :: Covered(k, r)
      ensures forall j, r: nat :: scanned[(j, r)] == old(scanned[(j, r)]) + (if j == k && lo <= r < lo + n then 1 else 0)
    {
      hide Flasher.Covered, Flasher.Sound, Flasher.Bit;
      var position := sector + offset;
      ghost var w := lo;
      while position != sector + offset + len
        invariant lo <= w <= lo + n && position == sector + w * size && Valid() && Sound(lo + n)
        invariant forall j | 0 <= j < sectors && old(Bit(j)) :: Bit(j)
        invariant forall j, r | 0 <= j < sectors && 0 <= r < wps && old(Covered(j, r)) :: Covered(j, r)
        invariant forall r | lo <= r < w :: Covered(k, r)
        invariant forall j, r: nat :: scanned[(j, r)] == old(scanned[(j, r)]) + (if j == k && lo <= r < w then 1 else 0)
        decreases lo + n - w
      {
        MoreWords(sector, size, lo, n, w);
        PositionOf(k, w);
        ScanWord(k, w, position, lo + n);
        position, w := position + size, w + 1;
      }
      MoreWords(sector, size, lo, n, w);
    }

    /** One more read; a full cycle is sent, and answers may come in. */
    method ScanWord(ghost k: nat, ghost r: nat, position: nat, ghost hi: nat)
      requires Valid() && IsWord(k, r) && position == address + At(k, r) * size && hi <= wps && Sound(hi) && r < hi
      modifies `pending, `asked, `ops, `scanned, bitmap
      ensures Valid() && Sound(hi) && Covered(k, r)
      ensures forall j | 0 <= j < sectors && old(Bit(j)) :: Bit(j)
      ensures forall j, q | 0 <= j < sectors && 0 <= q < wps && old(Covered(j, q)) :: Covered(j, q)
      ensures scanned == old(scanned) + multiset{(k, r)}
    {
      hide Flasher.Covered, Flasher.Sound, Flasher.Bit;
      Ask(k, r, position, hi);
      ops := ops + 1;
      if ops == pageSize / size {
        ops := 0;
        Poll(hi);
      }
    }

    method Ask(ghost k: nat, ghost r: nat, position: nat, ghost hi: nat)
      requires Valid() && IsWord(k, r) && position == address + At(k, r) * size && hi <= wps && Sound(hi) && r < hi
      modifies `pending, `asked, `scanned
      ensures Valid() && Sound(hi) && Covered(k, r)
      ensures forall j, q | 0 <= j < sectors && 0 <= q < wps && old(Covered(j, q)) :: Covered(j, q)
      ensures scanned == old(scanned) + multiset{(k, r)}
    {
      pending := pending + [position];
      asked := asked + [(k, r)];
      scanned := scanned + multiset{(k, r)};
    }

    /** Exactly the sectors that are dirty before `hi` are marked. */
    ghost predicate Exact(hi: nat)
      requires Valid() && hi <= wps
      reads `pending, `asked, flash, bitmap
    {
      forall k | 0 <= k < sectors :: Bit(k) <==> DirtyIn(k, hi)
    }

    /** No word was read twice, and in clean sectors every word was read that lies before `hi`, or before
        `lo` if the sector is not among the first `done`. */
    ghost predicate Once(done: nat, lo: nat, hi: nat)
      requires sectors <= 8 * bitmap.Length
      reads `scanned, bitmap
    {
      forall k, r: nat | 0 <= k < sectors && 0 <= r < wps :: CountOk(k, r, Limit(k, done, lo, hi), scanned[(k, r)])
    }

    ghost function Limit(k: nat, done: nat, lo: nat, hi: nat): nat {
      if k < done then hi else lo
    }

    ghost predicate CountOk(k: nat, r: nat, hi: nat, count: nat)
      requires k < sectors <= 8 * bitmap.Length
      reads bitmap
    {
      count <= (if r < hi then 1 else 0) && (r < hi && !Bit(k) ==> count == 1)
    }

    lemma OnceStep(done: nat, lo: nat, hi: nat)
      requires sectors <= 8 * bitmap.Length && Once(done, lo, hi) && lo <= hi
      ensures done >= sectors ==> Once(0, hi, hi)
      ensures lo == hi ==> Once(0, lo, hi)
      ensures done < sectors && Bit(done) ==> Once(done + 1, lo, hi)
    {
    }

    lemma SectorBounds()
      requires Valid()
      ensures address / sectorSize * sectorSize == address
      ensures (address + length + sectorSize - 1) / sectorSize * sectorSize == address + sectors * sectorSize
    {
      MulAtLeast(wps, size);
      ShiftedQuotient(address, sectorSize, length + sectorSize - 1);
    }

    lemma ExactNext(lo: nat, n: nat)
      requires Valid() && pending == [] && lo + n <= wps && Sound(lo + n)
      requires forall k | 0 <= k < sectors && DirtyIn(k, lo) :: Bit(k)
      requires forall k, r | 0 <= k < sectors && lo <= r < lo + n :: Covered(k, r)
      ensures Exact(lo + n)
    {
      forall k | 0 <= k < sectors && DirtyIn(k, lo + n) ensures Bit(k) {
        var r :| 0 <= r < lo + n && IsDirty(k, r);
        if r >= lo {
          assert Covered(k, r);
        }
      }
    }

    lemma SoundMore(lo: nat, n: nat)
      requires Valid() && pending == [] && lo + n <= wps && Exact(lo)
      ensures Sound(lo + n)
    {
      forall k | 0 <= k < sectors && Bit(k) ensures DirtyIn(k, lo + n) {
        var r :| 0 <= r < lo && IsDirty(k, r);
      }
    }

    /** The stripe of a sector that is not marked. */
    method ScanNext(ghost k: nat, sector: nat, offset: nat, len: nat, ghost lo: nat, ghost n: nat)
      requires Valid() && k < sectors && sector == address + k * sectorSize && offset == lo * size && len == n * size && lo + n <= wps
      requires Sound(lo + n) && Once(k, lo, lo + n) && !Bit(k)
      modifies `pending, `asked, `ops, `scanned, bitmap
      ensures Valid() && Sound(lo + n) && Once(k + 1, lo, lo + n)
      ensures forall j | 0 <= j < sectors && old(Bit(j)) :: Bit(j)
      ensures forall j, r | 0 <= j < sectors && 0 <= r < wps && old(Covered(j, r)) :: Covered(j, r)
      ensures forall r | lo <= r < lo + n :: Covered(k, r)
    {
      hide Flasher.Covered, Flasher.Sound, Flasher.DirtyIn, Flasher.Bit;
      assert forall r: nat | r < wps :: CountOk(k, r, lo, scanned[(k, r)]);
      ScanSector(k, sector, offset, len, lo, n);
      forall j, r: nat | 0 <= j < sectors && 0 <= r < wps
        ensures CountOk(j, r, Limit(j, k + 1, lo, lo + n), scanned[(j, r)])
      {
        assert old(CountOk(j, r, Limit(j, k, lo, lo + n), scanned[(j, r)]));
      }
    }

    /** One stripe of every sector that is not marked yet. */
    method QuickScanGap(offset: nat, len: nat, ghost lo: nat, ghost n: nat)
      requires Valid() && pending == [] && offset == lo * size && len == n * size && lo + n <= wps && Exact(lo) && Once(0, lo, lo)
      modifies `pending, `asked, `ops, `scanned, bitmap
      ensures Valid() && pending == [] && Exact(lo + n) && Once(0, lo + n, lo + n)
    {
      hide Flasher.Covered, Flasher.Sound, Flasher.DirtyIn, Flasher.Exact, Flasher.Once, Flasher.Bit;
      SoundMore(lo, n);
      SectorBounds();
      OnceMore(lo, lo + n);
      ops := 0;
      var sector := address / sectorSize * sectorSize;
      var last := (address + length + sectorSize - 1) / sectorSize * sectorSize;
      var i := 0;
      while sector != last
        invariant 0 <= i <= sectors && sector == address + i * sectorSize && Valid() && Sound(lo + n)
        invariant forall k | 0 <= k < sectors && old(Bit(k)) :: Bit(k)
        invariant forall k, r | 0 <= k < i && lo <= r < lo + n :: Covered(k, r)
        invariant Once(i, lo, lo + n)
        decreases sectors - i
      {
        MoreWords(address, sectorSize, 0, sectors, i);
        if Bit(i) {
          MarkedCovered(i);
          OnceStep(i, lo, lo + n);
        } else {
          ScanNext(i, sector, offset, len, lo, n);
        }
        sector, i := sector + sectorSize, i + 1;
      }
      MoreWords(address, sectorSize, 0, sectors, i);
      OnceStep(i, lo, lo + n);
      Drain(lo + n);
      ExactIs(lo);
      ExactNext(lo, n);
    }

    /** All outstanding reads are answered. */
    method Drain(ghost hi: nat)
      requires Valid() && hi <= wps && Sound(hi) && Once(0, hi, hi)
      modifies `pending, `asked, bitmap
      ensures Valid() && pending == [] && Sound(hi) && Once(0, hi, hi)
      ensures forall k | 0 <= k < sectors && old(Bit(k)) :: Bit(k)
      ensures forall k, r | 0 <= k < sectors && 0 <= r < wps && old(Covered(k, r)) :: Covered(k, r)
    {
      hide Flasher.Covered, Flasher.Sound, Flasher.DirtyIn;
      while pending != []
        invariant Valid() && Sound(hi)
        invariant forall k | 0 <= k < sectors && old(Bit(k)) :: Bit(k)
        invariant forall k, r | 0 <= k < sectors && 0 <= r < wps && old(Covered(k, r)) :: Covered(k, r)
        decreases |pending|
      {
        Answer(hi);
      }
      forall k, r: nat | 0 <= k < sectors && 0 <= r < wps ensures CountOk(k, r, hi, scanned[(k, r)]) {
        assert old(CountOk(k, r, Limit(k, 0, hi, hi), scanned[(k, r)]));
      }
    }

    lemma OnceMore(lo: nat, hi: nat)
      requires sectors <= 8 * bitmap.Length && Once(0, lo, lo)
      ensures Once(0, lo, hi)
    {
    }

    twostate lemma ExactIs(lo: nat)
      requires old(Valid()) && Valid() && lo <= wps && old(Exact(lo)) && unchanged(flash)
      requires forall k | 0 <= k < sectors && old(Bit(k)) :: Bit(k)
      ensures forall k | 0 <= k < sectors && DirtyIn(k, lo) :: Bit(k)
    {
      forall k | 0 <= k < sectors && DirtyIn(k, lo) ensures Bit(k) {
        assert old(DirtyIn(k, lo)) by {
          var r :| 0 <= r < lo && IsDirty(k, r);
          assert old(IsDirty(k, r));
        }
      }
    }

    lemma MarkedCovered(k: nat)
      requires Valid() && k < sectors && Bit(k)
      ensures forall r | 0 <= r < wps :: Covered(k, r)
    {
    }

    /** Gaps of 8, 8, 16, 32 and so on bytes: afterwards exactly the dirty sectors are marked, no word was
        read twice, and every word of a clean sector was read once. */
    method QuickScan()
      requires Valid() && pending == [] && Doubles(8, sectorSize) && scanned == multiset{}
      requires forall k | 0 <= k < sectors :: !Bit(k)
      modifies `pending, `asked, `ops, `scanned, bitmap
      ensures Valid() && pending == [] && Exact(wps) && Once(0, wps, wps)
    {
      hide Flasher.Exact, Flasher.Once;
      ghost var n := 8 / size;
      StartExact();
      assert n * size == 8;
      GapFits(n, wps, size);
      QuickScanGap(0, 8, 0, n);
      var offset, gap := 8, 8;
      while offset != sectorSize
        invariant Valid() && pending == [] && 0 < n <= wps && offset == n * size && gap == offset
        invariant Doubles(offset, sectorSize) && Exact(n) && Once(0, n, n)
        decreases sectorSize - offset
      {
        GapFits(n, wps, size);
        QuickScanGap(offset, gap, n, n);
        offset, n := offset + gap, n + n;
        gap := gap + gap;
      }
      GapFits(n, wps, size);
    }

    lemma StartExact()
      requires Valid() && scanned == multiset{} && forall k | 0 <= k < sectors :: !Bit(k)
      ensures Exact(0) && Once(0, 0, 0)
    {
    }

    /** erase_sector: the device sets the whole sector to ones. */
    method EraseSector(ghost k: nat, sector: nat)
      requires Valid() && k < sectors && sector == address + k * sectorSize
      modifies flash, `erased
      ensures forall w | 0 <= w < flash.Length :: flash[w] == if At(k, 0) <= w < At(k + 1, 0) then AllOnes(size) else old(flash[w])
      ensures erased == old(erased) + [k]
    {
      erased := erased + [k];
      Located(k, 0);
      PositionOf(k, 0);
      EndOf(k);
      var start := (sector - address) / size;
      var end := (sector + sectorSize - address) / size;
      forall w | start <= w < end {
        flash[w] := AllOnes(size);
      }
    }

    lemma EndOf(k: nat)
      requires Valid() && k < sectors
      ensures At(k, 0) <= At(k + 1, 0) <= flash.Length
      ensures (k * sectorSize) / size == At(k, 0) && (k * sectorSize + sectorSize) / size == At(k + 1, 0)
    {
      hide *;
      Sizes();
      AtStart(k);
      AtStart(k + 1);
      Regrouped(k, wps, size);
      Regrouped(k + 1, wps, size);
      Fits(k, sectors, wps);
    }

    lemma Sizes()
      requires Valid()
      ensures sectorSize == wps * size && size > 0 && flash.Length == sectors * wps
    {
    }

    lemma AtStart(k: nat)
      ensures At(k, 0) == k * wps
    {
    }

    /** Every sector that is not marked is clean. */
    ghost predicate Unmarked()
      requires Valid()
      reads `pending, `asked, flash, bitmap
    {
      forall k, r | 0 <= k < sectors && 0 <= r < wps && !Bit(k) :: !IsDirty(k, r)
    }

    lemma ExactUnmarked()
      requires Valid() && Exact(wps)
      ensures Unmarked()
    {
      forall k, r | 0 <= k < sectors && 0 <= r < wps && !Bit(k) ensures !IsDirty(k, r) {
        assert !DirtyIn(k, wps);
      }
    }

    ghost function SectorOf(w: nat): nat
      requires wps > 0
    {
      w / wps
    }

    lemma WordIn(w: nat, k: nat)
      requires wps > 0 && w < sectors * wps
      ensures IsWord(SectorOf(w), w % wps) && At(SectorOf(w), w % wps) == w
      ensures At(k, 0) <= w < At(k + 1, 0) <==> SectorOf(w) == k
    {
      hide *;
      SectorOfIs(w, k);
      Quotient(w, wps);
      Between(w / wps, sectors, wps, w);
      Between(w / wps, k, wps, w);
      Between(w / wps, k + 1, wps, w);
    }

    lemma SectorOfIs(w: nat, k: nat)
      requires wps > 0
      ensures SectorOf(w) == w / wps && At(w / wps, w % wps) == w / wps * wps + w % wps
      ensures At(k, 0) == k * wps && At(k + 1, 0) == (k + 1) * wps
      ensures IsWord(w / wps, w % wps) <==> w / wps < sectors && w % wps < wps
    {
    }

    /** Of the first `n` sectors the marked ones are erased; everything else is as it was. */
    ghost predicate Erased(was: seq<bv64>, n: nat)
      requires Valid() && n <= sectors && |was| == flash.Length
      reads `pending, `asked, flash, bitmap
    {
      forall w | 0 <= w < flash.Length :: flash[w] == if SectorOf(w) < n && Bit(SectorOf(w)) then AllOnes(size) else was[w]
    }

    /** The first marked sectors, in order. */
    ghost function Marked(n: nat): (ks: seq<nat>)
      requires n <= 8 * bitmap.Length
      reads bitmap
    {
      if n == 0 then [] else Marked(n - 1) + if Bit(n - 1) then [n - 1] else []
    }

    /** The first sectors that are not blank, in order. */
    ghost function DirtySectors(n: nat): (ks: seq<nat>)
      requires n <= sectors && flash.Length == sectors * wps && size in {1, 2, 4, 8}
      reads flash
    {
      if n == 0 then [] else DirtySectors(n - 1) + if DirtyIn(n - 1, wps) then [n - 1] else []
    }

    lemma {:induction false} ExactMarked(n: nat)
      requires Valid() && Exact(wps) && n <= sectors
      ensures Marked(n) == DirtySectors(n)
    {
      if n > 0 {
        ExactMarked(n - 1);
        assert Bit(n - 1) <==> DirtyIn(n - 1, wps);
      }
    }

    /** Marked sectors are erased, each once and in order; the others are left alone. */
    method EraseFlash()
      requires Valid() && Unmarked()
      modifies flash, `erased
      ensures Erased(old(flash[..]), sectors)
      ensures forall w | 0 <= w < flash.Length :: flash[w] == AllOnes(size)
      ensures erased == old(erased) + old(Marked(sectors))
    {
      hide Flasher.SectorOf, Flasher.At, Flasher.Bit, Flasher.Unmarked, Flasher.Erased;
      assert old(erased) + [] == old(erased);
      SectorBounds();
      ghost var was := flash[..];
      var sector := address / sectorSize * sectorSize;
      var last := (address + length + sectorSize - 1) / sectorSize * sectorSize;
      var i := 0;
      NothingErased(was);
      while sector != last
        invariant 0 <= i <= sectors && sector == address + i * sectorSize && Erased(was, i)
        invariant erased == old(erased) + Marked(i)
        decreases sectors - i
      {
        MarkedNext(i);
        Regroup(old(erased), Marked(i), [i]);
        assert Marked(i) + [] == Marked(i);
        MoreWords(address, sectorSize, 0, sectors, i);
        if Bit(i) {
          EraseNext(was, i, sector);
        } else {
          SkipNext(was, i);
        }
        sector, i := sector + sectorSize, i + 1;
      }
      MoreWords(address, sectorSize, 0, sectors, i);
      AllErased(was);
    }

    lemma MarkedNext(i: nat)
      requires i < 8 * bitmap.Length
      ensures Marked(i + 1) == Marked(i) + if Bit(i) then [i] else []
    {
    }

    lemma NothingErased(was: seq<bv64>)
      requires Valid() && was == flash[..]
      ensures Erased(was, 0)
    {
    }

    lemma SkipNext(was: seq<bv64>, k: nat)
      requires Valid() && k < sectors && |was| == flash.Length && Erased(was, k) && !Bit(k)
      ensures Erased(was, k + 1)
    {
    }

    twostate lemma AllErased(was: seq<bv64>)
      requires old(Valid()) && Valid() && was == old(flash[..]) && old(Unmarked()) && Erased(was, sectors)
      requires unchanged(bitmap)
      ensures forall w | 0 <= w < flash.Length :: flash[w] == AllOnes(size)
    {
      hide Flasher.SectorOf, Flasher.At, Flasher.Bit;
      forall w | 0 <= w < flash.Length ensures flash[w] == AllOnes(size) {
        WordIn(w, 0);
        if !Bit(SectorOf(w)) {
          assert !old(IsDirty(SectorOf(w), w % wps));
        }
      }
    }

    method EraseNext(ghost was: seq<bv64>, ghost k: nat, sector: nat)
      requires Valid() && k < sectors && sector == address + k * sectorSize && |was| == flash.Length && Erased(was, k) && Bit(k)
      modifies flash, `erased
      ensures Erased(was, k + 1) && erased == old(erased) + [k]
    {
      hide Flasher.SectorOf, Flasher.At, Flasher.Bit;
      EraseSector(k, sector);
      forall w | 0 <= w < flash.Length
        ensures flash[w] == if SectorOf(w) < k + 1 && Bit(SectorOf(w)) then AllOnes(size) else was[w]
      {
        WordIn(w, k);
      }
    }

    /** What the device is to hold: the image with its bits flipped, except for the word that shares the
        address of the erase register, which stays blank. */
    function Target(image: seq<bv64>, i: nat): bv64
      requires i < |image| && size in {1, 2, 4, 8}
    {
      if address + i * size == eraseAddress then AllOnes(size) else Flip(invert, image[i])
    }

    /** The image, its bits mirrored within each byte if the device wants that, except for the word that shares
        the address of the erase register. */
    ghost predicate Holds(image: seq<bv64>)
      requires |image| <= flash.Length
      reads this, flash
    {
      forall i | 0 <= i < |image| && address + i * size != eraseAddress ::
        if invert then Mirrored(image[i], flash[i]) else flash[i] == image[i]
    }

    lemma TargetHolds(image: seq<bv64>)
      requires size in {1, 2, 4, 8} && |image| <= flash.Length && forall i | 0 <= i < |image| :: flash[i] == Target(image, i)
      ensures Holds(image)
    {
      hide Flip, FlipBits, Mirrored;
      forall i | 0 <= i < |image| && address + i * size != eraseAddress
        ensures if invert then Mirrored(image[i], flash[i]) else flash[i] == image[i]
      {
        FlipMeans(invert, image[i]);
        assert flash[i] == Target(image, i);
      }
    }

    /** Writing a word only clears bits. */
    method Write(position: nat, ghost i: nat, data: bv64)
      requires size > 0 && i < flash.Length && position == address + i * size
      modifies flash
      ensures forall w | 0 <= w < flash.Length :: flash[w] == if w == i then Cleared(old(flash[i]), data) else old(flash[w])
    {
      DivModUnique(i * size, size, i, 0);
      flash[(position - address) / size] := Cleared(flash[(position - address) / size], data);
    }

    lemma ImageFits(n: nat)
      requires Valid() && n * size == length
      ensures n <= flash.Length
    {
      Covers(n, size, wps, sectors, length);
    }

    ghost predicate PageStart(j: nat) {
      pageSize > 0 && (address + j * size) % pageSize == 0
    }

    /** No page begins behind word `k` up to word `j`. */
    ghost predicate SamePage(k: nat, j: nat) {
      forall i | k < i <= j :: !PageStart(i)
    }

    ghost predicate IsErase(j: nat) {
      address + j * size == eraseAddress
    }

    /** Word `k` was written, and its page was not over before word `j`; the erase register hides the end of its
        page. */
    ghost predicate Opened(written: set<nat>, k: nat, j: nat) {
      k in written && k < j && (SamePage(k, j) || exists e | k < e < j :: IsErase(e))
    }

    /** Of the first `n` words: only words of ones, and the erase register, are left out; once a word of a page was
        written the rest of the page is; and a word of ones is written only behind another one of its page. */
    ghost predicate ByPages(image: seq<bv64>, written: set<nat>, n: nat)
      requires n <= |image| && size in {1, 2, 4, 8}
    {
      && (forall j | j in written :: j < n && !IsErase(j))
      && (forall j | 0 <= j < n && j !in written :: IsErase(j) || image[j] == AllOnes(size))
      && (forall k, j | k in written && k < j < n && SamePage(k, j) :: j in written || IsErase(j))
      && (forall j | j in written && image[j] == AllOnes(size) :: exists k :: Opened(written, k, j))
    }

    /** Whether word `n` may be left out. */
    ghost predicate SkipIs(written: set<nat>, n: nat, skip: bool) {
      && (skip ==> forall k | k in written && k < n :: !SamePage(k, n))
      && (!skip ==> exists k :: Opened(written, k, n))
    }

    lemma NextByPages(image: seq<bv64>, written: set<nat>, n: nat, skip: bool, wrote: bool, skip': bool)
      requires n < |image| && size in {1, 2, 4, 8} && pageSize > 0 && ByPages(image, written, n) && SkipIs(written, n, skip)
      requires wrote <==> !(skip && image[n] == AllOnes(size)) && !IsErase(n)
      requires skip' <==> if wrote then PageStart(n + 1) else skip
      ensures var more := if wrote then written + {n} else written;
              ByPages(image, more, n + 1) && SkipIs(more, n + 1, skip')
    {
      var more := if wrote then written + {n} else written;
      hide PageStart, IsErase, AllOnes;
      SamePageStep(n);
      forall k, j | Opened(written, k, j) ensures Opened(more, k, j) {}
      if !skip {
        var k :| Opened(written, k, n);
        assert Opened(more, k, n);
        if !wrote {
          OpenedOn(written, k, n);
          assert Opened(more, k, n + 1);
        }
      }
      if wrote && !skip' {
        assert SamePage(n, n + 1);
        assert Opened(more, n, n + 1);
      }
    }

    lemma SamePageStep(n: nat)
      ensures forall k | 0 <= k <= n :: SamePage(k, n + 1) <==> SamePage(k, n) && !PageStart(n + 1)
    {
      hide PageStart;
    }

    /** A page stays open behind the erase register, and behind a word that could not be left out only that is. */
    lemma OpenedOn(written: set<nat>, k: nat, n: nat)
      requires Opened(written, k, n) && IsErase(n)
      ensures Opened(written, k, n + 1)
    {
    }

    /** One word of the image. Words of ones are skipped until a page needs writing. */
    method ProgramWord(image: seq<bv64>, ghost i: nat, position: nat, skip: bool) returns (maySkip: bool, ghost wrote: bool)
      requires size in {1, 2, 4, 8} && pageSize > 0 && i < flash.Length && i < |image| && position == address + i * size
      requires WordFits(image[i], size) && flash[i] == AllOnes(size)
      modifies flash, `ops
      ensures forall w | 0 <= w < flash.Length :: flash[w] == if w == i then Target(image, i) else old(flash[w])
      ensures wrote <==> !(skip && image[i] == AllOnes(size)) && !IsErase(i)
      ensures maySkip <==> if wrote then PageStart(i + 1) else skip
    {
      hide *;
      DivModUnique(i * size, size, i, 0);
      PageStartIs(i, position);
      wrote := false;
      var index := (position - address) / size;
      assert index == i;
      var data := image[index];
      TargetIs(image, i, data, position);
      maySkip := skip;
      if !(maySkip && data == AllOnes(size)) && position != eraseAddress {
        FlipFits(invert, data, size);
        Write(position, i, Flip(invert, data));
        maySkip, wrote := false, true;
        ops := ops + 1;
        if PageEnds(position + size, pageSize) {
          ops := 0;
          maySkip := true;
        }
      }
    }

    lemma NoPages(image: seq<bv64>)
      requires size in {1, 2, 4, 8}
      ensures ByPages(image, {}, 0) && SkipIs({}, 0, true)
    {
    }

    lemma PageStartIs(i: nat, position: nat)
      requires pageSize > 0 && position == address + i * size
      ensures PageEnds(position + size, pageSize) <==> PageStart(i + 1)
      ensures IsErase(i) <==> position == eraseAddress
    {
      assert (i + 1) * size == i * size + size;
    }

    lemma TargetIs(image: seq<bv64>, i: nat, data: bv64, position: nat)
      requires size in {1, 2, 4, 8} && i < |image| && position == address + i * size && data == image[i]
      ensures position == eraseAddress ==> Target(image, i) == AllOnes(size)
      ensures position != eraseAddress ==> Target(image, i) == Flip(invert, data)
      ensures data == AllOnes(size) ==> Target(image, i) == AllOnes(size)
    {
      hide FlipBits;
      SkipSound(invert, data, size);
    }

    /** Program the image onto a blank flash. */
    method ProgramFlash(image: seq<bv64>) returns (ghost written: set<nat>)
      requires Valid() && |image| * size == length && forall i | 0 <= i < |image| :: WordFits(image[i], size)
      requires forall w | 0 <= w < flash.Length :: flash[w] == AllOnes(size)
      modifies flash, `ops
      ensures Valid() && |image| <= flash.Length
      ensures forall i | 0 <= i < |image| :: flash[i] == Target(image, i)
      ensures Holds(image) && forall i | 0 <= i < |image| && address + i * size == eraseAddress :: flash[i] == AllOnes(size)
      ensures forall i | |image| <= i < flash.Length :: flash[i] == AllOnes(size)
      ensures ByPages(image, written, |image|)
    {
      hide Flasher.Target, Flasher.Holds, Flasher.ByPages, Flasher.SkipIs, Flasher.PageStart, Flasher.IsErase, WordFits, AllOnes;
      written := {};
      NoPages(image);
      ImageFits(|image|);
      ops := 0;
      var maySkip := true;
      var stop := address + length;
      var position := address;
      ghost var i := 0;
      while position != stop
        invariant 0 <= i <= |image| && position == address + i * size && Valid()
        invariant ByPages(image, written, i) && SkipIs(written, i, maySkip)
        invariant forall j | 0 <= j < i :: flash[j] == Target(image, j)
        invariant forall j | i <= j < flash.Length :: flash[j] == AllOnes(size)
        decreases |image| - i
      {
        MoreWords(address, size, 0, |image|, i);
        ghost var skip, wrote := maySkip, false;
        maySkip, wrote := ProgramWord(image, i, position, maySkip);
        NextByPages(image, written, i, skip, wrote, maySkip);
        written := if wrote then written + {i} else written;
        position, i := position + size, i + 1;
      }
      MoreWords(address, size, 0, |image|, i);
      TargetHolds(image);
      forall i | 0 <= i < |image| && address + i * size == eraseAddress ensures flash[i] == AllOnes(size) {
        TargetIs(image, i, image[i], eraseAddress);
      }
    }

    /** The whole run: afterwards every word of the image reads as its (flipped) firmware word; and unless all
        sectors were to be erased, exactly those were that were not blank before, each once and in order. */
    method Program(full: bool, image: seq<bv64>)
      requires Valid() && pending == [] && scanned == multiset{} && Doubles(8, sectorSize)
      requires |image| * size == length && forall i | 0 <= i < |image| :: WordFits(image[i], size)
      requires forall k | 0 <= k < bitmap.Length :: bitmap[k] == 0
      modifies this, flash, bitmap
      ensures Valid() && |image| <= flash.Length
      ensures forall i | 0 <= i < |image| :: flash[i] == Target(image, i)
      ensures Holds(image)
      ensures !full ==> erased == old(erased) + old(DirtySectors(sectors))
      ensures full ==> erased == old(erased) + UpTo(sectors)
    {
      hide Flasher.Target, Flasher.Holds, Flasher.Exact, Flasher.Unmarked, Flasher.Once, Flasher.Erased, Flasher.Marked, Flasher.DirtySectors, UpTo;
      if full {
        forall k | 0 <= k < bitmap.Length {
          bitmap[k] := 0xFF;
        }
        AllMarked();
        EveryMarked(sectors);
      } else {
        NoneMarked();
        QuickScan();
        ExactUnmarked();
        ExactMarked(sectors);
      }
      EraseFlash();
      ghost var written := ProgramFlash(image);
    }

    lemma AllMarked()
      requires Valid() && forall k | 0 <= k < bitmap.Length :: bitmap[k] == 0xFF
      ensures Unmarked()
    {
      forall k | 0 <= k < sectors ensures Bit(k) {
        AllOrNone(k % 8);
      }
    }

    lemma {:induction false} EveryMarked(n: nat)
      requires Valid() && n <= sectors && forall k | 0 <= k < bitmap.Length :: bitmap[k] == 0xFF
      ensures Marked(n) == UpTo(n)
    {
      if n > 0 {
        EveryMarked(n - 1);
        AllOrNone((n - 1) % 8);
      }
    }

    lemma NoneMarked()
      requires Valid() && forall k | 0 <= k < bitmap.Length :: bitmap[k] == 0
      ensures forall k | 0 <= k < sectors :: !Bit(k)
    {
      forall k | 0 <= k < sectors ensures !Bit(k) {
        AllOrNone(k % 8);
      }
    }
  }
}
