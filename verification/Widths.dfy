/**
 Width masks as the API passes them: the low four bits list the data widths 1, 2, 4 and 8 bytes,
 the high four bits the address widths.
 */
module Widths {
  import opened Lanes

  predicate Possible(width: bv8) {
    width & 0xF != 0 && width >> 4 != 0
  }

  predicate Refined(width: bv8) {
    var data, addr := width & 0xF, width >> 4;
    data != 0 && addr != 0 && data & (data - 1) == 0 && addr & (addr - 1) == 0
  }

  /** Smear the highest bit of a four-bit mask downwards, then keep only that bit. */
  function HighestBit(mask: bv8): bv8
    requires mask <= 0xF
  {
    var m1 := mask | (mask >> 1);
    var m2 := m1 | (m1 >> 2);
    (m2 + 1) >> 1
  }

  function Refine(width: bv8): bv8 {
    (HighestBit(width >> 4) << 4) | HighestBit(width & 0xF)
  }

  /** Of the widths on offer the largest one is picked, and only an empty offer yields none. */
  lemma HighestBitIsLargest(mask: bv8, w: bv8)
    requires mask <= 0xF
    ensures HighestBit(mask) == 0 <==> mask == 0
    ensures HighestBit(mask) & mask == HighestBit(mask)
    ensures HighestBit(mask) & (HighestBit(mask) - 1) == 0
    ensures (w == 1 || w == 2 || w == 4 || w == 8) && w & mask != 0 ==> w <= HighestBit(mask)
  {}

  /** Refinement is idempotent, and yields a refined width exactly when negotiation was possible. */
  lemma RefineCorrect(width: bv8)
    ensures Possible(width) <==> Refined(Refine(width))
    ensures Refine(Refine(width)) == Refine(width)
    ensures Refined(width) ==> Refine(width) == width
    ensures Refine(width) & width == Refine(width)
  {}
}
