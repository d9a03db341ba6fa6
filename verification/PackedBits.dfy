/** Bits packed eight to a byte. */
module PackedBits {

  function Mask(k: nat): bv8 {
    if k == 0 then 1 else if k == 1 then 2 else if k == 2 then 4 else if k == 3 then 8
    else if k == 4 then 16 else if k == 5 then 32 else if k == 6 then 64 else 128
  }

  predicate Bit(x: bv8, k: nat) { x & Mask(k) != 0 }

  lemma BitSet(x: bv8, j: nat, k: nat)
    requires j < 8 && k < 8
    ensures Bit(x | Mask(j), k) <==> j == k || Bit(x, k)
  {
  }

  lemma BitUnset(x: bv8, j: nat, k: nat)
    requires j < 8 && k < 8
    ensures Bit(x & !Mask(j), k) <==> j != k && Bit(x, k)
  {
  }

  lemma AllSet(k: nat)
    ensures Bit(0xFF, k)
  {
  }

  /** A byte is full, or zero, if all its bits are set, or none. */
  lemma FullOrZero(x: bv8)
    ensures x == 0xFF <==> Bit(x, 0) && Bit(x, 1) && Bit(x, 2) && Bit(x, 3) && Bit(x, 4) && Bit(x, 5) && Bit(x, 6) && Bit(x, 7)
    ensures x == 0 <==> !Bit(x, 0) && !Bit(x, 1) && !Bit(x, 2) && !Bit(x, 3) && !Bit(x, 4) && !Bit(x, 5) && !Bit(x, 6) && !Bit(x, 7)
  {
  }
}
