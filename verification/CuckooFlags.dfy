/** Collection flags packed eight to a byte. */
module CuckooFlags {
  import opened PackedBits

  class BitFlags {
    var mem: array<bv8>

    function Capacity(): nat
      reads this
    {
      8 * mem.Length
    }

    predicate IsSet(s: nat)
      requires s < Capacity()
      reads this, mem
    {
      Bit(mem[s / 8], s % 8)
    }

    /** Enough bytes for some number of flags, all set. */
    constructor (size: nat)
      ensures fresh(mem) && size <= Capacity() && forall i | 0 <= i < Capacity() :: IsSet(i)
    {
      var bytes := (size + 7) / 8;
      var m := new bv8[bytes];
      for i := 0 to bytes
        invariant forall j | 0 <= j < i :: m[j] == 0xFF
      {
        m[i] := 0xFF;
      }
      mem := m;
      new;
      forall i | 0 <= i < Capacity() ensures IsSet(i) { AllSet(i % 8); }
    }

    method Setup(b: nat)
      modifies this
      ensures fresh(mem) && b <= Capacity() && forall i | 0 <= i < Capacity() :: IsSet(i)
    {
      var d := new BitFlags(b);
      mem := d.mem;
      assert forall i | 0 <= i < Capacity() :: d.IsSet(i) ==> IsSet(i);
    }

    /** Mark an entry as discardable. */
    method Set(s: nat)
      requires s < Capacity()
      modifies mem
      ensures forall i | 0 <= i < Capacity() :: IsSet(i) == (i == s || old(IsSet(i)))
    {
      hide Bit;
      ghost var before := mem[..];
      mem[s / 8] := mem[s / 8] | Mask(s % 8);
      forall i | 0 <= i < Capacity() ensures IsSet(i) == (i == s || Bit(before[i / 8], i % 8)) {
        if i / 8 == s / 8 { BitSet(before[s / 8], s % 8, i % 8); }
      }
    }

    /** Mark an entry as one that should not be overwritten. */
    method Unset(s: nat)
      requires s < Capacity()
      modifies mem
      ensures forall i | 0 <= i < Capacity() :: IsSet(i) == (i != s && old(IsSet(i)))
    {
      hide Bit;
      ghost var before := mem[..];
      mem[s / 8] := mem[s / 8] & !Mask(s % 8);
      forall i | 0 <= i < Capacity() ensures IsSet(i) == (i != s && Bit(before[i / 8], i % 8)) {
        if i / 8 == s / 8 { BitUnset(before[s / 8], s % 8, i % 8); }
      }
    }
  }
}
