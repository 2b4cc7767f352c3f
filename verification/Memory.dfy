/** The C library's out-parameters and its copies into caller memory. */
module Memory {
  import opened Bytes

  /** A size_t the callee writes through a pointer. */
  class SizeRef {
    var value: nat

    constructor (value: nat)
      ensures this.value == value
    {
      this.value := value;
    }
  }

  /** memcpy; staying inside the destination is part of the contract. */
  method CopyInto(dst: array<byte>, off: nat, src: seq<byte>)
    requires off + |src| <= dst.Length
    modifies dst
    ensures dst[..] == old(dst[..off]) + src + old(dst[off + |src|..])
  {
    forall k | 0 <= k < |src| {
      dst[off + k] := src[k];
    }
  }

  /** Nothing outside `[off, off + cap)` has changed. */
  twostate predicate OnlyWithin(a: array<byte>, off: nat, cap: nat)
    requires off + cap <= a.Length
    reads a
  {
    forall k | 0 <= k < a.Length && !(off <= k < off + cap) :: a[k] == old(a[k])
  }
}
