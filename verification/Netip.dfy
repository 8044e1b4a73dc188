/** Addresses and prefixes of Go's package net/netip, as the IP lists and the limiter use them. */
module Netip {
  import opened Bits

  type Word32 = x: int | 0 <= x < 0x1_0000_0000
  type Word128 = x: int | 0 <= x < 0x1_0000_0000_0000_0000_0000_0000_0000_0000

  /** First address of ::ffff:0:0/96, the IPv4-mapped block. */
  const MAPPED_BASE: int := 0xFFFF_0000_0000

  datatype Addr = V4(v4: Word32) | V6(v6: Word128, zone: string) {
    function Width(): nat {
      if V4? then 32 else 128
    }

    function Value(): nat {
      if V4? then v4 else v6
    }

    function Zone(): string {
      if V6? then zone else ""
    }

    predicate HasZone() {
      Zone() != ""
    }

    predicate Is4In6() {
      V6? && MAPPED_BASE <= v6 < MAPPED_BASE + 0x1_0000_0000
    }

    /** An IPv4-mapped address becomes the IPv4 address, losing any zone; others are unchanged. */
    function Unmap(): Addr {
      if Is4In6() then V4(v6 - MAPPED_BASE) else this
    }
  }

  /** A parsed prefix: net/netip refuses zones in prefixes and over-long bit counts. */
  datatype Prefix = Prefix(addr: Addr, bits: nat) {
    predicate Valid() {
      bits <= addr.Width() && !addr.HasZone()
    }

    /** The size of the block the prefix denotes. */
    function BlockSize(): (size: nat)
      requires Valid()
      ensures size > 0
    {
      Pow2(addr.Width() - bits)
    }

    /** prefix.Contains: same family, no zone, and the leading bits agree. */
    predicate Contains(ip: Addr)
      requires Valid()
    {
      && !ip.HasZone()
      && ip.Width() == addr.Width()
      && ip.Value() / BlockSize() == addr.Value() / BlockSize()
    }

    /** prefix.Masked: the same prefix with every host bit cleared. */
    function Masked(): Prefix
      requires Valid()
    {
      var base := BlockStart(addr.Value(), BlockSize());
      Prefix(if addr.V4? then V4(base) else V6(base, ""), bits)
    }
  }

  /** The first address of the block of the given size that holds value. */
  function BlockStart(value: nat, size: nat): (start: nat)
    requires size > 0
    ensures start <= value
    ensures start / size == value / size
  {
    QuotientOfMultiple(value / size, size);
    assert value == value / size * size + value % size;
    value / size * size
  }

  lemma QuotientOfMultiple(q: nat, size: nat)
    requires size > 0
    ensures q * size / size == q
  {
    var gap := q - q * size / size;
    assert gap * size == q * size % size;
    ProductSign(gap, size);
  }

  /** Clearing host bits changes neither validity nor membership. */
  lemma MaskedKeepsMembers(p: Prefix, ip: Addr)
    requires p.Valid()
    ensures p.Masked().Valid()
    ensures p.Masked().Contains(ip) <==> p.Contains(ip)
  {
  }

  /**
   * Masking is canonical: two prefixes of the same length and family have the same masked
   * form exactly when each contains the other's address, and masking twice is masking once.
   */
  lemma MaskedIsCanonical(p: Prefix, q: Prefix)
    requires p.Valid() && q.Valid() && p.bits == q.bits
    ensures p.Masked() == q.Masked() <==> p.Contains(q.addr)
    ensures p.Masked().Valid() && p.Masked().Masked() == p.Masked()
  {
  }
}
