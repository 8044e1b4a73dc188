/** What a prefix says about the bits of an address, and what unmapping does to an address. */
module PrefixBits {
  import opened Bits
  import opened Netip

  function AddrBits(addr: Addr): seq<bool> {
    BitsOf(addr.Value(), if addr.V4? then 32 else 128)
  }

  lemma ValueFits(addr: Addr)
    ensures addr.Value() < Pow2(if addr.V4? then 32 else 128)
    ensures addr.Width() == if addr.V4? then 32 else 128
  {
    PowersOfWidths();
  }

  /** The leading bits of a value are those of its part above the rest. */
  lemma LeadingBits(v: nat, m: nat, n: nat)
    requires v < Pow2(m + n)
    ensures Quotient(v, Pow2(n)) < Pow2(m)
    ensures BitsOf(v, m + n)[..m] == BitsOf(Quotient(v, Pow2(n)), m)
  {
    hide BitsOf, Pow2, Quotient, Rest;
    var q, r := Quotient(v, Pow2(n)), Rest(v, Pow2(n));
    BitsSplit(v, m, n, q, r);
    UpperPartFits(v, m, n, q, r);
  }

  /** Which addresses a prefix stands for: those without zone of its family that share its leading bits. */
  predicate Shares(p: Prefix, ip: Addr)
    requires p.Valid()
  {
    && (ip.V4? || ip.zone == "") && ip.V4? == p.addr.V4?
    && AddrBits(ip)[..p.bits] == AddrBits(p.addr)[..p.bits]
  }

  /** A prefix contains exactly those. */
  lemma ContainsSharedBits(p: Prefix, ip: Addr)
    requires p.Valid()
    ensures p.Contains(ip) <==> Shares(p, ip)
  {
    hide BitsOf, Pow2;
    if ip.V4? == p.addr.V4? {
      ValueFits(ip);
      ValueFits(p.addr);
      var n := p.addr.Width() - p.bits;
      LeadingBits(ip.Value(), p.bits, n);
      LeadingBits(p.addr.Value(), p.bits, n);
      if AddrBits(ip)[..p.bits] == AddrBits(p.addr)[..p.bits] {
        BitsInjective(Quotient(ip.Value(), Pow2(n)), Quotient(p.addr.Value(), Pow2(n)), p.bits);
      }
    }
  }

  /** Clearing host bits changes nothing of that. */
  lemma MaskedShares(p: Prefix, ip: Addr)
    requires p.Valid()
    ensures p.Masked().Valid() && (Shares(p.Masked(), ip) <==> Shares(p, ip))
  {
    hide Shares;
    MaskedKeepsMembers(p, ip);
    ContainsSharedBits(p, ip);
    ContainsSharedBits(p.Masked(), ip);
  }

  /** Masking keeps the leading bits and clears all others. */
  lemma MaskedClearsHostBits(p: Prefix)
    requires p.Valid()
    ensures var m := p.Masked();
            && m.bits == p.bits && m.addr.V4? == p.addr.V4? && (m.addr.V4? || m.addr.zone == "")
            && AddrBits(m.addr) == AddrBits(p.addr)[..p.bits] + seq(|AddrBits(p.addr)| - p.bits, _ => false)
  {
    hide BitsOf, Pow2;
    ValueFits(p.addr);
    var m, n := p.Masked(), p.addr.Width() - p.bits;
    var v, base := p.addr.Value(), m.addr.Value();
    LeadingBits(v, p.bits, n);
    BitsSplit(base, p.bits, n, Quotient(v, Pow2(n)), 0);
    ZeroBits(n);
  }

  /** The 80 zeros and 16 ones in front of the last 32 bits of an IPv4-mapped address. */
  function MappedMark(): seq<bool> {
    seq(80, _ => false) + seq(16, _ => true)
  }

  lemma MappedMarkBits()
    ensures BitsOf(0xFFFF, 96) == MappedMark()
  {
    hide BitsOf, Pow2;
    PowersOfWidths();
    BitsSplit(0xFFFF, 80, 16, 0, 0xFFFF);
    ZeroBits(80);
    OneBits();
  }

  /**
   * The limiter's key: an IPv4-mapped address is the IPv4 address of its last 32 bits, whatever
   * its zone, and every other address is itself.
   */
  lemma UnmapKeepsLowBits(addr: Addr)
    ensures var mapped := addr.V6? && AddrBits(addr)[..96] == MappedMark();
            && (mapped ==> addr.Unmap().V4? && AddrBits(addr.Unmap()) == AddrBits(addr)[96..])
            && (!mapped ==> addr.Unmap() == addr)
  {
    if addr.V6? {
      var q, r := addr.v6 / 0x1_0000_0000, addr.v6 % 0x1_0000_0000;
      assert addr.v6 == q * 0x1_0000_0000 + r && r < 0x1_0000_0000;
      assert addr.Is4In6() <==> q == 0xFFFF;
      assert addr.Is4In6() ==> addr.Unmap() == V4(r);
      hide BitsOf, Pow2, MappedMark, Addr.Unmap, Addr.Is4In6;
      HighAndLowBits(addr.v6, q, r);
      assert AddrBits(addr) == BitsOf(addr.v6, 128);
    }
  }

  /** The last 32 of 128 bits, and when those in front of them are the mark. */
  lemma HighAndLowBits(v: Word128, q: nat, r: nat)
    requires v == q * 0x1_0000_0000 + r && r < 0x1_0000_0000
    ensures BitsOf(v, 128)[96..] == BitsOf(r, 32)
    ensures BitsOf(v, 128)[..96] == MappedMark() <==> q == 0xFFFF
  {
    hide BitsOf, Pow2, MappedMark;
    PowersOfWidths();
    BitsSplit(v, 96, 32, q, r);
    UpperPartFits(v, 96, 32, q, r);
    MappedMarkBits();
    MarkFits();
    if BitsOf(v, 128)[..96] == MappedMark() {
      BitsInjective(q, 0xFFFF, 96);
    }
  }

  lemma MarkFits()
    ensures 0xFFFF < Pow2(96)
  {
    hide Pow2;
    PowersOfWidths();
    PowersMultiply(80, 16);
    Monotone(1, Pow2(80), Pow2(16));
  }

  lemma OneBits()
    ensures BitsOf(0xFFFF, 16) == seq(16, _ => true)
  {
    assert BitsOf(15, 4) == [true, true, true, true];
    hide BitsOf, Pow2;
    SmallPowers();
    PowersOfWidths();
    BitsSplit(0xFF, 4, 4, 15, 15);
    BitsSplit(0xFFFF, 8, 8, 0xFF, 0xFF);
  }

  /** Different mapped addresses without zone keep different keys. */
  lemma UnmapIsInjective(a: Addr, b: Addr)
    requires a.V6? && b.V6? && a.zone == b.zone && a.Unmap() == b.Unmap()
    ensures a == b
  {
  }
}
