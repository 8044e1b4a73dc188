/** One line of an IP list: what the parser makes of it, and what it says. */
module IpList {
  import opened Bytes
  import opened Wrappers
  import opened Netip
  import opened PrefixBits
  import opened Text

  /** net/netip's parsers and the text of a prefix. */
  datatype AddrText = AddrText(
    parseAddr: string -> Option<Addr>,
    parsePrefix: string -> Option<Prefix>,
    prefixString: Prefix -> string)

  /**
   * Parsed prefixes are valid, and the text of a valid prefix parses back to it. A line feed can
   * only be part of a zone, which an address takes over as it is and a prefix does not have.
   */
  ghost predicate LawfulText(net: AddrText) {
    && (forall s :: net.parsePrefix(s).Some? ==> net.parsePrefix(s).value.Valid() && '\n' !in s)
    && (forall s :: net.parseAddr(s).Some? ==> ('\n' in s <==> '\n' in net.parseAddr(s).value.Zone()))
    && (forall p: Prefix :: p.Valid() ==> net.parsePrefix(net.prefixString(p)) == Some(p))
  }

  datatype Entry = Exact(addr: Addr) | Block(prefix: Prefix)

  datatype Line = Skipped | Parsed(entry: Entry) | Bad

  /** One line of a source; the prefix is masked on the way in. */
  function ParseAllowlistEntry(net: AddrText, raw: string): Line
    requires LawfulText(net)
  {
    var trimmed := TrimSpace(raw);
    if trimmed == "" || trimmed[0] == '#' then Skipped
    else
      var idx := IndexOf(trimmed, '#');
      var line := if idx < |trimmed| then TrimSpace(trimmed[..idx]) else trimmed;
      if line == "" then Skipped
      else if '/' in line then
        match net.parsePrefix(line)
        case None => Bad
        case Some(prefix) => Parsed(Block(prefix.Masked()))
      else
        match net.parseAddr(line)
        case None => Bad
        case Some(addr) => Parsed(Exact(addr))
  }

  // ---------------------------------------------------------------------------------
  // The naive reading of a line
  // ---------------------------------------------------------------------------------

  /** What a line says: the text in front of the first '#', without surrounding space. */
  function Content(raw: string): string {
    TrimSpace(raw[..IndexOf(raw, '#')])
  }

  /** The address, or an address of the prefix, that the line writes down. */
  predicate Denotes(net: AddrText, raw: string, addr: Addr)
    requires LawfulText(net)
  {
    var content := Content(raw);
    content != "" &&
    if '/' in content then net.parsePrefix(content).Some? && Shares(net.parsePrefix(content).value, addr)
    else net.parseAddr(content) == Some(addr)
  }

  predicate Covers(e: Entry, addr: Addr) {
    match e
    case Exact(a) => a == addr
    case Block(p) => p.Valid() && Shares(p, addr)
  }

  /** The two comment checks amount to reading the content. */
  lemma ParseReadsContent(net: AddrText, raw: string)
    requires LawfulText(net)
    ensures var content, parsed := Content(raw), ParseAllowlistEntry(net, raw);
            && (parsed.Skipped? <==> content == "")
            && (parsed.Bad? <==>
                  content != "" &&
                  if '/' in content then net.parsePrefix(content).None? else net.parseAddr(content).None?)
            && (parsed.Parsed? && parsed.entry.Block? ==> '/' in content && parsed.entry.prefix.Valid())
            && (parsed.Parsed? && parsed.entry.Exact? ==> '/' !in content)
  {
    hide TrimSpace;
    CutTrimmed(raw, '#');
    var trimmed := TrimSpace(raw);
    if trimmed != "" && trimmed[0] == '#' {
      assert IndexOf(trimmed, '#') == 0;
      assert trimmed[..0] == "";
      TrimNothing();
    } else if trimmed == "" {
      assert trimmed[..IndexOf(trimmed, '#')] == "";
      TrimNothing();
    } else if IndexOf(trimmed, '#') == |trimmed| {
      assert trimmed[..|trimmed|] == trimmed;
      assert Content(raw) == trimmed;
    }
    var content := Content(raw);
    if content != "" && '/' in content && net.parsePrefix(content).Some? {
      MaskedKeepsMembers(net.parsePrefix(content).value, net.parsePrefix(content).value.addr);
    }
  }

  lemma TrimNothing()
    ensures TrimSpace("") == ""
  {
  }

  /** A line denotes an address exactly when it parses to an entry that covers it. */
  lemma ParsedDenotes(net: AddrText, raw: string, addr: Addr)
    requires LawfulText(net)
    ensures Denotes(net, raw, addr) <==>
            ParseAllowlistEntry(net, raw).Parsed? && Covers(ParseAllowlistEntry(net, raw).entry, addr)
  {
    hide TrimSpace;
    ParseReadsContent(net, raw);
    CutTrimmed(raw, '#');
    var trimmed, content := TrimSpace(raw), Content(raw);
    if IndexOf(trimmed, '#') == |trimmed| {
      assert trimmed[..|trimmed|] == trimmed;
    }
    if content != "" && '/' in content && net.parsePrefix(content).Some? {
      MaskedShares(net.parsePrefix(content).value, addr);
    }
  }
}
