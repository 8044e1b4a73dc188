/** ipListContains on a loaded index: it answers for the source texts, and for nothing else. */
module IpListLookup {
  import opened Bytes
  import opened Wrappers
  import opened Netip
  import opened PrefixBits
  import opened Text
  import opened IpList
  import opened IpListLoad

  ghost predicate ValidList(list: IpAllowlist) {
    forall p :: p in list.prefixes ==> p.Valid()
  }

  ghost predicate Listed(list: IpAllowlist, addr: Addr)
    requires ValidList(list)
  {
    addr in list.exactIPs || exists p :: p in list.prefixes && Shares(p, addr)
  }

  method IpListContains(list: IpAllowlist, addr: Addr) returns (found: bool)
    requires ValidList(list)
    ensures found == Listed(list, addr)
  {
    if addr in list.exactIPs {
      return true;
    }
    for i := 0 to |list.prefixes|
      invariant forall k :: 0 <= k < i ==> !Shares(list.prefixes[k], addr)
    {
      ContainsSharedBits(list.prefixes[i], addr);
      if list.prefixes[i].Contains(addr) {
        return true;
      }
    }
    return false;
  }

  /** A carriage return in front of the line feed says nothing. */
  lemma CarriageReturnIgnored(net: AddrText, rawLine: string, addr: Addr)
    requires LawfulText(net)
    ensures Denotes(net, DropCR(rawLine), addr) <==> Denotes(net, rawLine, addr)
  {
    var line := DropCR(rawLine);
    if line != rawLine {
      assert rawLine == line + ['\r'];
      ContentIgnoresReturn(line);
    }
  }

  lemma ContentIgnoresReturn(line: string)
    ensures Content(line + ['\r']) == Content(line)
  {
    hide TrimSpace, IndexOf;
    var rawLine := line + ['\r'];
    if '#' in line {
      IndexOfPrefix(line, '#', ['\r']);
    } else {
      assert IndexOf(line, '#') == |line| && IndexOf(rawLine, '#') == |rawLine|;
      assert rawLine[..|rawLine|] == rawLine && line[..|line|] == line;
      TrimDropsTrailingSpace(line, '\r');
    }
  }

  lemma TrimDropsTrailingSpace(s: string, space: char)
    requires IsSpace(space)
    ensures TrimSpace(s + [space]) == TrimSpace(s)
  {
    TrimLeftFacts(s, [space]);
    assert TrimLeft([space]) == "";
    TrimRightFacts(TrimLeft(s), [space]);
    assert TrimRight([space]) == "";
  }

  /**
   * Index agreement: for an index of the entries of some lines, an address is listed exactly
   * when one of the lines denotes it or a prefix that contains it.
   */
  lemma IndexAgreement(net: AddrText, lines: seq<string>, list: IpAllowlist, addr: Addr)
    requires LawfulText(net) && Indexes(list, EntriesOf(net, lines))
    ensures ValidList(list)
    ensures Listed(list, addr) <==> exists line :: line in lines && Denotes(net, line, addr)
  {
    hide LineOf, Denotes, LawfulText;
    var held := EntriesOf(net, lines);
    forall p | p in list.prefixes
      ensures p.Valid()
    {
      assert Block(p) in held;
    }
    assert Listed(list, addr) <==> exists e :: e in held && Covers(e, addr) by {
      if Listed(list, addr) {
        if addr in list.exactIPs {
          assert Covers(Exact(addr), addr);
        } else {
          var p :| p in list.prefixes && Shares(p, addr);
          assert Block(p) in held && Covers(Block(p), addr);
        }
      }
      if e :| e in held && Covers(e, addr) {
        assert e.Block? ==> e.prefix in list.prefixes;
      }
    }
    EntriesCover(net, lines, addr);
  }

  lemma EntriesCover(net: AddrText, lines: seq<string>, addr: Addr)
    requires LawfulText(net)
    ensures (exists e :: e in EntriesOf(net, lines) && Covers(e, addr)) <==>
            (exists line :: line in lines && Denotes(net, line, addr))
  {
    hide LawfulText, Denotes, ParseAllowlistEntry, Covers, DropCR;
    forall line
      ensures Denotes(net, line, addr) <==> LineOf(net, line).Parsed? && Covers(LineOf(net, line).entry, addr)
    {
      CarriageReturnIgnored(net, line, addr);
      ParsedDenotes(net, DropCR(line), addr);
    }
    if e :| e in EntriesOf(net, lines) && Covers(e, addr) {
      var i :| 0 <= i < |lines| && LineOf(net, lines[i]).Parsed? && LineOf(net, lines[i]).entry == e;
      assert Denotes(net, lines[i], addr);
    }
    if line :| line in lines && Denotes(net, line, addr) {
      var i :| 0 <= i < |lines| && lines[i] == line;
      assert LineOf(net, lines[i]).entry in EntriesOf(net, lines);
    }
  }

  ghost predicate SomeLineDenotes(net: AddrText, lines: seq<string>, addr: Addr)
    requires LawfulText(net)
  {
    exists line :: line in lines && Denotes(net, line, addr)
  }

  /** Not scanning a blank source loses nothing: its lines denote nothing. */
  lemma BlankSourceDenotesNothing(net: AddrText, content: string, addr: Addr)
    requires LawfulText(net)
    ensures SomeLineDenotes(net, ScannedLines(content), addr) <==> SomeLineDenotes(net, RawLines(content), addr)
  {
    if TrimSpace(content) == "" {
      hide TrimSpace, LawfulText, RawLines;
      BlankExactlyWhenSpaces(content);
      forall line | line in RawLines(content)
        ensures Content(line) == ""
      {
        forall c | c in line[..IndexOf(line, '#')]
          ensures IsSpace(c)
        {
          LineCharsFromContent(content, line, c);
        }
        BlankExactlyWhenSpaces(line[..IndexOf(line, '#')]);
      }
    }
  }

  lemma {:induction false} LineCharsFromContent(content: string, line: string, c: char)
    requires line in RawLines(content) && c in line
    ensures c in content
    decreases |content|
  {
    var i := IndexOf(content, '\n');
    if i < |content| && line != content[..i] {
      LineCharsFromContent(content[i + 1..], line, c);
    }
  }

  /** The lines of two texts joined by a line feed denote what the lines of either denote. */
  lemma {:induction false} JoinedLinesDenote(net: AddrText, first: string, rest: string, addr: Addr)
    requires LawfulText(net)
    ensures SomeLineDenotes(net, RawLines(first + ['\n'] + rest), addr) <==>
            SomeLineDenotes(net, RawLines(first), addr) || SomeLineDenotes(net, RawLines(rest), addr)
    decreases |first|
  {
    hide RawLines, LawfulText, Denotes;
    var i := IndexOf(first, '\n');
    var front := first[..i];
    if i == |first| {
      assert first == front;
      RawLinesOfSplit(first, rest);
      EmptyDenotesNothing(net, addr);
      ConsDenotes(net, first, RawLines(rest), addr);
      ConsDenotes(net, first, [], addr);
    } else {
      var back := first[i + 1..];
      assert first == front + ['\n'] + back;
      assert first + ['\n'] + rest == front + ['\n'] + (back + ['\n'] + rest);
      RawLinesOfSplit(front, back);
      RawLinesOfSplit(front, back + ['\n'] + rest);
      JoinedLinesDenote(net, back, rest, addr);
      ConsDenotes(net, front, RawLines(back), addr);
      ConsDenotes(net, front, RawLines(back + ['\n'] + rest), addr);
    }
  }

  lemma ConsDenotes(net: AddrText, line: string, lines: seq<string>, addr: Addr)
    requires LawfulText(net)
    ensures SomeLineDenotes(net, [line] + lines, addr) <==>
            Denotes(net, line, addr) || SomeLineDenotes(net, lines, addr)
    ensures [line] + [] == [line] && !SomeLineDenotes(net, [], addr)
  {
    hide Denotes, LawfulText;
    var all := [line] + lines;
    assert forall l :: l in all <==> l == line || l in lines;
  }

  /** A configured entry is read line by line, like a file. */
  ghost predicate EntryDenotes(net: AddrText, entry: string, addr: Addr)
    requires LawfulText(net)
  {
    SomeLineDenotes(net, RawLines(entry), addr)
  }

  ghost predicate InlineDenotes(net: AddrText, inline: seq<string>, addr: Addr)
    requires LawfulText(net)
  {
    exists entry :: entry in inline && EntryDenotes(net, entry, addr)
  }

  lemma {:induction false} JoinedEntriesDenote(net: AddrText, inline: seq<string>, addr: Addr)
    requires LawfulText(net)
    ensures EntryDenotes(net, JoinLines(inline), addr) <==> InlineDenotes(net, inline, addr)
  {
    hide LawfulText, RawLines, Denotes, SomeLineDenotes, InlineDenotes, JoinLines;
    if inline == [] {
      NothingInline(net, addr);
    } else {
      var first, rest := inline[0], inline[1..];
      assert inline == [first] + rest;
      ConsInline(net, first, rest, addr);
      if rest != [] {
        JoinedLinesDenote(net, first, JoinLines(rest), addr);
        JoinCons(first, rest);
        JoinedEntriesDenote(net, rest, addr);
      } else {
        JoinCons(first, rest);
        NothingInline(net, addr);
      }
    }
  }

  lemma ConsInline(net: AddrText, first: string, rest: seq<string>, addr: Addr)
    requires LawfulText(net)
    ensures InlineDenotes(net, [first] + rest, addr) <==>
            EntryDenotes(net, first, addr) || InlineDenotes(net, rest, addr)
  {
    hide LawfulText, EntryDenotes;
    var inline := [first] + rest;
    assert forall entry :: entry in inline <==> entry == first || entry in rest;
  }

  lemma JoinCons(first: string, rest: seq<string>)
    ensures JoinLines([first] + rest) == if rest == [] then first else first + ['\n'] + JoinLines(rest)
  {
    assert ([first] + rest)[1..] == rest;
  }

  lemma NothingInline(net: AddrText, addr: Addr)
    requires LawfulText(net)
    ensures !InlineDenotes(net, [], addr) && !EntryDenotes(net, "", addr) && JoinLines([]) == ""
  {
  }

  lemma EmptyDenotesNothing(net: AddrText, addr: Addr)
    requires LawfulText(net)
    ensures !Denotes(net, "", addr)
  {
  }

  ghost predicate InputDenotes(net: AddrText, input: Option<Input>, addr: Addr)
    requires LawfulText(net)
  {
    input.Some? && input.value.text.Some? && SomeLineDenotes(net, RawLines(input.value.text.value), addr)
  }

  /**
   * For an index of all lines of a load, an address is listed exactly when a line of a configured
   * entry, of the file or of the URL's text denotes it or a prefix that contains it.
   */
  lemma LoadedListAnswers(net: AddrText, inline: seq<string>, file: Option<Input>, url: Option<Input>,
                          list: IpAllowlist, addr: Addr)
    requires LawfulText(net) && Indexes(list, EntriesOf(net, AllLines(inline, file, url)))
    ensures ValidList(list)
    ensures Listed(list, addr) <==>
            InlineDenotes(net, inline, addr) || InputDenotes(net, file, addr) || InputDenotes(net, url, addr)
  {
    hide LawfulText, Indexes, EntriesOf, Denotes, ScannedLines, RawLines, JoinLines, Listed;
    var lines := AllLines(inline, file, url);
    IndexAgreement(net, lines, list, addr);
    BlankSourceDenotesNothing(net, JoinLines(inline), addr);
    JoinedEntriesDenote(net, inline, addr);
    InputLinesDenote(net, file, addr);
    InputLinesDenote(net, url, addr);
    assert forall line :: line in lines <==>
      line in ScannedLines(JoinLines(inline)) || line in InputLines(file) || line in InputLines(url);
  }

  lemma InputLinesDenote(net: AddrText, input: Option<Input>, addr: Addr)
    requires LawfulText(net)
    ensures SomeLineDenotes(net, InputLines(input), addr) <==> InputDenotes(net, input, addr)
  {
    hide LawfulText, Denotes, ScannedLines, RawLines;
    if input.Some? && input.value.text.Some? {
      BlankSourceDenotesNothing(net, input.value.text.value, addr);
    }
  }

  /** The entry count is the number of distinct addresses plus the number of distinct masked prefixes. */
  lemma EntriesAccountFor(list: IpAllowlist, held: set<Entry>)
    requires Indexes(list, held)
    ensures list.entries == |list.exactIPs| + |list.prefixes|
  {
    var exact := set e | e in held && e.Exact?;
    var blocks := held - exact;
    assert held == exact + blocks;
    assert exact == set addr | addr in list.exactIPs :: Exact(addr);
    ExactCount(list.exactIPs, exact);
    BlockCount(list.prefixes, blocks);
  }

  lemma {:induction false} ExactCount(addrs: set<Addr>, exact: set<Entry>)
    requires exact == set addr | addr in addrs :: Exact(addr)
    ensures |exact| == |addrs|
    decreases addrs
  {
    if addrs != {} {
      var addr :| addr in addrs;
      var fewer := addrs - {addr};
      assert Exact(addr) in exact;
      assert exact - {Exact(addr)} == set a | a in fewer :: Exact(a);
      ExactCount(fewer, exact - {Exact(addr)});
    }
  }

  lemma {:induction false} BlockCount(prefixes: seq<Prefix>, blocks: set<Entry>)
    requires forall p :: p in prefixes <==> Block(p) in blocks
    requires forall e :: e in blocks ==> e.Block?
    requires forall i, j :: 0 <= i < j < |prefixes| ==> prefixes[i] != prefixes[j]
    ensures |blocks| == |prefixes|
    decreases |prefixes|
  {
    assert forall e :: e in blocks ==> e.prefix in prefixes;
    if prefixes == [] {
      assert blocks == {};
    } else {
      var last, front := prefixes[|prefixes| - 1], prefixes[..|prefixes| - 1];
      assert prefixes == front + [last] && last !in front;
      BlockCount(front, blocks - {Block(last)});
      assert blocks == (blocks - {Block(last)}) + {Block(last)};
    }
  }

  /** Order and repetition of lines do not matter: the same set of lines gives the same index. */
  lemma OrderAndRepetitionIrrelevant(net: AddrText, lines: seq<string>, others: seq<string>)
    requires LawfulText(net) && forall line :: line in lines <==> line in others
    ensures EntriesOf(net, lines) == EntriesOf(net, others)
  {
    hide LineOf, LawfulText;
    SameLinesSameEntries(net, lines, others);
    SameLinesSameEntries(net, others, lines);
  }

  lemma SameLinesSameEntries(net: AddrText, lines: seq<string>, others: seq<string>)
    requires LawfulText(net) && forall line :: line in lines ==> line in others
    ensures EntriesOf(net, lines) <= EntriesOf(net, others)
  {
    hide LineOf, LawfulText;
    forall e | e in EntriesOf(net, lines)
      ensures e in EntriesOf(net, others)
    {
      var i :| 0 <= i < |lines| && LineOf(net, lines[i]).Parsed? && LineOf(net, lines[i]).entry == e;
      assert lines[i] in others;
      var j :| 0 <= j < |others| && others[j] == lines[i];
    }
  }

  /** Two indexes of the same entries list the same addresses and count the same. */
  lemma SameEntriesSameIndex(a: IpAllowlist, b: IpAllowlist, held: set<Entry>)
    requires Indexes(a, held) && Indexes(b, held)
    ensures a.exactIPs == b.exactIPs && a.entries == b.entries && |a.prefixes| == |b.prefixes|
    ensures forall p :: p in a.prefixes <==> p in b.prefixes
  {
    EntriesAccountFor(a, held);
    EntriesAccountFor(b, held);
  }
}
