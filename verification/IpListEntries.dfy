/**
 * Configured entries: Validate reads an entry as one line, the loader reads its lines. What the
 * two readings have to do with each other.
 */
module IpListEntries {
  import opened Bytes
  import opened Wrappers
  import opened Netip
  import opened Text
  import opened IpList
  import opened IpListLookup

  lemma ContentParts(front: string, rest: string)
    requires '#' !in front
    ensures Content(front + ['#'] + rest) == TrimSpace(front) == Content(front)
  {
    IndexOfSplit(front, '#', rest);
    assert (front + ['#'] + rest)[..|front|] == front && front[..|front|] == front;
  }

  /** A text that parses as an address when it stands alone on a line. */
  predicate AddressLine(net: AddrText, text: string, addr: Addr) {
    && net.parseAddr(text) == Some(addr) && TrimSpace(text) == text != ""
    && '#' !in text && '/' !in text && '\n' !in text
  }

  /**
   * An entry with one may not: of an address, a comment, a line feed and a second address,
   * Validate reads the first address only, and the loader lists the second one, too.
   */
  lemma EntryWithLineFeed(net: AddrText, read: string, comment: string, listed: string, first: Addr, second: Addr)
    requires LawfulText(net) && first != second && '\n' !in comment
    requires AddressLine(net, read, first) && AddressLine(net, listed, second)
    ensures var entry := read + ['#'] + comment + ['\n'] + listed;
            && ParseAllowlistEntry(net, entry) == Parsed(Exact(first)) && !Denotes(net, entry, second)
            && EntryDenotes(net, entry, first) && EntryDenotes(net, entry, second)
  {
    hide TrimSpace, RawLines, IndexOf, Content, ParseAllowlistEntry, LawfulText;
    var entry, line := read + ['#'] + comment + ['\n'] + listed, read + ['#'] + comment;
    assert entry == read + ['#'] + (comment + ['\n'] + listed);
    ContentParts(read, comment + ['\n'] + listed);
    ContentParts(read, comment);
    ContentParts(listed, "");
    ParseReadsContent(net, entry);
    ParsedDenotes(net, entry, first);
    assert Denotes(net, entry, first) && Denotes(net, line, first) && Denotes(net, listed, second);
    RawLinesOfSplit(line, listed);
    RawLinesOfSplit(listed, "");
    assert line in RawLines(entry) && listed in RawLines(entry);
  }

  // ---------------------------------------------------------------------------------
  // Blank lines and comments
  // ---------------------------------------------------------------------------------

  predicate Blank(s: string) {
    forall c :: c in s ==> IsSpace(c)
  }

  lemma {:induction false} BlankTrims(s: string)
    ensures Blank(s) <==> TrimSpace(s) == ""
    ensures Blank(s) <==> TrimLeft(s) == ""
    ensures Blank(s) <==> TrimRight(s) == ""
  {
    BlankExactlyWhenSpaces(s);
    BlankRight(s);
    BlankLeft(s);
  }

  lemma {:induction false} BlankLeft(s: string)
    ensures Blank(s) <==> TrimLeft(s) == ""
  {
    if s != "" && IsSpace(s[0]) {
      BlankLeft(s[1..]);
      assert s == [s[0]] + s[1..];
    }
  }

  /** Trimming two lines: a blank one goes; if neither is blank, the line feed between them stays. */
  lemma TrimTwoLines(front: string, back: string)
    ensures Blank(front) ==> TrimSpace(front + ['\n'] + back) == TrimSpace(back)
    ensures Blank(back) ==> TrimSpace(front + ['\n'] + back) == TrimSpace(front)
    ensures !Blank(front) && !Blank(back) ==> '\n' in TrimSpace(front + ['\n'] + back)
  {
    hide Blank;
    var tail := ['\n'] + back;
    assert front + ['\n'] + back == front + tail;
    BlankTrims(front);
    BlankTrims(back);
    TrimLeftFacts(front, tail);
    BlankTail(back);
    if TrimLeft(front) == "" {
      assert TrimLeft(tail) == TrimLeft(back);
    } else {
      TrimRightFacts(TrimLeft(front), tail);
      if TrimRight(back) != "" {
        assert TrimSpace(front + tail) == TrimLeft(front) + (['\n'] + TrimRight(back));
      }
    }
    if TrimRight(back) == "" && TrimLeft(front) == "" {
      assert TrimSpace(back) == "" == TrimSpace(front);
    }
  }

  lemma BlankTail(back: string)
    ensures TrimLeft(['\n'] + back) == TrimLeft(back)
    ensures TrimRight(['\n'] + back) == if TrimRight(back) == "" then "" else ['\n'] + TrimRight(back)
  {
    assert (['\n'] + back)[1..] == back;
    TrimRightFacts(['\n'], back);
    assert TrimRight(['\n']) == TrimRight("");
  }

  /** The lines of a blank text denote nothing. */
  lemma BlankDenotesNothing(net: AddrText, s: string, addr: Addr)
    requires LawfulText(net) && Blank(s)
    ensures !EntryDenotes(net, s, addr)
  {
    hide LawfulText, RawLines;
    forall line | line in RawLines(s)
      ensures !Denotes(net, line, addr)
    {
      forall c | c in line[..IndexOf(line, '#')]
        ensures IsSpace(c)
      {
        LineCharsFromContent(s, line, c);
      }
      BlankTrims(line[..IndexOf(line, '#')]);
    }
  }

  /** A text without comments whose trimmed form is one line denotes what that line does. */
  lemma {:induction false} FramedLine(net: AddrText, text: string, addr: Addr)
    requires LawfulText(net) && '#' !in text && '\n' !in TrimSpace(text)
    ensures EntryDenotes(net, text, addr) <==> Denotes(net, text, addr)
    decreases |text|
  {
    hide LawfulText, RawLines, TrimSpace, Blank, EntryDenotes;
    var i := IndexOf(text, '\n');
    if i == |text| {
      OneLineEntry(net, text, addr);
    } else {
      var front, back := text[..i], text[i + 1..];
      assert text == front + ['\n'] + back;
      JoinedEntryDenotes(net, front, back, addr);
      TrimTwoLines(front, back);
      SameContent(net, text, addr);
      SameContent(net, front, addr);
      SameContent(net, back, addr);
      if Blank(front) {
        BlankDenotesNothing(net, front, addr);
        FramedLine(net, back, addr);
      } else {
        assert Blank(back);
        BlankDenotesNothing(net, back, addr);
        OneLineEntry(net, front, addr);
      }
    }
  }

  /** Without comments a line says its trimmed text. */
  lemma SameContent(net: AddrText, text: string, addr: Addr)
    requires LawfulText(net) && '#' !in text
    ensures Content(text) == TrimSpace(text)
  {
    assert IndexOf(text, '#') == |text| && text[..|text|] == text;
  }

  lemma JoinedEntryDenotes(net: AddrText, first: string, rest: string, addr: Addr)
    requires LawfulText(net)
    ensures EntryDenotes(net, first + ['\n'] + rest, addr) <==>
            EntryDenotes(net, first, addr) || EntryDenotes(net, rest, addr)
  {
    hide LawfulText, RawLines, SomeLineDenotes;
    JoinedLinesDenote(net, first, rest, addr);
  }

  lemma OneLineEntry(net: AddrText, entry: string, addr: Addr)
    requires LawfulText(net) && '\n' !in entry
    ensures EntryDenotes(net, entry, addr) <==> Denotes(net, entry, addr)
  {
    hide LawfulText, RawLines, Denotes;
    RawLinesOfSplit(entry, "");
    EmptyDenotesNothing(net, addr);
  }

  /** A comment on the last line says nothing. */
  lemma {:induction false} CommentSaysNothing(net: AddrText, text: string, comment: string, addr: Addr)
    requires LawfulText(net) && '#' !in text && '\n' !in comment
    ensures EntryDenotes(net, text + ['#'] + comment, addr) <==> EntryDenotes(net, text, addr)
    decreases |text|
  {
    hide LawfulText, RawLines, Content, EntryDenotes;
    var i := IndexOf(text, '\n');
    if i == |text| {
      OneLineEntry(net, text, addr);
      OneLineEntry(net, text + ['#'] + comment, addr);
      ContentParts(text, comment);
    } else {
      var front, back := text[..i], text[i + 1..];
      assert text == front + ['\n'] + back;
      assert text + ['#'] + comment == front + ['\n'] + (back + ['#'] + comment);
      JoinedEntryDenotes(net, front, back, addr);
      JoinedEntryDenotes(net, front, back + ['#'] + comment, addr);
      CommentSaysNothing(net, back, comment, addr);
    }
  }

  /** White space around a line says nothing. */
  lemma SpaceSaysNothing(net: AddrText, left: string, raw: string, right: string, addr: Addr)
    requires LawfulText(net) && AllWhite(left) && AllWhite(right)
    ensures Denotes(net, left + raw + right, addr) <==> Denotes(net, raw, addr)
  {
    ContentInSpace(left, raw, right);
    hide Content, LawfulText;
  }

  lemma ContentInSpace(left: string, raw: string, right: string)
    requires AllWhite(left) && AllWhite(right)
    ensures Content(left + raw + right) == Content(raw)
  {
    hide TrimSpace, IndexOf, AllWhite, Content;
    var front, comment, more := EntryStart(raw);
    NoMarkInSpace(left);
    NoMarkInSpace(right);
    if more {
      assert left + raw + right == (left + front) + ['#'] + (comment + right);
      ContentParts(left + front, comment + right);
      ContentParts(front, comment);
      NothingIsWhite();
      TrimInSpace(left, front, "");
      assert left + front + "" == left + front;
    } else {
      ContentParts(left + raw + right, "");
      ContentParts(raw, "");
      TrimInSpace(left, raw, right);
    }
  }

  lemma EntryStart(raw: string) returns (front: string, comment: string, more: bool)
    ensures '#' !in front
    ensures raw == if more then front + ['#'] + comment else front
  {
    CutAt(raw, '#');
    var h := IndexOf(raw, '#');
    more := h < |raw|;
    front, comment := raw[..h], if more then raw[h + 1..] else "";
  }

  lemma NoMarkInSpace(s: string)
    requires AllWhite(s)
    ensures '#' !in s
  {
    SpacesExactly('#');
  }

  lemma TrimInSpace(left: string, s: string, right: string)
    requires AllWhite(left) && AllWhite(right)
    ensures TrimSpace(left + s + right) == TrimSpace(s)
  {
    hide IsSpace, AllWhite;
    WhiteIsBlank(left);
    WhiteIsBlank(right);
    assert left + s + right == left + (s + right);
    TrimLeftFacts(left, s + right);
    TrimLeftFacts(s, right);
    if TrimLeft(s) == "" {
      assert TrimLeft(s + right) == TrimLeft(right);
    } else {
      TrimRightFacts(TrimLeft(s), right);
    }
  }

  // ---------------------------------------------------------------------------------
  // The two readings of an entry
  // ---------------------------------------------------------------------------------

  /** The text after the first line feed that follows the first '#'. */
  function Behind(entry: string): string {
    var comment := entry[IndexOf(entry, '#')..];
    var i := IndexOf(comment, '\n');
    if i < |comment| then comment[i + 1..] else ""
  }

  lemma BehindComment(text: string, comment: string, back: string)
    requires '#' !in text && '\n' !in comment
    ensures Behind(text + ['#'] + comment + ['\n'] + back) == back
    ensures Behind(text + ['#'] + comment) == "" == Behind(text)
  {
    var line := ['#'] + comment;
    IndexOfSplit(text, '#', comment);
    IndexOfSplit(text, '#', comment + ['\n'] + back);
    IndexOfSplit(line, '\n', back);
    assert text + ['#'] + comment + ['\n'] + back == text + ['#'] + (comment + ['\n'] + back);
    assert (text + ['#'] + comment + ['\n'] + back)[|text|..] == line + ['\n'] + back;
    assert (text + ['#'] + comment)[|text|..] == line;
    assert (line + ['\n'] + back)[|line| + 1..] == back;
  }

  lemma CutAt(s: string, mark: char)
    ensures var i := IndexOf(s, mark);
            && mark !in s[..i]
            && s == if i < |s| then s[..i] + [mark] + s[i + 1..] else s[..i]
  {
  }

  /** An entry is a text without comment, or one with a comment, and lines behind that, if any. */
  lemma EntryParts(entry: string) returns (text: string, comment: string, back: string)
    ensures '#' !in text && '\n' !in comment
    ensures entry == text || entry == text + ['#'] + comment || entry == text + ['#'] + comment + ['\n'] + back
  {
    hide IndexOf;
    CutAt(entry, '#');
    var h := IndexOf(entry, '#');
    if h == |entry| {
      return entry[..h], "", "";
    }
    var rest := entry[h + 1..];
    CutAt(rest, '\n');
    var i := IndexOf(rest, '\n');
    text, comment, back := entry[..h], rest[..i], if i < |rest| then rest[i + 1..] else "";
    Regrouped(text, comment, back);
  }

  lemma Regrouped(text: string, comment: string, back: string)
    ensures text + ['#'] + (comment + ['\n'] + back) == text + ['#'] + comment + ['\n'] + back
  {
  }

  /** The loader lists what Validate has read, and what the lines behind the comment denote. */
  lemma EntryReading(net: AddrText, entry: string, addr: Addr)
    requires LawfulText(net) && '\n' !in Content(entry)
    ensures EntryDenotes(net, entry, addr) <==> Denotes(net, entry, addr) || EntryDenotes(net, Behind(entry), addr)
  {
    hide LawfulText, EntryDenotes, TrimSpace, Behind, IndexOf, Content;
    var text, comment, back := EntryParts(entry);
    SameContent(net, text, addr);
    ContentParts(text, comment);
    ContentParts(text, comment + ['\n'] + back);
    Regrouped(text, comment, back);
    BehindComment(text, comment, back);
    FramedLine(net, text, addr);
    CommentSaysNothing(net, text, comment, addr);
    JoinedEntryDenotes(net, text + ['#'] + comment, back, addr);
    NoTextDenotesNothing(net, addr);
  }

  lemma NoTextDenotesNothing(net: AddrText, addr: Addr)
    requires LawfulText(net)
    ensures !EntryDenotes(net, "", addr)
  {
    NothingInline(net, addr);
  }

  /** What Validate reads of an entry with a line feed in it is an address no line can denote. */
  lemma LineFeedReadsZone(net: AddrText, entry: string) returns (addr: Addr)
    requires LawfulText(net) && '\n' in Content(entry) && !ParseAllowlistEntry(net, entry).Bad?
    ensures Denotes(net, entry, addr) && !EntryDenotes(net, entry, addr)
  {
    hide RawLines, TrimSpace, ParseAllowlistEntry, IndexOf;
    ParseReadsContent(net, entry);
    addr := net.parseAddr(Content(entry)).value;
    LinesMakeUpContent(entry);
    forall line | line in RawLines(entry)
      ensures !Denotes(net, line, addr)
    {
      TrimKeepsMembers(line[..IndexOf(line, '#')], '\n');
    }
  }

  /** The loader lists exactly what Validate has read in the entry. */
  ghost predicate ReadingsAgree(net: AddrText, entry: string)
    requires LawfulText(net)
  {
    forall addr :: EntryDenotes(net, entry, addr) <==> Denotes(net, entry, addr)
  }

  /**
   * For an entry Validate accepts, the two readings agree exactly if what it reads holds no line
   * feed and covers whatever the lines behind its first comment denote.
   */
  lemma ReadingsAgreeExactly(net: AddrText, entry: string)
    requires LawfulText(net) && !ParseAllowlistEntry(net, entry).Bad?
    ensures ReadingsAgree(net, entry) <==>
            && '\n' !in Content(entry)
            && forall addr :: EntryDenotes(net, Behind(entry), addr) ==> Denotes(net, entry, addr)
  {
    hide LawfulText, EntryDenotes, Denotes, Content, ParseAllowlistEntry, Behind;
    if '\n' in Content(entry) {
      var addr := LineFeedReadsZone(net, entry);
      assert !(EntryDenotes(net, entry, addr) <==> Denotes(net, entry, addr));
    } else {
      forall addr
        ensures EntryDenotes(net, entry, addr) <==> Denotes(net, entry, addr) || EntryDenotes(net, Behind(entry), addr)
      {
        EntryReading(net, entry, addr);
      }
    }
  }

  /** In particular they agree on every entry that is one line. */
  lemma OneLineReadingsAgree(net: AddrText, entry: string)
    requires LawfulText(net) && '\n' !in entry
    ensures ReadingsAgree(net, entry)
  {
    hide LawfulText, EntryDenotes, Denotes;
    forall addr
      ensures EntryDenotes(net, entry, addr) <==> Denotes(net, entry, addr)
    {
      OneLineEntry(net, entry, addr);
    }
  }
}
