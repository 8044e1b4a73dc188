/** The parts of packages strings and bufio that the list loader and the verify gate use. */
module Text {
  import opened Bytes

  /** unicode.IsSpace. */
  predicate IsSpace(c: char) {
    var n := c as int;
    9 <= n <= 13 || n == 0x20 || n == 0x85 || n == 0xA0 || n == 0x1680 || 0x2000 <= n <= 0x200A
    || n == 0x2028 || n == 0x2029 || n == 0x202F || n == 0x205F || n == 0x3000
  }

  function TrimLeft(s: string): string {
    if s != "" && IsSpace(s[0]) then TrimLeft(s[1..]) else s
  }

  function TrimRight(s: string): string {
    if s != "" && IsSpace(s[|s| - 1]) then TrimRight(s[..|s| - 1]) else s
  }

  function TrimSpace(s: string): string {
    TrimRight(TrimLeft(s))
  }

  /** Length of the UTF-8 encoding. */
  function ByteLen(s: string): nat {
    if s == "" then 0
    else
      var n := s[0] as int;
      (if n < 0x80 then 1 else if n < 0x800 then 2 else if n < 0x1_0000 then 3 else 4) + ByteLen(s[1..])
  }

  /** bufio.Scanner gives up on a line that does not fit into its buffer. */
  const MAX_SCAN_TOKEN_SIZE: nat := 65536

  predicate TooLong(rawLine: string) {
    ByteLen(rawLine) >= MAX_SCAN_TOKEN_SIZE
  }

  /** The pieces between line feeds; a line feed at the end starts no further line. */
  function RawLines(content: string): seq<string>
    decreases |content|
  {
    if content == "" then []
    else
      var i := IndexOf(content, '\n');
      if i == |content| then [content] else [content[..i]] + RawLines(content[i + 1..])
  }

  function DropCR(rawLine: string): (line: string)
    ensures if rawLine != "" && rawLine[|rawLine| - 1] == '\r' then rawLine == line + ['\r'] else rawLine == line
  {
    if rawLine != "" && rawLine[|rawLine| - 1] == '\r' then rawLine[..|rawLine| - 1] else rawLine
  }

  lemma RawLinesOfSplit(front: string, rest: string)
    requires '\n' !in front
    ensures RawLines(front + ['\n'] + rest) == [front] + RawLines(rest)
    ensures RawLines(front) == if front == "" then [] else [front]
  {
    var content := front + ['\n'] + rest;
    IndexOfSplit(front, '\n', rest);
    assert content[..|front|] == front && content[|front| + 1..] == rest;
  }

  /** The lines, each followed by a line feed. */
  function Terminated(lines: seq<string>): string {
    if lines == [] then "" else lines[0] + "\n" + Terminated(lines[1..])
  }

  lemma TerminatedCons(line: string, lines: seq<string>)
    ensures Terminated([line] + lines) == line + "\n" + Terminated(lines)
    ensures Terminated([line]) == line + "\n"
  {
    assert ([line] + lines)[1..] == lines && [line][1..] == [];
  }

  /** The lines are the content cut at its line feeds; only a last one may be missing its own. */
  lemma {:induction false} LinesMakeUpContent(content: string)
    ensures Terminated(RawLines(content)) ==
            content + if content == "" || content[|content| - 1] == '\n' then "" else "\n"
    ensures forall line :: line in RawLines(content) ==> '\n' !in line
    decreases |content|
  {
    hide RawLines, Terminated, IndexOf;
    var i := IndexOf(content, '\n');
    if i == |content| {
      assert content[..i] == content;
      OneLine(content);
    } else {
      var front, rest := content[..i], content[i + 1..];
      assert content == front + ['\n'] + rest;
      LinesMakeUpContent(rest);
      RawLinesOfSplit(front, rest);
      TerminatedCons(front, RawLines(rest));
      SplitEnd(front, rest);
    }
  }

  lemma OneLine(content: string)
    requires '\n' !in content
    ensures Terminated(RawLines(content)) == if content == "" then "" else content + "\n"
    ensures forall line :: line in RawLines(content) ==> line == content
    ensures content != "" ==> content[|content| - 1] != '\n'
  {
    RawLinesOfSplit(content, "");
    TerminatedCons(content, []);
  }

  /** The line feed missing at the end is the one missing behind the last split. */
  lemma SplitEnd(front: string, rest: string)
    ensures var content := front + ['\n'] + rest;
            front + "\n" + (rest + if rest == "" || rest[|rest| - 1] == '\n' then "" else "\n") ==
            content + if content[|content| - 1] == '\n' then "" else "\n"
  {
    var content := front + ['\n'] + rest;
    assert rest != [] ==> content[|content| - 1] == rest[|rest| - 1];
  }

  // ---------------------------------------------------------------------------------
  // Trimming
  // ---------------------------------------------------------------------------------

  lemma {:induction false} TrimLeftFacts(s: string, rest: string)
    ensures TrimLeft(TrimLeft(s)) == TrimLeft(s)
    ensures TrimLeft(s) != "" ==> TrimLeft(s + rest) == TrimLeft(s) + rest
    ensures TrimLeft(s) == "" ==> TrimLeft(s + rest) == TrimLeft(rest)
    ensures forall c :: c in s && !IsSpace(c) ==> c in TrimLeft(s)
    ensures forall c :: c in TrimLeft(s) ==> c in s
    ensures TrimLeft(s) != "" ==> !IsSpace(TrimLeft(s)[0])
  {
    if s != "" && IsSpace(s[0]) {
      TrimLeftFacts(s[1..], rest);
      assert (s + rest)[1..] == s[1..] + rest;
    } else if s == "" {
      assert "" + rest == rest;
    }
  }

  lemma {:induction false} TrimRightFacts(front: string, s: string)
    ensures TrimRight(TrimRight(s)) == TrimRight(s)
    ensures TrimRight(s) != "" ==> TrimRight(front + s) == front + TrimRight(s)
    ensures TrimRight(s) == "" ==> TrimRight(front + s) == TrimRight(front)
    ensures TrimRight(s) <= s
  {
    if s != "" && IsSpace(s[|s| - 1]) {
      TrimRightFacts(front, s[..|s| - 1]);
      assert (front + s)[..|front + s| - 1] == front + s[..|s| - 1];
    } else if s == "" {
      assert front + "" == front;
    }
  }

  lemma TrimKeepsMembers(s: string, c: char)
    ensures c in TrimSpace(s) ==> c in s
  {
    hide TrimLeft, TrimRight;
    TrimLeftFacts(s, "");
    TrimRightFacts("", TrimLeft(s));
  }

  lemma TrimLeftOfMark(s: string)
    requires s != "" && !IsSpace(s[0])
    ensures TrimLeft(s) == s
  {
  }

  /** A mark that is no space splits the trimming: the front is trimmed on its left only. */
  lemma TrimAroundMark(front: string, mark: char, rest: string) returns (tail: string)
    requires !IsSpace(mark)
    ensures TrimSpace(front + ([mark] + rest)) == TrimLeft(front) + [mark] + tail
  {
    hide TrimRight, TrimLeft;
    var back := [mark] + rest;
    TrimLeftFacts(front, back);
    assert TrimLeft(back) == back by { TrimLeftOfMark(back); }
    TrimRightMark(mark, rest);
    TrimRightFacts(TrimLeft(front), back);
    tail := TrimRight(back)[1..];
    assert TrimRight(back) == [mark] + tail;
  }

  /** Cutting a trimmed text at a mark that is no space, and trimming, is cutting the text itself. */
  lemma CutTrimmed(s: string, mark: char)
    requires !IsSpace(mark)
    ensures var line := TrimSpace(s);
            && (mark in line <==> mark in s)
            && TrimSpace(line[..IndexOf(line, mark)]) == TrimSpace(s[..IndexOf(s, mark)])
            && (mark !in s ==> TrimSpace(s[..IndexOf(s, mark)]) == line)
  {
    hide TrimLeft, TrimRight, IndexOf;
    var i := IndexOf(s, mark);
    var line := TrimSpace(s);
    if i == |s| {
      assert s[..i] == s;
      TrimKeepsMembers(s, mark);
      assert IndexOf(line, mark) == |line|;
      assert line[..|line|] == line;
      TrimTwice(s);
    } else {
      var front, rest := s[..i], s[i + 1..];
      assert s == front + ([mark] + rest);
      var tail := TrimAroundMark(front, mark, rest);
      var cut := TrimLeft(front);
      TrimLeftFacts(front, "");
      IndexOfSplit(cut, mark, tail);
      assert line[..|cut|] == cut;
      assert line[|cut|] == mark;
    }
  }

  lemma TrimTwice(s: string)
    ensures TrimSpace(TrimSpace(s)) == TrimSpace(s)
  {
    var left := TrimLeft(s);
    TrimLeftFacts(s, "");
    TrimRightFacts("", left);
    var line := TrimRight(left);
    if line != "" {
      assert line[0] == left[0];
    }
  }

  lemma {:induction false} TrimRightMark(mark: char, rest: string)
    requires !IsSpace(mark)
    ensures var tail := TrimRight([mark] + rest); tail != "" && tail[0] == mark
    decreases |rest|
  {
    var s := [mark] + rest;
    if rest != "" && IsSpace(s[|s| - 1]) {
      TrimRightMark(mark, rest[..|rest| - 1]);
      assert s[..|s| - 1] == [mark] + rest[..|rest| - 1];
    }
  }

  /** Only white space is trimmed away entirely. */
  lemma {:induction false} BlankExactlyWhenSpaces(s: string)
    ensures TrimSpace(s) == "" <==> forall c :: c in s ==> IsSpace(c)
  {
    TrimLeftFacts(s, "");
    var left := TrimLeft(s);
    BlankRight(left);
    if left != "" {
      assert left[0] in left;
    }
  }

  lemma {:induction false} BlankRight(s: string)
    ensures TrimRight(s) == "" <==> forall c :: c in s ==> IsSpace(c)
  {
    if s != "" {
      assert s[|s| - 1] in s;
      if IsSpace(s[|s| - 1]) {
        BlankRight(s[..|s| - 1]);
        assert s == s[..|s| - 1] + [s[|s| - 1]];
      }
    }
  }

  // ---------------------------------------------------------------------------------
  // White space, exactly
  // ---------------------------------------------------------------------------------

  /** The characters with the property White_Space in Unicode. */
  const WHITE_SPACE: string := "\t\n\U{B}\U{C}\r \U{85}\U{A0}\U{1680}" +
    "\U{2000}\U{2001}\U{2002}\U{2003}\U{2004}\U{2005}\U{2006}\U{2007}\U{2008}\U{2009}\U{200A}" +
    "\U{2028}\U{2029}\U{202F}\U{205F}\U{3000}"

  lemma SpacesExactly(c: char)
    ensures IsSpace(c) <==> c in WHITE_SPACE
  {
  }

  ghost predicate AllWhite(s: string) {
    forall c :: c in s ==> c in WHITE_SPACE
  }

  lemma NothingIsWhite()
    ensures AllWhite("")
  {
  }

  lemma WhiteIsBlank(s: string)
    requires AllWhite(s)
    ensures TrimSpace(s) == "" && TrimRight(s) == "" && TrimLeft(s) == ""
  {
    hide IsSpace;
    forall c | c in s
      ensures IsSpace(c)
    {
      SpacesExactly(c);
    }
    BlankExactlyWhenSpaces(s);
    BlankRight(s);
    TrimLeftFacts(s, "");
  }

  /** Trimming takes the white space at both ends away, all of it and nothing else. */
  lemma TrimSpaceExactly(left: string, middle: string, right: string)
    requires AllWhite(left) && AllWhite(right)
    requires middle == "" || (middle[0] !in WHITE_SPACE && middle[|middle| - 1] !in WHITE_SPACE)
    ensures TrimSpace(left + middle + right) == middle
  {
    hide IsSpace, AllWhite;
    WhiteIsBlank(left);
    WhiteIsBlank(right);
    assert left + middle + right == left + (middle + right);
    TrimLeftFacts(left, middle + right);
    if middle == "" {
      assert middle + right == right;
    } else {
      SpacesExactly(middle[0]);
      SpacesExactly(middle[|middle| - 1]);
      assert TrimLeft(middle + right) == middle + right;
      TrimRightFacts(middle, right);
      assert TrimRight(middle) == middle;
    }
  }
}
