/** loadIPList: from source texts to an index of what their lines denote. */
module IpListLoad {
  import opened Wrappers
  import opened Netip
  import opened Text
  import opened IpList

  datatype LoadError =
    | BadEntry(source: string, lineNo: nat, raw: string)
    | LineTooLong(source: string)
    | Unreadable(source: string)

  // ---------------------------------------------------------------------------------
  // What the lines of a source amount to
  // ---------------------------------------------------------------------------------

  /** The scanned lines of a source; one that is all white space is not scanned at all. */
  function ScannedLines(content: string): seq<string> {
    if TrimSpace(content) == "" then [] else RawLines(content)
  }

  function LineOf(net: AddrText, rawLine: string): Line
    requires LawfulText(net)
  {
    ParseAllowlistEntry(net, DropCR(rawLine))
  }

  predicate Good(net: AddrText, rawLine: string)
    requires LawfulText(net)
  {
    !TooLong(rawLine) && !LineOf(net, rawLine).Bad?
  }

  /** The entries the lines denote, each counted once however often it is written. */
  function EntriesOf(net: AddrText, lines: seq<string>): set<Entry>
    requires LawfulText(net)
  {
    set i | 0 <= i < |lines| && LineOf(net, lines[i]).Parsed? :: LineOf(net, lines[i]).entry
  }

  /** The first line that stops the scan, if any. */
  function FirstError(net: AddrText, source: string, lines: seq<string>, lineNo: nat): Option<LoadError>
    requires LawfulText(net)
  {
    if lines == [] then None
    else if TooLong(lines[0]) then Some(LineTooLong(source))
    else if LineOf(net, lines[0]).Bad? then Some(BadEntry(source, lineNo, DropCR(lines[0])))
    else FirstError(net, source, lines[1..], lineNo + 1)
  }

  /** A scan goes through exactly when every line is good. */
  lemma {:induction false} NoErrorExactlyWhenGood(net: AddrText, source: string, lines: seq<string>, lineNo: nat)
    requires LawfulText(net)
    ensures FirstError(net, source, lines, lineNo).None? <==> forall i :: 0 <= i < |lines| ==> Good(net, lines[i])
  {
    hide TooLong, LineOf;
    if lines != [] && Good(net, lines[0]) {
      NoErrorExactlyWhenGood(net, source, lines[1..], lineNo + 1);
      assert (forall i :: 0 <= i < |lines| ==> Good(net, lines[i])) <==>
             (forall i :: 0 <= i < |lines[1..]| ==> Good(net, lines[1..][i])) by {
        if forall i :: 0 <= i < |lines[1..]| ==> Good(net, lines[1..][i]) {
          forall i | 0 <= i < |lines|
            ensures Good(net, lines[i])
          {
            if i > 0 {
              assert Good(net, lines[1..][i - 1]);
            }
          }
        }
      }
    }
  }

  /** The error of a scan is that of its first line that is not good, under that line's number. */
  lemma {:induction false} FirstErrorIsFirst(net: AddrText, source: string, lines: seq<string>, lineNo: nat)
    returns (i: nat)
    requires LawfulText(net) && FirstError(net, source, lines, lineNo).Some?
    ensures i < |lines| && !Good(net, lines[i]) && forall k :: 0 <= k < i ==> Good(net, lines[k])
    ensures FirstError(net, source, lines, lineNo).value ==
            if TooLong(lines[i]) then LineTooLong(source) else BadEntry(source, lineNo + i, DropCR(lines[i]))
  {
    hide TooLong, LineOf, DropCR, LawfulText;
    if !Good(net, lines[0]) {
      return 0;
    }
    var rest := FirstErrorIsFirst(net, source, lines[1..], lineNo + 1);
    i := rest + 1;
    forall k | 0 <= k < i
      ensures Good(net, lines[k])
    {
      if k > 0 {
        assert lines[k] == lines[1..][k - 1];
      }
    }
  }

  // ---------------------------------------------------------------------------------
  // The index under construction
  // ---------------------------------------------------------------------------------

  class AllowlistParseResult {
    var exactIPs: set<Addr>
    var prefixes: map<string, Prefix>
    var sources: seq<string>
    var entries: int

    constructor ()
      ensures exactIPs == {} && prefixes == map[] && sources == [] && entries == 0
    {
      exactIPs, prefixes, sources, entries := {}, map[], [], 0;
    }

    /** The index holds exactly these entries, prefixes filed under their text. */
    ghost predicate Holds(net: AddrText, held: set<Entry>)
      reads this
    {
      && (forall addr :: addr in exactIPs <==> Exact(addr) in held)
      && (forall p: Prefix :: Block(p) in held ==>
           net.prefixString(p) in prefixes && prefixes[net.prefixString(p)] == p)
      && (forall key :: key in prefixes ==> Block(prefixes[key]) in held && key == net.prefixString(prefixes[key]))
      && entries == |held|
    }
  }

  /** Two valid prefixes with the same text are the same prefix. */
  lemma PrefixTextIsInjective(net: AddrText, p: Prefix, q: Prefix)
    requires LawfulText(net) && p.Valid() && q.Valid() && net.prefixString(p) == net.prefixString(q)
    ensures p == q
  {
    assert net.parsePrefix(net.prefixString(p)) == Some(p);
  }

  ghost predicate ValidEntries(held: set<Entry>) {
    forall e :: e in held && e.Block? ==> e.prefix.Valid()
  }

  lemma ParsedEntryIsValid(net: AddrText, raw: string)
    requires LawfulText(net)
    ensures ParseAllowlistEntry(net, raw).Parsed? && ParseAllowlistEntry(net, raw).entry.Block? ==>
              ParseAllowlistEntry(net, raw).entry.prefix.Valid()
  {
    ParseReadsContent(net, raw);
  }

  method AddEntry(net: AddrText, result: AllowlistParseResult, entry: Entry, ghost held: set<Entry>)
    requires LawfulText(net) && result.Holds(net, held) && ValidEntries(held + {entry})
    modifies result
    ensures result.Holds(net, held + {entry}) && result.sources == old(result.sources)
  {
    match entry
    case Block(prefix) =>
      var key := net.prefixString(prefix);
      if key !in result.prefixes {
        result.entries := result.entries + 1;
        assert entry !in held;
      } else {
        PrefixTextIsInjective(net, prefix, result.prefixes[key]);
        assert held + {entry} == held;
      }
      forall p: Prefix | Block(p) in held && net.prefixString(p) == key
        ensures p == prefix
      {
        assert Block(p) in held + {entry} && entry in held + {entry};
        PrefixTextIsInjective(net, p, prefix);
      }
      result.prefixes := result.prefixes[key := prefix];
    case Exact(addr) =>
      if addr !in result.exactIPs {
        result.entries := result.entries + 1;
        assert entry !in held;
      } else {
        assert held + {entry} == held;
      }
      result.exactIPs := result.exactIPs + {addr};
  }

  lemma EntriesOfStep(net: AddrText, lines: seq<string>, n: nat)
    requires LawfulText(net) && n < |lines|
    ensures EntriesOf(net, lines[..n + 1]) ==
            EntriesOf(net, lines[..n]) + if LineOf(net, lines[n]).Parsed? then {LineOf(net, lines[n]).entry} else {}
  {
    var fewer, more := lines[..n], lines[..n + 1];
    assert more == fewer + [lines[n]];
    forall e | e in EntriesOf(net, more)
      ensures e in EntriesOf(net, fewer) || (LineOf(net, lines[n]).Parsed? && e == LineOf(net, lines[n]).entry)
    {
      var i :| 0 <= i < |more| && LineOf(net, more[i]).Parsed? && LineOf(net, more[i]).entry == e;
      if i < n {
        assert fewer[i] == more[i];
      }
    }
    forall e | e in EntriesOf(net, fewer)
      ensures e in EntriesOf(net, more)
    {
      var i :| 0 <= i < |fewer| && LineOf(net, fewer[i]).Parsed? && LineOf(net, fewer[i]).entry == e;
      assert more[i] == fewer[i];
    }
    assert more[n] == lines[n];
  }

  lemma EntriesAreValid(net: AddrText, lines: seq<string>)
    requires LawfulText(net)
    ensures ValidEntries(EntriesOf(net, lines))
  {
    forall e | e in EntriesOf(net, lines) && e.Block?
      ensures e.prefix.Valid()
    {
      var i :| 0 <= i < |lines| && LineOf(net, lines[i]).Parsed? && LineOf(net, lines[i]).entry == e;
      ParsedEntryIsValid(net, DropCR(lines[i]));
    }
  }

  lemma {:induction false} FirstErrorSkipsGood(net: AddrText, source: string, lines: seq<string>, n: nat)
    requires LawfulText(net) && n <= |lines| && forall i :: 0 <= i < n ==> Good(net, lines[i])
    ensures FirstError(net, source, lines, 1) == FirstError(net, source, lines[n..], n + 1)
  {
    if n == 0 {
      assert lines[0..] == lines;
    } else {
      FirstErrorSkipsGood(net, source, lines, n - 1);
      assert Good(net, lines[n - 1]);
      assert lines[n - 1..][0] == lines[n - 1] && lines[n - 1..][1..] == lines[n..];
    }
  }

  /** What reading the next line means for the error of the scan and for the entries so far. */
  lemma ScanStep(net: AddrText, source: string, lines: seq<string>, n: nat, held: set<Entry>)
    requires LawfulText(net) && ValidEntries(held) && n < |lines| && forall i :: 0 <= i < n ==> Good(net, lines[i])
    ensures var line, before, after := LineOf(net, lines[n]), held + EntriesOf(net, lines[..n]),
            held + EntriesOf(net, lines[..n + 1]);
            && (TooLong(lines[n]) ==> FirstError(net, source, lines, 1) == Some(LineTooLong(source)))
            && (!TooLong(lines[n]) && line.Bad? ==>
                  FirstError(net, source, lines, 1) == Some(BadEntry(source, n + 1, DropCR(lines[n]))))
            && (line.Skipped? ==> after == before)
            && (line.Parsed? ==> after == before + {line.entry} && ValidEntries(after))
  {
    hide LineOf, TooLong, LawfulText;
    FirstErrorSkipsGood(net, source, lines, n);
    assert lines[n..][0] == lines[n];
    EntriesOfStep(net, lines, n);
    EntriesAreValid(net, lines[..n + 1]);
    if LineOf(net, lines[n]).Skipped? {
      assert held + EntriesOf(net, lines[..n + 1]) == held + EntriesOf(net, lines[..n]);
    }
  }

  lemma ScanEnd(net: AddrText, source: string, lines: seq<string>)
    requires LawfulText(net) && forall i :: 0 <= i < |lines| ==> Good(net, lines[i])
    ensures FirstError(net, source, lines, 1) == None
    ensures EntriesOf(net, []) == {} && lines[..|lines|] == lines && lines[..0] == []
  {
    NoErrorExactlyWhenGood(net, source, lines, 1);
  }

  /**
   * Scans one source into the index. Without an error it then also holds the entries of all
   * its lines; otherwise the error is the one of the first line that is too long or unparsable.
   */
  method ParseAllowlistLines(net: AddrText, result: AllowlistParseResult, source: string, content: string,
                             ghost held: set<Entry>)
    returns (err: Option<LoadError>)
    requires LawfulText(net) && ValidEntries(held) && result.Holds(net, held)
    modifies result
    ensures result.sources == old(result.sources) + [source]
    ensures err == FirstError(net, source, ScannedLines(content), 1)
    ensures err.None? ==> result.Holds(net, held + EntriesOf(net, ScannedLines(content)))
  {
    hide LineOf, TooLong, LawfulText, FirstError, EntriesOf, ValidEntries;
    result.sources := result.sources + [source];
    ScanEnd(net, source, []);
    assert held + {} == held;
    if TrimSpace(content) == "" {
      return None;
    }
    var lines := RawLines(content);
    var n := 0;
    assert lines[..0] == [];
    while n < |lines|
      invariant 0 <= n <= |lines|
      invariant forall i :: 0 <= i < n ==> Good(net, lines[i])
      invariant result.Holds(net, held + EntriesOf(net, lines[..n]))
      invariant result.sources == old(result.sources) + [source]
      decreases |lines| - n
    {
      ScanStep(net, source, lines, n, held);
      if TooLong(lines[n]) {
        return Some(LineTooLong(source));
      }
      match LineOf(net, lines[n]) {
        case Bad =>
          return Some(BadEntry(source, n + 1, DropCR(lines[n])));
        case Skipped =>
        case Parsed(entry) =>
          AddEntry(net, result, entry, held + EntriesOf(net, lines[..n]));
      }
      n := n + 1;
    }
    ScanEnd(net, source, lines);
    return None;
  }

  // ---------------------------------------------------------------------------------
  // Loading from all sources
  // ---------------------------------------------------------------------------------

  /** A configured file or URL: its name, and what reading it yielded, if it could be read. */
  datatype Input = Input(name: string, text: Option<string>)

  datatype IpAllowlist = IpAllowlist(exactIPs: set<Addr>, prefixes: seq<Prefix>, sources: seq<string>, entries: int)

  function JoinLines(inline: seq<string>): string {
    if inline == [] then ""
    else if |inline| == 1 then inline[0]
    else inline[0] + "\n" + JoinLines(inline[1..])
  }

  predicate Readable(input: Option<Input>) {
    input.None? || input.value.text.Some?
  }

  function InputLines(input: Option<Input>): seq<string> {
    if input.Some? && input.value.text.Some? then ScannedLines(input.value.text.value) else []
  }

  /** Every line of every source, in loading order. */
  function AllLines(inline: seq<string>, file: Option<Input>, url: Option<Input>): seq<string> {
    ScannedLines(JoinLines(inline)) + InputLines(file) + InputLines(url)
  }

  function InputError(net: AddrText, prefix: string, input: Option<Input>): Option<LoadError>
    requires LawfulText(net)
  {
    if input.None? then None
    else if input.value.text.None? then Some(Unreadable(prefix + input.value.name))
    else FirstError(net, prefix + input.value.name, InputLines(input), 1)
  }

  /** Sources are loaded in order, and the first failure is the load's failure. */
  function LoadFailure(net: AddrText, kind: string, inline: seq<string>, file: Option<Input>,
                       url: Option<Input>): Option<LoadError>
    requires LawfulText(net)
  {
    var inlineError := FirstError(net, kind + ":inline", ScannedLines(JoinLines(inline)), 1);
    if inlineError.Some? then inlineError
    else
      var fileError := InputError(net, kind + ":file:", file);
      if fileError.Some? then fileError else InputError(net, kind + ":url:", url)
  }

  /** One bad line, too-long line or unreadable source anywhere fails the load, and nothing else does. */
  lemma LoadSucceedsExactlyWhenAllGood(net: AddrText, kind: string, inline: seq<string>, file: Option<Input>,
                                       url: Option<Input>)
    requires LawfulText(net)
    ensures LoadFailure(net, kind, inline, file, url).None? <==>
            && Readable(file) && Readable(url)
            && forall line :: line in AllLines(inline, file, url) ==> Good(net, line)
  {
    hide Good, ScannedLines, FirstError, JoinLines, LawfulText;
    var first, second, third := ScannedLines(JoinLines(inline)), InputLines(file), InputLines(url);
    NoErrorExactlyWhenGood(net, kind + ":inline", first, 1);
    if file.Some? {
      NoErrorExactlyWhenGood(net, kind + ":file:" + file.value.name, second, 1);
    }
    if url.Some? {
      NoErrorExactlyWhenGood(net, kind + ":url:" + url.value.name, third, 1);
    }
    var lines := AllLines(inline, file, url);
    assert forall line :: line in lines <==> line in first || line in second || line in third;
  }

  lemma EntriesOfConcat(net: AddrText, a: seq<string>, b: seq<string>)
    requires LawfulText(net)
    ensures EntriesOf(net, a + b) == EntriesOf(net, a) + EntriesOf(net, b)
  {
    hide LineOf, LawfulText;
    forall e | e in EntriesOf(net, a)
      ensures e in EntriesOf(net, a + b)
    {
      var i :| 0 <= i < |a| && LineOf(net, a[i]).Parsed? && LineOf(net, a[i]).entry == e;
      assert (a + b)[i] == a[i];
    }
    forall e | e in EntriesOf(net, b)
      ensures e in EntriesOf(net, a + b)
    {
      var i :| 0 <= i < |b| && LineOf(net, b[i]).Parsed? && LineOf(net, b[i]).entry == e;
      assert (a + b)[|a| + i] == b[i];
    }
  }

  /** The published index holds exactly these entries, each prefix once. */
  ghost predicate Indexes(list: IpAllowlist, held: set<Entry>) {
    && ValidEntries(held)
    && (forall addr :: addr in list.exactIPs <==> Exact(addr) in held)
    && (forall p :: p in list.prefixes <==> Block(p) in held)
    && (forall i, j :: 0 <= i < j < |list.prefixes| ==> list.prefixes[i] != list.prefixes[j])
    && list.entries == |held|
  }

  /** The prefixes of a map in some order, one per key. */
  method CollectPrefixes(prefixes: map<string, Prefix>) returns (values: seq<Prefix>)
    requires forall k1, k2 :: k1 in prefixes && k2 in prefixes && k1 != k2 ==> prefixes[k1] != prefixes[k2]
    ensures forall p :: p in values <==> p in prefixes.Values
    ensures forall i, j :: 0 <= i < j < |values| ==> values[i] != values[j]
  {
    values := [];
    var unvisited := prefixes.Keys;
    while unvisited != {}
      invariant unvisited <= prefixes.Keys
      invariant forall key :: key in prefixes && key !in unvisited ==> prefixes[key] in values
      invariant forall p :: p in values ==> exists key :: key in prefixes && key !in unvisited && prefixes[key] == p
      invariant forall i, j :: 0 <= i < j < |values| ==> values[i] != values[j]
      decreases unvisited
    {
      var key :| key in unvisited;
      unvisited := unvisited - {key};
      assert prefixes[key] !in values;
      values := values + [prefixes[key]];
    }
  }

  /** Loads one optional source into the index, reporting whatever goes wrong with it. */
  method LoadInput(net: AddrText, result: AllowlistParseResult, prefix: string, input: Option<Input>,
                   ghost held: set<Entry>)
    returns (err: Option<LoadError>)
    requires LawfulText(net) && ValidEntries(held) && result.Holds(net, held)
    modifies result
    ensures err == InputError(net, prefix, input)
    ensures err.None? ==> result.Holds(net, held + EntriesOf(net, InputLines(input)))
    ensures err.None? ==>
              result.sources == old(result.sources) + if input.Some? then [prefix + input.value.name] else []
  {
    assert EntriesOf(net, []) == {} && held + {} == held;
    if input.None? {
      return None;
    }
    if input.value.text.None? {
      return Some(Unreadable(prefix + input.value.name));
    }
    err := ParseAllowlistLines(net, result, prefix + input.value.name, input.value.text.value, held);
  }

  /** What a load of these sources returns: the first failure, or an index of the entries of all lines. */
  ghost predicate IsLoadResult(net: AddrText, kind: string, inline: seq<string>, file: Option<Input>,
                               url: Option<Input>,
                               r: Result<IpAllowlist, LoadError>)
    requires LawfulText(net)
  {
    match r
    case Failure(error) => LoadFailure(net, kind, inline, file, url) == Some(error)
    case Success(list) =>
      && LoadFailure(net, kind, inline, file, url) == None
      && Indexes(list, EntriesOf(net, AllLines(inline, file, url)))
      && list.sources == [kind + ":inline"]
                         + (if file.Some? then [kind + ":file:" + file.value.name] else [])
                         + (if url.Some? then [kind + ":url:" + url.value.name] else [])
  }

  /** The index of all sources together, or the first failure. */
  method LoadIPList(net: AddrText, kind: string, inline: seq<string>, file: Option<Input>, url: Option<Input>)
    returns (r: Result<IpAllowlist, LoadError>)
    requires LawfulText(net)
    ensures IsLoadResult(net, kind, inline, file, url, r)
  {
    hide EntriesOf, FirstError, ScannedLines, LawfulText, InputLines, JoinLines;
    var result := new AllowlistParseResult();
    assert {} + EntriesOf(net, ScannedLines(JoinLines(inline))) == EntriesOf(net, ScannedLines(JoinLines(inline)));
    var err := ParseAllowlistLines(net, result, kind + ":inline", JoinLines(inline), {});
    if err.Some? {
      return Failure(err.value);
    }
    ghost var lines := ScannedLines(JoinLines(inline));
    EntriesAreValid(net, lines);
    err := LoadInput(net, result, kind + ":file:", file, EntriesOf(net, lines));
    if err.Some? {
      return Failure(err.value);
    }
    EntriesOfConcat(net, lines, InputLines(file));
    lines := lines + InputLines(file);
    EntriesAreValid(net, lines);
    err := LoadInput(net, result, kind + ":url:", url, EntriesOf(net, lines));
    if err.Some? {
      return Failure(err.value);
    }
    EntriesOfConcat(net, lines, InputLines(url));
    lines := lines + InputLines(url);
    EntriesAreValid(net, lines);
    assert lines == AllLines(inline, file, url);
    var prefixes := CollectPrefixes(result.prefixes);
    HeldPrefixes(net, result, EntriesOf(net, lines));
    return Success(IpAllowlist(result.exactIPs, prefixes, result.sources, result.entries));
  }

  lemma HeldPrefixes(net: AddrText, result: AllowlistParseResult, held: set<Entry>)
    requires result.Holds(net, held)
    ensures forall p: Prefix :: p in result.prefixes.Values <==> Block(p) in held
  {
    forall p: Prefix
      ensures p in result.prefixes.Values <==> Block(p) in held
    {
      if Block(p) in held {
        assert net.prefixString(p) in result.prefixes.Keys;
      }
    }
  }

  /** Every finite set of valid entries has an index. */
  lemma {:induction false} IndexFor(held: set<Entry>, sources: seq<string>) returns (list: IpAllowlist)
    requires ValidEntries(held)
    ensures Indexes(list, held) && list.sources == sources
    decreases |held|
  {
    if held == {} {
      return IpAllowlist({}, [], sources, 0);
    }
    var e :| e in held;
    var fewer := IndexFor(held - {e}, sources);
    assert held == (held - {e}) + {e};
    match e
    case Exact(addr) => list := IpAllowlist(fewer.exactIPs + {addr}, fewer.prefixes, sources, fewer.entries + 1);
    case Block(prefix) => list := IpAllowlist(fewer.exactIPs, fewer.prefixes + [prefix], sources, fewer.entries + 1);
  }

  /** Whatever could be read of its sources, a load has a result. */
  lemma LoadHasResult(net: AddrText, kind: string, inline: seq<string>, file: Option<Input>, url: Option<Input>)
    returns (r: Result<IpAllowlist, LoadError>)
    requires LawfulText(net)
    ensures IsLoadResult(net, kind, inline, file, url, r)
  {
    hide LawfulText, EntriesOf, FirstError, LoadFailure, Indexes, AllLines;
    if LoadFailure(net, kind, inline, file, url).Some? {
      return Failure(LoadFailure(net, kind, inline, file, url).value);
    }
    var lines := AllLines(inline, file, url);
    EntriesAreValid(net, lines);
    var list := IndexFor(EntriesOf(net, lines),
                         [kind + ":inline"]
                         + (if file.Some? then [kind + ":file:" + file.value.name] else [])
                         + (if url.Some? then [kind + ":url:" + url.value.name] else []));
    return Success(list);
  }
}
