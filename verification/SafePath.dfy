/** path.Clean of rooted paths: by its documented rules on segments, and as the scan that implements it. */
module SafePath {
  import opened Bytes

  const SLASH: byte := 47
  const DOT: byte := 46
  const QUERY: byte := 63

  // ---------------------------------------------------------------------------------
  // Slash-separated segments
  // ---------------------------------------------------------------------------------

  /** The pieces between slashes; there is always at least one, possibly empty. */
  function Segments(s: Bytes): (segs: seq<Bytes>)
    ensures segs != []
    ensures forall i :: 0 <= i < |segs| ==> SLASH !in segs[i]
    decreases |s|
  {
    var i := IndexOf(s, SLASH);
    if i == |s| then
      assert s == s[..i];
      [s]
    else
      [s[..i]] + Segments(s[i + 1..])
  }

  function Join(segs: seq<Bytes>): Bytes {
    if segs == [] then []
    else if |segs| == 1 then segs[0]
    else segs[0] + [SLASH] + Join(segs[1..])
  }

  ghost predicate SlashFree(segs: seq<Bytes>) {
    forall i :: 0 <= i < |segs| ==> SLASH !in segs[i]
  }

  lemma SegmentsOfSplit(front: Bytes, rest: Bytes)
    requires SLASH !in front
    ensures Segments(front + [SLASH] + rest) == [front] + Segments(rest)
    ensures Segments(front) == [front]
  {
    IndexOfSplit(front, SLASH, rest);
    assert (front + [SLASH] + rest)[|front| + 1..] == rest;
    assert (front + [SLASH] + rest)[..|front|] == front;
  }

  lemma JoinCons(front: Bytes, segs: seq<Bytes>)
    ensures Join([front]) == front
    ensures segs != [] ==> Join([front] + segs) == front + [SLASH] + Join(segs)
  {
    assert ([front] + segs)[1..] == segs;
  }

  lemma {:induction false} JoinSegments(s: Bytes)
    ensures Join(Segments(s)) == s
    decreases |s|
  {
    hide Join, Segments;
    var i := IndexOf(s, SLASH);
    var front := s[..i];
    if i < |s| {
      var rest := s[i + 1..];
      assert s == front + [SLASH] + rest;
      JoinSegments(rest);
      SegmentsOfSplit(front, rest);
      JoinCons(front, Segments(rest));
    } else {
      assert s == front;
      SegmentsOfSplit(front, []);
      JoinCons(front, []);
    }
  }

  lemma {:induction false} SegmentsOfJoin(segs: seq<Bytes>)
    requires segs != [] && SlashFree(segs)
    ensures Segments(Join(segs)) == segs
  {
    if |segs| == 1 {
      SegmentsOfSplit(segs[0], []);
    } else {
      SegmentsOfJoin(segs[1..]);
      SegmentsOfSplit(segs[0], Join(segs[1..]));
    }
  }

  lemma {:induction false} JoinAppend(segs: seq<Bytes>, last: Bytes)
    requires segs != []
    ensures Join(segs + [last]) == Join(segs) + [SLASH] + last
  {
    assert (segs + [last])[1..] == segs[1..] + [last];
    if |segs| > 1 {
      JoinAppend(segs[1..], last);
      var rest := Join(segs[1..]);
      assert segs[0] + [SLASH] + (rest + [SLASH] + last) == segs[0] + [SLASH] + rest + [SLASH] + last;
    }
  }

  // ---------------------------------------------------------------------------------
  // path.Clean for rooted paths
  // ---------------------------------------------------------------------------------

  predicate Dots(seg: Bytes) {
    seg == [DOT] || seg == [DOT, DOT]
  }

  /** A segment that names something: neither empty nor a dot segment. */
  predicate Plain(seg: Bytes) {
    seg != [] && !Dots(seg) && SLASH !in seg
  }

  /** Empty and "." segments vanish, ".." takes the segment before it along, if any. */
  function Push(stack: seq<Bytes>, seg: Bytes): seq<Bytes> {
    if seg == [] || seg == [DOT] then stack
    else if seg == [DOT, DOT] then
      if stack == [] then [] else stack[..|stack| - 1]
    else stack + [seg]
  }

  function Resolve(stack: seq<Bytes>, segs: seq<Bytes>): seq<Bytes>
    decreases |segs|
  {
    if segs == [] then stack else Resolve(Push(stack, segs[0]), segs[1..])
  }

  function Render(stack: seq<Bytes>): Bytes {
    [SLASH] + Join(stack)
  }

  /** path.Clean of a rooted path, by the rules its documentation lists. */
  function Clean(path: Bytes): Bytes
    requires path != [] && path[0] == SLASH
  {
    Render(Resolve([], Segments(path[1..])))
  }

  ghost predicate AllPlain(segs: seq<Bytes>) {
    forall i :: 0 <= i < |segs| ==> Plain(segs[i])
  }

  lemma {:induction false} ResolveIsPlain(stack: seq<Bytes>, segs: seq<Bytes>)
    requires AllPlain(stack) && SlashFree(segs)
    ensures AllPlain(Resolve(stack, segs))
    decreases |segs|
  {
    if segs != [] {
      ResolveIsPlain(Push(stack, segs[0]), segs[1..]);
    }
  }

  lemma {:induction false} ResolvePlain(stack: seq<Bytes>, segs: seq<Bytes>)
    requires AllPlain(segs)
    ensures Resolve(stack, segs) == stack + segs
    ensures Resolve(stack, segs + [[]]) == stack + segs
    decreases |segs|
  {
    if segs == [] {
      assert Resolve(stack, [[]]) == Resolve(Push(stack, []), []);
    } else {
      ResolvePlain(stack + [segs[0]], segs[1..]);
      assert (segs + [[]])[1..] == segs[1..] + [[]];
      assert stack + segs == stack + [segs[0]] + segs[1..];
    }
  }

  // ---------------------------------------------------------------------------------
  // The rules of path.Clean, on whole paths
  // ---------------------------------------------------------------------------------

  lemma {:induction false} SegmentsAppend(front: Bytes, rest: Bytes)
    ensures Segments(front + [SLASH] + rest) == Segments(front) + Segments(rest)
    decreases |front|
  {
    hide Segments;
    var i := IndexOf(front, SLASH);
    var first := front[..i];
    if i == |front| {
      assert first == front;
      SegmentsOfSplit(front, rest);
    } else {
      var more := front[i + 1..];
      assert front == first + [SLASH] + more;
      assert front + [SLASH] + rest == first + [SLASH] + (more + [SLASH] + rest);
      SegmentsOfSplit(first, more);
      SegmentsOfSplit(first, more + [SLASH] + rest);
      SegmentsAppend(more, rest);
    }
  }

  lemma {:induction false} ResolveAppend(stack: seq<Bytes>, a: seq<Bytes>, b: seq<Bytes>)
    ensures Resolve(stack, a + b) == Resolve(Resolve(stack, a), b)
    decreases |a|
  {
    if a == [] {
      assert a + b == b;
    } else {
      ResolveAppend(Push(stack, a[0]), a[1..], b);
      assert (a + b)[1..] == a[1..] + b;
    }
  }

  /** Cleaning '/' and what follows it. */
  function CleanRooted(rest: Bytes): Bytes {
    Clean(['/' as int] + rest)
  }

  /** Cleaning goes through the pieces of a path one after the other. */
  lemma CleanJoined(front: Bytes, back: Bytes)
    ensures CleanRooted(front + [SLASH] + back) == Render(Resolve(Resolve([], Segments(front)), Segments(back)))
  {
    hide Segments, Resolve, Render;
    assert (['/' as int] + (front + [SLASH] + back))[1..] == front + [SLASH] + back;
    SegmentsAppend(front, back);
    ResolveAppend([], Segments(front), Segments(back));
  }

  /** A segment that the rest of the path undoes. */
  lemma Undone(front: Bytes, middle: Bytes, back: Bytes)
    requires forall stack :: Resolve(stack, Segments(middle)) == stack
    ensures CleanRooted(front + [SLASH] + (middle + [SLASH] + back)) == CleanRooted(front + [SLASH] + back)
  {
    hide Segments, Resolve, CleanRooted, Render;
    var stack := Resolve([], Segments(front));
    CleanJoined(front, back);
    CleanJoined(front, middle + [SLASH] + back);
    SegmentsAppend(middle, back);
    ResolveAppend(stack, Segments(middle), Segments(back));
  }

  lemma UndoneSegments(seg: Bytes, stack: seq<Bytes>)
    requires Plain(seg)
    ensures Resolve(stack, Segments([])) == stack && Resolve(stack, Segments([DOT])) == stack
    ensures Resolve(stack, Segments(seg + [SLASH] + [DOT, DOT])) == stack
    ensures Resolve([], Segments([DOT, DOT])) == []
  {
    SegmentsOfSplit(seg, [DOT, DOT]);
    SegmentsOfSplit([DOT, DOT], []);
    SegmentsOfSplit([DOT], []);
    SegmentsOfSplit([], []);
    hide Segments;
    ResolveOne(stack, []);
    ResolveOne(stack, [DOT]);
    ResolveOne([], [DOT, DOT]);
    ResolveOne(stack + [seg], [DOT, DOT]);
    ResolveOne(stack, seg);
    ResolveAppend(stack, [seg], [[DOT, DOT]]);
    assert (stack + [seg])[..|stack|] == stack;
  }

  lemma ResolveOne(stack: seq<Bytes>, seg: Bytes)
    ensures Resolve(stack, [seg]) == Push(stack, seg)
  {
    assert [seg][1..] == [];
  }

  /**
   * The documented rules, anywhere in a rooted path: doubled slashes are one, "." elements go, an
   * inner ".." goes with the element in front of it, and ".." at the root goes.
   */
  lemma CleanRules(front: Bytes, seg: Bytes, back: Bytes)
    requires Plain(seg)
    ensures CleanRooted(front + [SLASH] + ([] + [SLASH] + back)) == CleanRooted(front + [SLASH] + back)
    ensures CleanRooted(front + [SLASH] + ([DOT] + [SLASH] + back)) == CleanRooted(front + [SLASH] + back)
    ensures CleanRooted(front + [SLASH] + ((seg + [SLASH] + [DOT, DOT]) + [SLASH] + back)) ==
            CleanRooted(front + [SLASH] + back)
    ensures CleanRooted([DOT, DOT] + [SLASH] + back) == CleanRooted([] + [SLASH] + back)
    ensures SLASH == '/' as int && DOT == '.' as int
  {
    hide Segments, Resolve, CleanRooted, Render;
    forall stack
      ensures Resolve(stack, Segments([])) == stack && Resolve(stack, Segments([DOT])) == stack
      ensures Resolve(stack, Segments(seg + [SLASH] + [DOT, DOT])) == stack
    {
      UndoneSegments(seg, stack);
    }
    UndoneSegments(seg, []);
    Undone(front, [], back);
    Undone(front, [DOT], back);
    Undone(front, seg + [SLASH] + [DOT, DOT], back);
    CleanJoined([DOT, DOT], back);
    CleanJoined([], back);
  }

  // ---------------------------------------------------------------------------------
  // The single left-to-right scan behind path.Clean
  // ---------------------------------------------------------------------------------

  lemma SegmentEnds(path: Bytes, r: nat, e: nat)
    requires r <= e <= |path| && SLASH !in path[r..e] && (e < |path| ==> path[e] == SLASH)
    ensures Segments(path[r..]) == [path[r..e]] + if e < |path| then Segments(path[e + 1..]) else []
  {
    hide Segments;
    var seg := path[r..e];
    if e < |path| {
      SegmentsOfSplit(seg, path[e + 1..]);
      SliceAt(path, r, e);
    } else {
      SegmentsOfSplit(seg, []);
      assert path[r..] == seg;
    }
  }

  lemma SliceAt(path: Bytes, r: nat, e: nat)
    requires r <= e < |path|
    ensures path[r..] == path[r..e] + [path[e]] + path[e + 1..]
  {
  }

  /** After a segment has been consumed the scan stands on its slash, an empty segment more. */
  lemma ResolveStep(path: Bytes, r: nat, e: nat, stack: seq<Bytes>)
    requires r <= e <= |path| && SLASH !in path[r..e] && (e < |path| ==> path[e] == SLASH)
    ensures Resolve(stack, Segments(path[r..])) == Resolve(Push(stack, path[r..e]), Segments(path[e..]))
  {
    hide Segments;
    SegmentEnds(path, r, e);
    SegmentEnds(path, e, e);
    assert path[e..e] == [];
    var seg, rest := path[r..e], if e < |path| then Segments(path[e + 1..]) else [];
    assert Segments(path[r..]) == [seg] + rest && Segments(path[e..]) == [[]] + rest;
    assert ([seg] + rest)[1..] == rest && ([[]] + rest)[1..] == rest;
    assert Push(Push(stack, seg), []) == Push(stack, seg);
  }

  lemma SkipSlash(path: Bytes, r: nat, stack: seq<Bytes>)
    requires r < |path| && path[r] == SLASH
    ensures Resolve(stack, Segments(path[r..])) == Resolve(stack, Segments(path[r + 1..]))
  {
    hide Segments;
    SegmentEnds(path, r, r);
    assert path[r..r] == [];
    assert ([[]] + Segments(path[r + 1..]))[1..] == Segments(path[r + 1..]);
  }

  /** Dropping the last segment of the rendered stack back to its slash. */
  method Backtrack(out: Bytes, ghost stack: seq<Bytes>) returns (shorter: Bytes)
    requires stack != [] && AllPlain(stack) && out == Render(stack)
    ensures shorter == Render(stack[..|stack| - 1])
  {
    ghost var front, last := stack[..|stack| - 1], stack[|stack| - 1];
    ghost var cut := |out| - |last| - 1;
    RenderLast(stack);
    var w := |out| - 1;
    while w > 1 && out[w] != SLASH
      invariant cut <= w < |out| && w >= 1
      decreases w
    {
      w := w - 1;
    }
    if w > cut {
      assert out[w] in last;
    }
    shorter := out[..w];
  }

  /** The rendered stack is the rendered front, a slash unless that is the root, and the last segment. */
  lemma RenderLast(stack: seq<Bytes>)
    requires stack != [] && AllPlain(stack)
    ensures var front, last := stack[..|stack| - 1], stack[|stack| - 1];
            Render(stack) == Render(front) + (if front == [] then [] else [SLASH]) + last
    ensures var front := stack[..|stack| - 1]; front != [] ==> |Render(front)| > 1
  {
    var front, last := stack[..|stack| - 1], stack[|stack| - 1];
    assert stack == front + [last];
    if front != [] {
      JoinAppend(front, last);
      assert |front[0]| > 0 && |Join(front)| >= |front[0]|;
    }
  }

  /** Copies bytes up to the next slash. */
  method CopySegment(path: Bytes, start: nat, prefix: Bytes) returns (out: Bytes, r: nat)
    requires start < |path| && path[start] != SLASH
    ensures start < r <= |path| && SLASH !in path[start..r] && (r < |path| ==> path[r] == SLASH)
    ensures out == prefix + path[start..r]
  {
    out, r := prefix, start;
    while r < |path| && path[r] != SLASH
      invariant start <= r <= |path| && SLASH !in path[start..r]
      invariant out == prefix + path[start..r]
      decreases |path| - r
    {
      out := out + [path[r]];
      r := r + 1;
    }
  }

  /** What the scan knows between segments: its output is the stack of everything read so far. */
  ghost predicate ScanInvariant(path: Bytes, r: nat, stack: seq<Bytes>, out: Bytes)
    requires path != []
  {
    && 1 <= r <= |path|
    && AllPlain(stack)
    && out == Render(stack)
    && Resolve(stack, Segments(path[r..])) == Resolve([], Segments(path[1..]))
  }

  lemma ScanEnds(path: Bytes, stack: seq<Bytes>, out: Bytes)
    requires path != [] && path[0] == SLASH && ScanInvariant(path, |path|, stack, out)
    ensures out == Clean(path)
  {
    assert path[|path|..] == [];
    assert Segments([]) == [[]];
    assert Resolve(stack, [[]]) == Resolve(Push(stack, []), []) == stack;
  }

  /** The segment the scan stands on, which starts behind a slash and ends at e. */
  lemma ScanSegment(path: Bytes, r: nat, e: nat, stack: seq<Bytes>, out: Bytes)
    requires path != [] && ScanInvariant(path, r, stack, out)
    requires r <= e <= |path| && SLASH !in path[r..e] && (e < |path| ==> path[e] == SLASH)
    ensures Resolve(Push(stack, path[r..e]), Segments(path[e..])) == Resolve([], Segments(path[1..]))
    ensures AllPlain(Push(stack, path[r..e]))
  {
    hide Resolve, Segments, Render;
    ResolveStep(path, r, e, stack);
  }

  lemma ScanPlain(path: Bytes, r: nat, e: nat, stack: seq<Bytes>, out: Bytes)
    requires path != [] && ScanInvariant(path, r, stack, out)
    requires r < e <= |path| && SLASH !in path[r..e] && (e < |path| ==> path[e] == SLASH)
    requires !Dots(path[r..e])
    ensures ScanInvariant(path, e, stack + [path[r..e]], out + (if |out| == 1 then [] else [SLASH]) + path[r..e])
  {
    hide Resolve, Segments, Render;
    ScanSegment(path, r, e, stack, out);
    var grown := stack + [path[r..e]];
    RenderLast(grown);
    RenderLength(stack);
    RenderEmpty();
    assert grown[..|stack|] == stack;
  }

  lemma ScanSlash(path: Bytes, r: nat, stack: seq<Bytes>, out: Bytes)
    requires path != [] && ScanInvariant(path, r, stack, out) && r < |path| && path[r] == SLASH
    ensures ScanInvariant(path, r + 1, stack, out)
  {
    hide Resolve, Segments, Render;
    SkipSlash(path, r, stack);
  }

  lemma ScanDot(path: Bytes, r: nat, stack: seq<Bytes>, out: Bytes)
    requires path != [] && ScanInvariant(path, r, stack, out)
    requires r < |path| && path[r] == DOT && (r + 1 == |path| || path[r + 1] == SLASH)
    ensures ScanInvariant(path, r + 1, stack, out)
  {
    hide Resolve, Segments, Render;
    assert path[r..r + 1] == [DOT];
    ScanSegment(path, r, r + 1, stack, out);
  }

  /** A ".." keeps the invariant once the last segment, if there is one, has been dropped. */
  lemma ScanDotDot(path: Bytes, r: nat, stack: seq<Bytes>, out: Bytes)
    requires path != [] && ScanInvariant(path, r, stack, out)
    requires r + 1 < |path| && path[r] == DOT && path[r + 1] == DOT && (r + 2 == |path| || path[r + 2] == SLASH)
    ensures stack == [] ==> ScanInvariant(path, r + 2, stack, out)
    ensures stack != [] ==> ScanInvariant(path, r + 2, stack[..|stack| - 1], Render(stack[..|stack| - 1]))
  {
    hide Resolve, Segments, Render;
    assert path[r..r + 2] == [DOT, DOT];
    ScanSegment(path, r, r + 2, stack, out);
  }

  lemma ScanStart(path: Bytes)
    requires path != []
    ensures ScanInvariant(path, 1, [], [SLASH])
  {
  }

  /** What the loop itself needs to know of its invariant. */
  lemma ScanFacts(path: Bytes, r: nat, stack: seq<Bytes>, out: Bytes)
    requires path != [] && ScanInvariant(path, r, stack, out)
    ensures 1 <= r <= |path| && AllPlain(stack) && out == Render(stack)
    ensures |out| > 1 <==> stack != []
    ensures |out| >= 1
  {
    hide Resolve, Segments;
    RenderLength(stack);
  }

  /** A segment the scan copies is not a dot segment: those have their own branches. */
  lemma CopiedIsNotDots(path: Bytes, r: nat, e: nat)
    requires r < e <= |path| && (e < |path| ==> path[e] == SLASH)
    requires !(path[r] == DOT && (r + 1 == |path| || path[r + 1] == SLASH))
    requires !(path[r] == DOT && path[r + 1] == DOT && (r + 2 == |path| || path[r + 2] == SLASH))
    ensures !Dots(path[r..e])
  {
  }

  method CleanScan(path: Bytes) returns (out: Bytes)
    requires path != [] && path[0] == SLASH
    ensures out == Clean(path)
  {
    hide Resolve, Segments, Render, ScanInvariant, AllPlain, Dots, Clean;
    out := [SLASH];
    var r := 1;
    ghost var stack: seq<Bytes> := [];
    ScanStart(path);
    while r < |path|
      invariant ScanInvariant(path, r, stack, out)
      invariant 1 <= r <= |path|
      decreases |path| - r
    {
      ScanFacts(path, r, stack, out);
      if path[r] == SLASH {
        ScanSlash(path, r, stack, out);
        r := r + 1;
      } else if path[r] == DOT && (r + 1 == |path| || path[r + 1] == SLASH) {
        ScanDot(path, r, stack, out);
        r := r + 1;
      } else if path[r] == DOT && path[r + 1] == DOT && (r + 2 == |path| || path[r + 2] == SLASH) {
        ScanDotDot(path, r, stack, out);
        r := r + 2;
        if |out| > 1 {
          out := Backtrack(out, stack);
          stack := stack[..|stack| - 1];
        }
      } else {
        ghost var start, before := r, out;
        if |out| != 1 {
          out := out + [SLASH];
        }
        out, r := CopySegment(path, r, out);
        CopiedIsNotDots(path, start, r);
        ScanPlain(path, start, r, stack, before);
        assert out == before + (if |before| == 1 then [] else [SLASH]) + path[start..r];
        stack := stack + [path[start..r]];
      }
    }
    ScanEnds(path, stack, out);
  }

  lemma RenderEmpty()
    ensures Render([]) == [SLASH]
  {
  }

  lemma RenderLength(stack: seq<Bytes>)
    requires AllPlain(stack)
    ensures |Render(stack)| > 1 <==> stack != []
    ensures |Render(stack)| >= 1
  {
    if stack != [] {
      assert |stack[0]| > 0 && |Join(stack)| >= |stack[0]|;
    }
  }
}
