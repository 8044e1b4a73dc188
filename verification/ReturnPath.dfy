/** safeReturnPathFrom: a segment-stack reading of it, what it keeps, and the normal form it produces. */
module ReturnPath {
  import opened Bytes
  import opened SafePath

  /** The text before the first '?', and the rest with the '?'. */
  function PathPart(p: Bytes): Bytes {
    p[..IndexOf(p, QUERY)]
  }

  function QueryPart(p: Bytes): Bytes {
    p[IndexOf(p, QUERY)..]
  }

  predicate Accepted(p: Bytes) {
    p != [] && p[0] == SLASH && !([SLASH, SLASH] <= p)
  }

  lemma PathPartIsRooted(p: Bytes)
    requires p != [] && p[0] == SLASH
    ensures PathPart(p) != [] && PathPart(p)[0] == SLASH
  {
  }

  /** path.Clean takes a trailing slash away; a path that had one gets it back. */
  function WithTrailingSlash(had: bool, cleanPath: Bytes): Bytes
    requires cleanPath != []
  {
    if had && cleanPath[|cleanPath| - 1] != SLASH then cleanPath + [SLASH] else cleanPath
  }

  function SafeReturnPathFrom(p: Bytes): Bytes {
    if !Accepted(p) then
      [SLASH]
    else
      PathPartIsRooted(p);
      var rawPath := PathPart(p);
      var hasTrailingSlash := |rawPath| > 1 && rawPath[|rawPath| - 1] == SLASH;
      var cleanPath := Clean(rawPath);
      if cleanPath == [DOT] || !([SLASH] <= cleanPath) then
        [SLASH]
      else
        var kept := WithTrailingSlash(hasTrailingSlash, cleanPath);
        if IndexOf(p, QUERY) < |p| then kept + [QUERY] + p[IndexOf(p, QUERY) + 1..] else kept
  }

  /** The answer for an accepted text, without the dead branch. */
  lemma AcceptedAnswer(p: Bytes)
    requires Accepted(p)
    ensures var cut := IndexOf(p, QUERY);
            var rawPath := p[..cut];
            && rawPath != [] && rawPath[0] == SLASH && Clean(rawPath) != [] && Clean(rawPath)[0] == SLASH
            && var kept := WithTrailingSlash(|rawPath| > 1 && rawPath[|rawPath| - 1] == SLASH, Clean(rawPath));
               SafeReturnPathFrom(p) == if cut < |p| then kept + [QUERY] + p[cut + 1..] else kept
  {
    PathPartIsRooted(p);
    hide Segments, Resolve, Join, IndexOf;
  }

  lemma RejectedAnswer(p: Bytes)
    ensures !Accepted(p) ==> SafeReturnPathFrom(p) == [SLASH]
  {
  }

  lemma TrailingSlashKept(had: bool, cleanPath: Bytes)
    requires cleanPath != []
    ensures WithTrailingSlash(had, cleanPath) ==
            if had && cleanPath[|cleanPath| - 1] != SLASH then cleanPath + [SLASH] else cleanPath
  {
  }

  /** The same by the scan; the branch for a clean path without a leading slash is dead. */
  method SafeReturnPath(p: Bytes) returns (target: Bytes)
    ensures target == SafeReturnPathFrom(p)
    ensures p == [] || p[0] != '/' as int || (|p| > 1 && p[1] == '/' as int) ==> target == ['/' as int]
  {
    AcceptedLiterally(p);
    RejectedAnswer(p);
    hide Clean, IndexOf, SafeReturnPathFrom, WithTrailingSlash;
    if p == [] || p[0] != SLASH || [SLASH, SLASH] <= p {
      return [SLASH];
    }
    AcceptedAnswer(p);
    hide Accepted;
    var cut := IndexOf(p, QUERY);
    var rawPath := p[..cut];
    var hasTrailingSlash := |rawPath| > 1 && rawPath[|rawPath| - 1] == SLASH;
    var cleanPath := CleanScan(rawPath);
    TrailingSlashKept(hasTrailingSlash, cleanPath);
    if cleanPath == [DOT] || !([SLASH] <= cleanPath) {
      assert false;
    }
    if hasTrailingSlash && cleanPath[|cleanPath| - 1] != SLASH {
      cleanPath := cleanPath + [SLASH];
    }
    if cut < |p| {
      return cleanPath + [QUERY] + p[cut + 1..];
    }
    return cleanPath;
  }

  // ---------------------------------------------------------------------------------
  // The segment-stack reading
  // ---------------------------------------------------------------------------------

  /** The segments of a cleaned path: the resolved stack, and an empty one for a kept trailing slash. */
  ghost function KeptSegments(rest: Bytes): (segs: seq<Bytes>)
    ensures segs != []
  {
    var segs := Segments(rest);
    var stack := Resolve([], segs);
    if stack == [] then [[]]
    else if segs[|segs| - 1] == [] then stack + [[]]
    else stack
  }

  ghost function TargetSegments(p: Bytes): (segs: seq<Bytes>)
    requires Accepted(p)
    ensures segs != []
  {
    PathPartIsRooted(p);
    KeptSegments(PathPart(p)[1..])
  }

  ghost function Target(p: Bytes): Bytes
    requires Accepted(p)
  {
    [SLASH] + Join(TargetSegments(p)) + QueryPart(p)
  }

  lemma {:induction false} LastSegment(s: Bytes)
    ensures Segments(s)[|Segments(s)| - 1] == [] <==> s == [] || s[|s| - 1] == SLASH
    decreases |s|
  {
    var i := IndexOf(s, SLASH);
    if i < |s| {
      var rest := s[i + 1..];
      LastSegment(rest);
      assert Segments(s) == [s[..i]] + Segments(rest);
      assert rest != [] ==> rest[|rest| - 1] == s[|s| - 1];
    } else {
      assert Segments(s) == [s];
      assert s != [] ==> s[|s| - 1] in s[..i];
    }
  }

  lemma {:induction false} JoinEnd(segs: seq<Bytes>)
    requires segs != [] && AllPlain(segs)
    ensures Join(segs) != [] && Join(segs)[|Join(segs)| - 1] != SLASH
  {
    var front, last := segs[..|segs| - 1], segs[|segs| - 1];
    if front != [] {
      assert segs == front + [last];
      JoinAppend(front, last);
    }
    assert last[|last| - 1] in last;
  }

  lemma EmptyPathResolves()
    ensures Segments([]) == [[]] && Resolve([], [[]]) == []
  {
    assert Resolve([], [[]]) == Resolve(Push([], []), []);
  }

  /** Keeping the trailing slash of a clean path is rendering one empty segment more. */
  lemma KeptSlash(stack: seq<Bytes>)
    requires AllPlain(stack)
    ensures stack != [] ==> Join(stack) != [] && Join(stack)[|Join(stack)| - 1] != SLASH
    ensures stack != [] ==> [SLASH] + Join(stack + [[]]) == [SLASH] + Join(stack) + [SLASH]
    ensures Join([[]]) == []
  {
    if stack != [] {
      JoinEnd(stack);
      JoinAppend(stack, []);
      assert [SLASH] + (Join(stack) + [SLASH] + []) == [SLASH] + Join(stack) + [SLASH];
    }
  }

  lemma ResolverAgreesWhenAccepted(p: Bytes)
    ensures SafeReturnPathFrom(p) == if Accepted(p) then Target(p) else [SLASH]
  {
    hide Join, IndexOf, PathPart, QueryPart, Clean, KeptSegments, WithTrailingSlash;
    if Accepted(p) {
      PathPartIsRooted(p);
      KeptPath(PathPart(p));
      QueryBehindMark(p);
    }
  }

  /**
   * For every text: if it starts with a '/' and not with two, the answer is '/', the kept segments
   * of what stands in front of the first '?', and the text from there on; otherwise it is "/". The
   * inner fallback never fires.
   */
  lemma ResolverAgrees(p: Bytes)
    ensures var mark := IndexOf(p, '?' as int);
            SafeReturnPathFrom(p) ==
            if |p| >= 1 && p[0] == '/' as int && !(|p| >= 2 && p[1] == '/' as int)
            then ['/' as int] + Join(KeptSegments(p[..mark][1..])) + p[mark..]
            else ['/' as int]
  {
    AcceptedLiterally(p);
    hide Join, KeptSegments, SafeReturnPathFrom, IndexOf, Accepted, Target;
    ResolverAgreesWhenAccepted(p);
    if Accepted(p) {
      TargetLiterally(p);
    }
  }

  lemma TargetLiterally(p: Bytes)
    requires Accepted(p)
    ensures var mark := IndexOf(p, '?' as int);
            mark > 0 && Target(p) == ['/' as int] + Join(KeptSegments(p[..mark][1..])) + p[mark..]
  {
    AcceptedLiterally(p);
    hide Join, KeptSegments, IndexOf;
  }

  lemma AcceptedLiterally(p: Bytes)
    ensures Accepted(p) <==> |p| >= 1 && p[0] == '/' as int && !(|p| >= 2 && p[1] == '/' as int)
    ensures |p| >= 1 && p[0] == '/' as int ==> IndexOf(p, '?' as int) > 0
  {
  }

  lemma QueryBehindMark(p: Bytes)
    ensures QueryPart(p) == if IndexOf(p, QUERY) < |p| then [QUERY] + p[IndexOf(p, QUERY) + 1..] else []
  {
  }

  /** Cleaning a rooted path and putting its trailing slash back gives those segments. */
  lemma KeptPath(rawPath: Bytes)
    requires rawPath != [] && rawPath[0] == SLASH
    ensures var hasTrailingSlash := |rawPath| > 1 && rawPath[|rawPath| - 1] == SLASH;
            var cleanPath := Clean(rawPath);
            && cleanPath != [DOT] && [SLASH] <= cleanPath
            && WithTrailingSlash(hasTrailingSlash, cleanPath) == [SLASH] + Join(KeptSegments(rawPath[1..]))
  {
    hide Segments, Resolve, Join, IndexOf;
    var rest := rawPath[1..];
    var segs := Segments(rest);
    var stack := Resolve([], segs);
    ResolveIsPlain([], segs);
    KeptSlash(stack);
    LastSegment(rest);
    EmptyPathResolves();
    JoinNothing();
    var cleanPath := Clean(rawPath);
    assert cleanPath == [SLASH] + Join(stack);
    assert cleanPath[0] == SLASH;
    if stack != [] {
      assert cleanPath[|cleanPath| - 1] == Join(stack)[|Join(stack)| - 1];
    }
    assert stack != [] ==> rest != [] && rest[|rest| - 1] == rawPath[|rawPath| - 1];
  }

  lemma JoinNothing()
    ensures Join([]) == []
  {
  }

  // ---------------------------------------------------------------------------------
  // Normal form
  // ---------------------------------------------------------------------------------

  /**
   * One leading slash, then named segments only; the last may be empty, which is a trailing
   * slash. No "//", "." or ".." survives in front of the query.
   */
  predicate IsNormal(p: Bytes) {
    p != [] && p[0] == SLASH &&
    (PathPartIsRooted(p);
     var segs := Segments(PathPart(p)[1..]);
     var last := |segs| - 1;
     (forall i :: 0 <= i < last ==> Plain(segs[i])) && (segs[last] == [] || Plain(segs[last])))
  }

  ghost predicate FreeOf(segs: seq<Bytes>, c: byte) {
    forall i :: 0 <= i < |segs| ==> c !in segs[i]
  }

  lemma {:induction false} SegmentsFreeOf(s: Bytes, c: byte)
    requires c !in s
    ensures FreeOf(Segments(s), c)
    decreases |s|
  {
    var i := IndexOf(s, SLASH);
    if i < |s| {
      SegmentsFreeOf(s[i + 1..], c);
    }
  }

  lemma {:induction false} ResolveFreeOf(stack: seq<Bytes>, segs: seq<Bytes>, c: byte)
    requires FreeOf(stack, c) && FreeOf(segs, c)
    ensures FreeOf(Resolve(stack, segs), c)
    decreases |segs|
  {
    if segs != [] {
      ResolveFreeOf(Push(stack, segs[0]), segs[1..], c);
    }
  }

  lemma {:induction false} JoinFreeOf(segs: seq<Bytes>, c: byte)
    requires FreeOf(segs, c) && c != SLASH
    ensures c !in Join(segs)
  {
    if |segs| > 1 {
      JoinFreeOf(segs[1..], c);
    }
  }

  lemma PartsOfPath(front: Bytes, query: Bytes)
    requires QUERY !in front && (query == [] || query[0] == QUERY)
    ensures PathPart(front + query) == front && QueryPart(front + query) == query
  {
    if query == [] {
      IndexOfSplit(front, QUERY, []);
      assert front + query == front;
    } else {
      IndexOfSplit(front, QUERY, query[1..]);
      assert front + query == front + [QUERY] + query[1..];
    }
  }

  /** The kept segments are named, but for a last one that may be empty, and bring in no '?'. */
  lemma KeptSegmentsFacts(rest: Bytes)
    requires QUERY !in rest
    ensures AllPlain(Resolve([], Segments(rest)))
    ensures SlashFree(KeptSegments(rest)) && FreeOf(KeptSegments(rest), QUERY)
  {
    hide Segments, Resolve;
    ResolveIsPlain([], Segments(rest));
    SegmentsFreeOf(rest, QUERY);
    ResolveFreeOf([], Segments(rest), QUERY);
  }

  /** The answer splits back into the segments and the query it was built from. */
  lemma TargetParts(p: Bytes)
    requires Accepted(p)
    ensures Target(p) != [] && Target(p)[0] == SLASH
    ensures QueryPart(Target(p)) == QueryPart(p)
    ensures PathPart(Target(p)) != [] && Segments(PathPart(Target(p))[1..]) == TargetSegments(p)
    ensures AllPlain(Resolve([], Segments(PathPart(p)[1..])))
  {
    hide Segments, Resolve, Join, KeptSegments, FreeOf, SlashFree;
    PathPartIsRooted(p);
    var outs := TargetSegments(p);
    KeptSegmentsFacts(PathPart(p)[1..]);
    JoinFreeOf(outs, QUERY);
    SegmentsOfJoin(outs);
    var front := [SLASH] + Join(outs);
    PartsOfPath(front, QueryPart(p));
    assert Target(p) == front + QueryPart(p);
    assert front[1..] == Join(outs);
  }

  lemma RootIsNormal()
    ensures IsNormal([SLASH]) && SafeReturnPathFrom([SLASH]) == [SLASH]
  {
    assert PathPart([SLASH]) == [SLASH] && [SLASH][1..] == [];
    EmptyPathResolves();
  }

  lemma TargetIsNormal(p: Bytes)
    requires Accepted(p)
    ensures IsNormal(Target(p))
  {
    TargetParts(p);
    hide Segments, Resolve, Join, IndexOf, Target, PathPart, Accepted;
  }

  /** Every answer is in normal form. */
  lemma AnswerIsNormal(p: Bytes)
    ensures IsNormal(SafeReturnPathFrom(p))
  {
    hide SafeReturnPathFrom, IsNormal, Target;
    ResolverAgreesWhenAccepted(p);
    RootIsNormal();
    if Accepted(p) {
      TargetIsNormal(p);
    }
  }

  /** Accepted texts keep their query to the byte, and a trailing slash unless all segments cancel. */
  lemma AnswerKeeps(p: Bytes)
    requires Accepted(p)
    ensures var answer := SafeReturnPathFrom(p);
            && QueryPart(answer) == QueryPart(p)
            && PathPart(answer) != [] && PathPart(p) != []
            && (PathPart(answer)[|PathPart(answer)| - 1] == SLASH <==>
                PathPart(p)[|PathPart(p)| - 1] == SLASH || Resolve([], Segments(PathPart(p)[1..])) == [])
  {
    hide Segments, Resolve, SafeReturnPathFrom, Target;
    ResolverAgreesWhenAccepted(p);
    TargetParts(p);
    PathPartIsRooted(p);
    LastSegment(PathPart(p)[1..]);
    LastSegment(PathPart(Target(p))[1..]);
    EmptyPathResolves();
    PathPartIsRooted(Target(p));
  }

  lemma DoubleSlashIsNotNormal(p: Bytes)
    requires [SLASH, SLASH] <= p
    ensures !IsNormal(p)
  {
    PathPartIsRooted(p);
    var front := PathPart(p)[1..];
    assert p[1] == SLASH && IndexOf(p, QUERY) >= 2;
    assert front == [] + [SLASH] + front[1..];
    SegmentsOfSplit([], front[1..]);
    assert Segments(front)[0] == [];
  }

  /** A path in normal form resolves to its own segments. */
  lemma NormalTarget(p: Bytes)
    requires Accepted(p) && IsNormal(p)
    ensures TargetSegments(p) == Segments(PathPart(p)[1..])
  {
    hide Segments, Resolve, Join;
    PathPartIsRooted(p);
    var segs := Segments(PathPart(p)[1..]);
    var named, last := segs[..|segs| - 1], segs[|segs| - 1];
    assert segs == named + [last];
    if last == [] {
      ResolvePlain([], named);
    } else {
      ResolvePlain([], segs);
    }
  }

  /** The texts the function leaves alone are exactly those in normal form. */
  lemma FixedExactlyWhenNormal(p: Bytes)
    ensures SafeReturnPathFrom(p) == p <==> IsNormal(p)
  {
    hide Segments, Resolve, Join, SafeReturnPathFrom;
    AnswerIsNormal(p);
    if IsNormal(p) {
      if [SLASH, SLASH] <= p {
        DoubleSlashIsNotNormal(p);
      }
      ResolverAgreesWhenAccepted(p);
      NormalTarget(p);
      PathPartIsRooted(p);
      JoinSegments(PathPart(p)[1..]);
      assert PathPart(p) == [SLASH] + PathPart(p)[1..];
      assert p == PathPart(p) + QueryPart(p);
    }
  }

  lemma Idempotent(p: Bytes)
    ensures SafeReturnPathFrom(SafeReturnPathFrom(p)) == SafeReturnPathFrom(p)
  {
    AnswerIsNormal(p);
    FixedExactlyWhenNormal(SafeReturnPathFrom(p));
  }
}
