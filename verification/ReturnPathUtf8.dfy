/** Cleaning a path and repairing its UTF-8 can be done in either order. */
module ReturnPathUtf8 {
  import opened Bytes
  import opened Utf8
  import opened SafePath
  import opened ReturnPath

  ghost function ToValidAll(segs: seq<Bytes>): (valid: seq<Bytes>)
    ensures |valid| == |segs|
    ensures forall i :: 0 <= i < |segs| ==> valid[i] == ToValid(segs[i])
  {
    if segs == [] then [] else [ToValid(segs[0])] + ToValidAll(segs[1..])
  }

  /** The repair neither makes nor breaks an empty or a dot segment. */
  lemma ToValidKeepsKind(seg: Bytes)
    ensures ToValid(seg) == [] <==> seg == []
    ensures ToValid(seg) == [DOT] <==> seg == [DOT]
    ensures ToValid(seg) == [DOT, DOT] <==> seg == [DOT, DOT]
  {
    hide ToValid;
    ToValidKeepsAscii(seg, DOT);
    if Ascii(seg) {
      AsciiIsValid(seg);
    }
    if Ascii(ToValid(seg)) {
      AsciiResultUnchanged(seg);
    }
  }

  lemma PushCommutes(stack: seq<Bytes>, seg: Bytes)
    ensures Push(ToValidAll(stack), ToValid(seg)) == ToValidAll(Push(stack, seg))
  {
    ToValidKeepsKind(seg);
  }

  lemma {:induction false} ResolveCommutes(stack: seq<Bytes>, segs: seq<Bytes>)
    ensures Resolve(ToValidAll(stack), ToValidAll(segs)) == ToValidAll(Resolve(stack, segs))
    decreases |segs|
  {
    hide Push, ToValid;
    if segs != [] {
      PushCommutes(stack, segs[0]);
      ResolveCommutes(Push(stack, segs[0]), segs[1..]);
      assert ToValidAll(segs)[1..] == ToValidAll(segs[1..]);
    }
  }

  lemma {:induction false} SegmentsCommute(s: Bytes)
    ensures Segments(ToValid(s)) == ToValidAll(Segments(s))
    decreases |s|
  {
    hide ToValid;
    var i := IndexOf(s, SLASH);
    var front := s[..i];
    ToValidKeepsAscii(front, SLASH);
    if i < |s| {
      var rest := s[i + 1..];
      SegmentsCommute(rest);
      assert s == front + [SLASH] + rest;
      ToValidSplits(front, SLASH, rest);
      SegmentsOfSplit(ToValid(front), ToValid(rest));
    } else {
      assert front == s;
      SegmentsOfSplit(ToValid(s), []);
    }
  }

  lemma {:induction false} JoinCommutes(segs: seq<Bytes>)
    ensures Join(ToValidAll(segs)) == ToValid(Join(segs))
  {
    if segs == [] {
    } else {
      hide ToValid;
      assert ToValidAll(segs)[1..] == ToValidAll(segs[1..]);
      if |segs| > 1 {
        JoinCommutes(segs[1..]);
        ToValidSplits(segs[0], SLASH, Join(segs[1..]));
      }
    }
  }

  /** The two halves of a text are repaired separately. */
  lemma PartsCommute(p: Bytes)
    ensures PathPart(ToValid(p)) == ToValid(PathPart(p))
    ensures QueryPart(ToValid(p)) == ToValid(QueryPart(p))
    ensures ToValid(p) == ToValid(PathPart(p)) + ToValid(QueryPart(p))
  {
    hide ToValid;
    var front := PathPart(p);
    ToValidKeepsAscii(front, QUERY);
    ToValidOfAscii(QUERY, []);
    assert p == front + QueryPart(p);
    if QueryPart(p) == [] {
      assert p == front;
      PartsOfPath(ToValid(front), []);
      assert ToValid(front) + [] == ToValid(front);
    } else {
      var rest := p[IndexOf(p, QUERY) + 1..];
      assert p == front + [QUERY] + rest && QueryPart(p) == [QUERY] + rest;
      ToValidSplits(front, QUERY, rest);
      ToValidOfAscii(QUERY, rest);
      PartsOfPath(ToValid(front), [QUERY] + ToValid(rest));
      assert ToValid(front) + ([QUERY] + ToValid(rest)) == ToValid(front) + [QUERY] + ToValid(rest);
    }
  }

  lemma AcceptedCommutes(p: Bytes)
    ensures Accepted(ToValid(p)) <==> Accepted(p)
    ensures p != [] && p[0] == SLASH ==> ToValid(p) == [SLASH] + ToValid(p[1..])
  {
    hide ToValid;
    FirstByte(p);
    if p != [] && p[0] == SLASH {
      var rest := p[1..];
      assert p == [SLASH] + rest;
      ToValidOfAscii(SLASH, rest);
      FirstByte(rest);
      DoubleSlash(SLASH, rest);
      DoubleSlash(SLASH, ToValid(rest));
    }
  }

  lemma DoubleSlash(c: byte, rest: Bytes)
    ensures [c, SLASH] <= [c] + rest <==> rest != [] && rest[0] == SLASH
  {
    if rest != [] {
      assert ([c] + rest)[1] == rest[0];
    }
  }

  lemma FirstByte(p: Bytes)
    ensures ToValid(p) == [] <==> p == []
    ensures p != [] ==> (ToValid(p)[0] == SLASH <==> p[0] == SLASH)
  {
    if p != [] {
      HeadIsRune(p, ToValid(p[Step(p)..]));
      assert Head(p)[0] == SLASH <==> p[0] == SLASH;
    }
  }

  lemma TargetSegmentsCommute(p: Bytes)
    requires Accepted(p) && Accepted(ToValid(p))
    ensures TargetSegments(ToValid(p)) == ToValidAll(TargetSegments(p))
  {
    hide ToValid, Segments, Resolve;
    PathPartIsRooted(p);
    PathPartIsRooted(ToValid(p));
    PartsCommute(p);
    AcceptedCommutes(PathPart(p));
    var rest := PathPart(p)[1..];
    assert PathPart(ToValid(p))[1..] == ToValid(rest);
    SegmentsCommute(rest);
    ResolveCommutes([], Segments(rest));
    ToValidKeepsKind(Segments(rest)[|Segments(rest)| - 1]);
    ToValidOfAscii(SLASH, []);
  }

  /** Cleaning a repaired path is repairing the cleaned one. */
  lemma SafePathCommutes(p: Bytes)
    ensures SafeReturnPathFrom(ToValid(p)) == ToValid(SafeReturnPathFrom(p))
  {
    hide ToValid, TargetSegments, Join;
    ResolverAgreesWhenAccepted(p);
    ResolverAgreesWhenAccepted(ToValid(p));
    AcceptedCommutes(p);
    if Accepted(p) {
      var outs := TargetSegments(p);
      TargetSegmentsCommute(p);
      TargetParts(p);
      PartsCommute(p);
      PartsCommute(Target(p));
      JoinCommutes(outs);
      TargetFront(p);
      ToValidOfAscii(SLASH, Join(outs));
    } else {
      ToValidOfAscii(SLASH, []);
      assert [SLASH] + [] == [SLASH];
    }
  }

  lemma TargetFront(p: Bytes)
    requires Accepted(p)
    ensures PathPart(Target(p)) == [SLASH] + Join(TargetSegments(p))
  {
    hide Join, Segments, TargetSegments;
    TargetParts(p);
    var front := PathPart(Target(p));
    JoinSegments(front[1..]);
    assert front == [front[0]] + front[1..];
  }

  /** A repaired answer is an answer: cleaning it again changes nothing. */
  lemma RepairedAnswerIsStable(p: Bytes)
    ensures SafeReturnPathFrom(ToValid(SafeReturnPathFrom(p))) == ToValid(SafeReturnPathFrom(p))
    ensures ToValid(SafeReturnPathFrom(p)) != []
    ensures SafeReturnPathFrom(p)[0] == SLASH
  {
    hide ToValid, SafeReturnPathFrom;
    SafePathCommutes(SafeReturnPathFrom(p));
    Idempotent(p);
    AnswerIsNormal(p);
    ToValidKeepsAscii(SafeReturnPathFrom(p), SLASH);
  }
}
