/**
 * The UTF-8 repair that encoding/json applies to strings: every byte that starts no valid
 * encoding becomes the replacement character U+FFFD.
 */
module Utf8 {
  import opened Bytes

  const REPLACEMENT: Bytes := [0xEF, 0xBF, 0xBD]

  predicate Continues(s: Bytes, i: nat) {
    i < |s| && 0x80 <= s[i] <= 0xBF
  }

  predicate ContinuesIn(s: Bytes, lo: byte, hi: byte) {
    1 < |s| && lo <= s[1] <= hi
  }

  /** Length of the well-formed encoding at the front of s, 0 if there is none. */
  function RuneLen(s: Bytes): (n: nat)
    ensures n <= |s|
    ensures s != [] && s[0] < 0x80 <==> n == 1
    ensures forall k :: 1 <= k < n ==> s[k] >= 0x80
  {
    if s == [] then 0
    else if s[0] < 0x80 then 1
    else if 0xC2 <= s[0] <= 0xDF then
      if Continues(s, 1) then 2 else 0
    else if 0xE0 <= s[0] <= 0xEF then
      var lo := if s[0] == 0xE0 then 0xA0 else 0x80;
      var hi := if s[0] == 0xED then 0x9F else 0xBF;
      if ContinuesIn(s, lo, hi) && Continues(s, 2) then 3 else 0
    else if 0xF0 <= s[0] <= 0xF4 then
      var lo := if s[0] == 0xF0 then 0x90 else 0x80;
      var hi := if s[0] == 0xF4 then 0x8F else 0xBF;
      if ContinuesIn(s, lo, hi) && Continues(s, 2) && Continues(s, 3) then 4 else 0
    else 0
  }

  predicate IsValid(s: Bytes)
    decreases |s|
  {
    s == [] || (RuneLen(s) > 0 && IsValid(s[RuneLen(s)..]))
  }

  /** What the front of s is repaired to, and how many bytes that consumes. */
  function Head(s: Bytes): Bytes {
    if RuneLen(s) > 0 then s[..RuneLen(s)] else REPLACEMENT
  }

  function Step(s: Bytes): (n: nat)
    requires s != []
    ensures 1 <= n <= |s|
  {
    if RuneLen(s) > 0 then RuneLen(s) else 1
  }

  function ToValid(s: Bytes): Bytes
    decreases |s|
  {
    if s == [] then [] else Head(s) + ToValid(s[Step(s)..])
  }

  /** An ASCII byte behind a text has no say in how the front of the text is read. */
  lemma FrontIsLocal(s: Bytes, c: byte, rest: Bytes)
    requires s != [] && c < 0x80
    ensures Head(s + [c] + rest) == Head(s) && Step(s + [c] + rest) == Step(s)
  {
    assert RuneLen(s + [c] + rest) == RuneLen(s);
    assert (s + [c] + rest)[..RuneLen(s)] == s[..RuneLen(s)];
  }

  /** The repaired front is one well-formed encoding, whatever follows it. */
  lemma HeadIsRune(s: Bytes, rest: Bytes)
    requires s != []
    ensures RuneLen(Head(s) + rest) == |Head(s)| > 0
  {
  }

  lemma ToValidOfAscii(c: byte, rest: Bytes)
    requires c < 0x80
    ensures ToValid([c] + rest) == [c] + ToValid(rest)
    ensures ToValid([]) == []
  {
    var whole := [c] + rest;
    assert Head(whole) == [c] && Step(whole) == 1;
    assert whole[1..] == rest;
  }

  /** The repair works on the two sides of an ASCII byte separately. */
  lemma {:induction false} ToValidSplits(s: Bytes, c: byte, rest: Bytes)
    requires c < 0x80
    ensures ToValid(s + [c] + rest) == ToValid(s) + [c] + ToValid(rest)
    decreases |s|
  {
    hide Head, Step;
    var whole := s + [c] + rest;
    if s == [] {
      ToValidOfAscii(c, rest);
      assert whole == [c] + rest;
    } else {
      var more := s[Step(s)..];
      FrontIsLocal(s, c, rest);
      ToValidSplits(more, c, rest);
      assert whole[Step(s)..] == more + [c] + rest;
      assert Head(s) + (ToValid(more) + [c] + ToValid(rest)) == Head(s) + ToValid(more) + [c] + ToValid(rest);
    }
  }

  lemma {:induction false} ToValidIsValid(s: Bytes)
    ensures IsValid(ToValid(s))
    decreases |s|
  {
    hide RuneLen, Head;
    if s != [] {
      var rest := ToValid(s[Step(s)..]);
      ToValidIsValid(s[Step(s)..]);
      HeadIsRune(s, rest);
      assert (Head(s) + rest)[|Head(s)|..] == rest;
    }
  }

  /** Valid text, and no other, is left alone. */
  lemma {:induction false} ToValidFixesValid(s: Bytes)
    ensures ToValid(s) == s <==> IsValid(s)
    decreases |s|
  {
    hide RuneLen;
    if s != [] {
      HeadIsRune(s, ToValid(s[Step(s)..]));
      var n := RuneLen(s);
      if n > 0 {
        ToValidFixesValid(s[n..]);
        assert ToValid(s)[n..] == ToValid(s[n..]);
        assert s == s[..n] + s[n..];
      }
    }
  }

  /** ASCII bytes neither appear nor disappear. */
  lemma {:induction false} ToValidKeepsAscii(s: Bytes, c: byte)
    requires c < 0x80
    ensures c in ToValid(s) <==> c in s
    ensures ToValid(s) == [] <==> s == []
    decreases |s|
  {
    if s != [] {
      hide RuneLen;
      var n := Step(s);
      ToValidKeepsAscii(s[n..], c);
      assert s == s[..n] + s[n..];
      assert c in Head(s) <==> c in s[..n] by {
        HeadKeepsAscii(s, c);
      }
    }
  }

  lemma HeadKeepsAscii(s: Bytes, c: byte)
    requires c < 0x80 && s != []
    ensures c in Head(s) <==> c in s[..Step(s)]
  {
    if RuneLen(s) == 0 {
      assert s[..1] == [s[0]];
    }
  }

  predicate Ascii(s: Bytes) {
    forall i :: 0 <= i < |s| ==> s[i] < 0x80
  }

  /** Text that is ASCII after the repair was not changed by it. */
  lemma {:induction false} AsciiResultUnchanged(s: Bytes)
    requires Ascii(ToValid(s))
    ensures ToValid(s) == s
    decreases |s|
  {
    hide RuneLen;
    if s != [] {
      var rest := ToValid(s[Step(s)..]);
      assert ToValid(s) == Head(s) + rest;
      assert ToValid(s)[0] == Head(s)[0] < 0x80 by {
        HeadIsRune(s, rest);
      }
      assert RuneLen(s) > 0;
      assert rest == ToValid(s)[|Head(s)|..];
      AsciiResultUnchanged(s[Step(s)..]);
      assert s == s[..Step(s)] + s[Step(s)..];
    }
  }

  lemma {:induction false} AsciiIsValid(s: Bytes)
    requires Ascii(s)
    ensures IsValid(s) && ToValid(s) == s
    decreases |s|
  {
    if s != [] {
      AsciiIsValid(s[1..]);
      ToValidFixesValid(s);
    }
  }
}
