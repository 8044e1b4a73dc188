/** Well-formed UTF-8 by what it encodes: section 3 of RFC 3629, for all scalar values. */
module Utf8Runes {
  import opened Bytes
  import opened Text
  import opened Utf8

  /** The encoding of one scalar value, six bits to a continuation byte. */
  function EncodeRune(c: char): (b: Bytes)
    ensures 1 <= |b| <= 4
  {
    var n := c as int;
    if n < 0x80 then [n]
    else if n < 0x800 then [0xC0 + n / 0x40, 0x80 + n % 0x40]
    else if n < 0x1_0000 then [0xE0 + n / 0x1000, 0x80 + n / 0x40 % 0x40, 0x80 + n % 0x40]
    else [0xF0 + n / 0x4_0000, 0x80 + n / 0x1000 % 0x40, 0x80 + n / 0x40 % 0x40, 0x80 + n % 0x40]
  }

  function Encode(s: string): Bytes {
    if s == "" then [] else EncodeRune(s[0]) + Encode(s[1..])
  }

  /** The front of an encoding is read as one rune, whatever follows. */
  lemma RuneIsRead(c: char, rest: Bytes)
    ensures RuneLen(EncodeRune(c) + rest) == |EncodeRune(c)|
    ensures (EncodeRune(c) + rest)[|EncodeRune(c)|..] == rest
  {
  }

  /** The value behind two, three and four bytes, by the bits each carries. */
  lemma TwoBytes(a: int, b: int) returns (c: char)
    requires 2 <= a < 0x20 && 0 <= b < 0x40
    ensures EncodeRune(c) == [0xC0 + a, 0x80 + b]
  {
    var n := a * 0x40 + b;
    assert n / 0x40 == a && n % 0x40 == b;
    c := n as char;
  }

  lemma ThreeBytes(a: int, b: int, d: int) returns (c: char)
    requires 0 <= a < 0x10 && 0 <= b < 0x40 && 0 <= d < 0x40
    requires (a == 0 ==> b >= 0x20) && (a == 0xD ==> b < 0x20)
    ensures EncodeRune(c) == [0xE0 + a, 0x80 + b, 0x80 + d]
  {
    var n := a * 0x1000 + b * 0x40 + d;
    assert n / 0x40 == a * 0x40 + b && n % 0x40 == d;
    assert n / 0x1000 == a && (a * 0x40 + b) % 0x40 == b;
    c := n as char;
  }

  lemma FourBytes(a: int, b: int, d: int, e: int) returns (c: char)
    requires 0 <= a <= 4 && 0 <= b < 0x40 && 0 <= d < 0x40 && 0 <= e < 0x40
    requires (a == 0 ==> b >= 0x10) && (a == 4 ==> b < 0x10)
    ensures EncodeRune(c) == [0xF0 + a, 0x80 + b, 0x80 + d, 0x80 + e]
  {
    var n := a * 0x4_0000 + b * 0x1000 + d * 0x40 + e;
    assert n / 0x40 == a * 0x1000 + b * 0x40 + d && n % 0x40 == e;
    assert n / 0x1000 == a * 0x40 + b && (a * 0x1000 + b * 0x40 + d) % 0x40 == d;
    assert n / 0x4_0000 == a && (a * 0x40 + b) % 0x40 == b;
    c := n as char;
  }

  /** What is read as a rune is the encoding of one. */
  lemma RuneAtFront(s: Bytes) returns (c: char)
    requires RuneLen(s) > 0
    ensures s[..RuneLen(s)] == EncodeRune(c)
  {
    var n := RuneLen(s);
    if n == 1 {
      c := s[0] as char;
    } else {
      FrontRanges(s);
      hide EncodeRune, RuneLen;
      if n == 2 {
        c := TwoBytes(s[0] - 0xC0, s[1] - 0x80);
      } else if n == 3 {
        c := ThreeBytes(s[0] - 0xE0, s[1] - 0x80, s[2] - 0x80);
      } else {
        c := FourBytes(s[0] - 0xF0, s[1] - 0x80, s[2] - 0x80, s[3] - 0x80);
      }
    }
  }

  lemma FrontRanges(s: Bytes)
    ensures var n := RuneLen(s);
            && n <= 4 && (n == 2 ==> 0xC2 <= s[0] < 0xE0) && (n == 3 ==> 0xE0 <= s[0] < 0xF0)
            && (n == 4 ==> 0xF0 <= s[0] <= 0xF4)
            && (forall i :: 1 <= i < n ==> 0x80 <= s[i] < 0xC0)
            && (n == 3 && s[0] == 0xE0 ==> s[1] >= 0xA0) && (n == 3 && s[0] == 0xED ==> s[1] < 0xA0)
            && (n == 4 && s[0] == 0xF0 ==> s[1] >= 0x90) && (n == 4 && s[0] == 0xF4 ==> s[1] < 0x90)
  {
  }

  lemma {:induction false} EncodingIsValid(t: string)
    ensures IsValid(Encode(t))
  {
    hide RuneLen, EncodeRune;
    if t != "" {
      EncodingIsValid(t[1..]);
      RuneIsRead(t[0], Encode(t[1..]));
    }
  }

  lemma {:induction false} ValidIsEncoding(s: Bytes) returns (t: string)
    requires IsValid(s)
    ensures Encode(t) == s
    decreases |s|
  {
    hide RuneLen, EncodeRune;
    if s == [] {
      return "";
    }
    var c := RuneAtFront(s);
    var rest := ValidIsEncoding(s[RuneLen(s)..]);
    t := [c] + rest;
    assert t[1..] == rest && s == s[..RuneLen(s)] + s[RuneLen(s)..];
  }

  /** A text is valid exactly if it encodes some sequence of scalar values. */
  lemma ValidExactlyWhenEncoding(s: Bytes)
    ensures IsValid(s) <==> exists t: string :: Encode(t) == s
  {
    if IsValid(s) {
      var t := ValidIsEncoding(s);
    }
    if t: string :| Encode(t) == s {
      EncodingIsValid(t);
    }
  }

  /**
   * The repair, by what a text starts with: an encoded value is kept, and a byte that starts none
   * becomes U+FFFD on its own.
   */
  lemma RepairByRunes(s: Bytes, c: char, rest: Bytes)
    ensures ToValid([]) == []
    ensures ToValid(EncodeRune(c) + rest) == EncodeRune(c) + ToValid(rest)
    ensures s != [] && (forall r: char :: !(EncodeRune(r) <= s)) ==>
              ToValid(s) == EncodeRune('\U{FFFD}') + ToValid(s[1..])
  {
    RuneIsRead(c, rest);
    assert EncodeRune('\U{FFFD}') == REPLACEMENT;
    assert (EncodeRune(c) + rest)[..|EncodeRune(c)|] == EncodeRune(c);
    hide RuneLen, EncodeRune;
    if s != [] && RuneLen(s) > 0 {
      var r := RuneAtFront(s);
      assert EncodeRune(r) <= s;
    }
  }

  lemma {:induction false} ByteLenIsEncodedLength(s: string)
    ensures ByteLen(s) == |Encode(s)|
  {
    if s != "" {
      ByteLenIsEncodedLength(s[1..]);
    }
  }

  /** A scanner line is too long from 64 KiB on. */
  lemma TooLongExactly(line: string)
    ensures TooLong(line) <==> |Encode(line)| >= 65536
  {
    ByteLenIsEncodedLength(line);
  }
}
