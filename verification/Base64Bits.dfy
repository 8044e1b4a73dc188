/** base64url by sections 4 and 5 of RFC 4648: the bits of the bytes, regrouped by six, and the alphabet. */
module Base64Bits {
  import opened Bits
  import opened Bytes
  import opened Base64Url

  const UPPER: string := "ABCDEFGHIJKLMNOPQRSTUVWXYZ"
  const LOWER: string := "abcdefghijklmnopqrstuvwxyz"
  const DECIMAL: string := "0123456789"
  const ALPHABET: string := UPPER + LOWER + DECIMAL + "-_"

  ghost function ByteBits(b: Bytes): (bits: seq<bool>)
    ensures |bits| == 8 * |b|
  {
    if b == [] then [] else BitsOf(b[0], 8) + ByteBits(b[1..])
  }

  /** The bits behind a text of digits, six for each. */
  ghost function DigitBits(values: seq<Sextet>): (bits: seq<bool>)
    ensures |bits| == 6 * |values|
  {
    if values == [] then [] else BitsOf(values[0], 6) + DigitBits(values[1..])
  }

  lemma UpperCase(c: char)
    ensures |UPPER| == 26 && forall k :: 0 <= k < 26 ==> UPPER[k] == 'A' + k as char
    ensures c in UPPER <==> 'A' <= c <= 'Z'
  {
    if 'A' <= c <= 'Z' {
      assert UPPER[(c - 'A') as int] == c;
    }
  }

  lemma LowerCase(c: char)
    ensures |LOWER| == 26 && forall k :: 0 <= k < 26 ==> LOWER[k] == 'a' + k as char
    ensures c in LOWER <==> 'a' <= c <= 'z'
  {
    if 'a' <= c <= 'z' {
      assert LOWER[(c - 'a') as int] == c;
    }
  }

  lemma Decimals(c: char)
    ensures |DECIMAL| == 10 && forall k :: 0 <= k < 10 ==> DECIMAL[k] == '0' + k as char
    ensures c in DECIMAL <==> '0' <= c <= '9'
  {
    if '0' <= c <= '9' {
      assert DECIMAL[(c - '0') as int] == c;
    }
  }

  lemma DigitsExactly(v: Sextet, c: char)
    ensures |ALPHABET| == 64 && Digit(v) == ALPHABET[v]
    ensures ValueOf(c).Some? <==> c in ALPHABET
    ensures c in ALPHABET ==> ALPHABET[ValueOf(c).value] == c
  {
    hide UPPER, LOWER, DECIMAL;
    UpperCase(c);
    LowerCase(c);
    Decimals(c);
    assert c in ALPHABET <==> c in UPPER || c in LOWER || c in DECIMAL || c == '-' || c == '_';
    assert forall k :: 0 <= k < 26 ==> ALPHABET[k] == UPPER[k] && ALPHABET[26 + k] == LOWER[k];
    assert forall k :: 0 <= k < 10 ==> ALPHABET[52 + k] == DECIMAL[k];
    assert ALPHABET[62] == '-' && ALPHABET[63] == '_';
    DigitAt(v);
  }

  lemma DigitAt(v: Sextet)
    ensures |ALPHABET| == 64 && Digit(v) == ALPHABET[v]
  {
    hide UPPER, LOWER, DECIMAL;
    UpperCase('A');
    LowerCase('a');
    Decimals('0');
    assert v < 26 ==> ALPHABET[v] == UPPER[v];
    assert 26 <= v < 52 ==> ALPHABET[v] == LOWER[v - 26];
    assert 52 <= v < 62 ==> ALPHABET[v] == DECIMAL[v - 52];
  }

  lemma Regroup(a: seq<bool>, b: seq<bool>, c: seq<bool>, d: seq<bool>, e: seq<bool>, f: seq<bool>)
    ensures (a + b) + (c + d) + (e + f) == a + (b + c) + (d + e) + f
  {
  }

  /** A byte in six and two bits, in four and four, in two and six; and the digits in between. */
  lemma ByteParts(x: byte)
    ensures BitsOf(x, 8) == BitsOf(x / 4, 6) + BitsOf(x % 4, 2)
    ensures BitsOf(x, 8) == BitsOf(x / 16, 4) + BitsOf(x % 16, 4)
    ensures BitsOf(x, 8) == BitsOf(x / 64, 2) + BitsOf(x % 64, 6)
  {
    hide BitsOf, Pow2;
    SmallPowers();
    BitsSplit(x, 6, 2, x / 4, x % 4);
    BitsSplit(x, 4, 4, x / 16, x % 16);
    BitsSplit(x, 2, 6, x / 64, x % 64);
  }

  lemma DigitParts(v: Sextet)
    ensures BitsOf(v, 6) == BitsOf(v / 16, 2) + BitsOf(v % 16, 4)
    ensures BitsOf(v, 6) == BitsOf(v / 4, 4) + BitsOf(v % 4, 2)
  {
    hide BitsOf, Pow2;
    SmallPowers();
    BitsSplit(v, 2, 4, v / 16, v % 16);
    BitsSplit(v, 4, 2, v / 4, v % 4);
  }

  lemma DigitJoined(a: nat, b: nat)
    ensures a < 4 && b < 16 ==> BitsOf(a * 16 + b, 6) == BitsOf(a, 2) + BitsOf(b, 4)
    ensures a < 16 && b < 4 ==> BitsOf(a * 4 + b, 6) == BitsOf(a, 4) + BitsOf(b, 2)
  {
    hide BitsOf, Pow2;
    SmallPowers();
    if a < 4 && b < 16 {
      BitsSplit(a * 16 + b, 2, 4, a, b);
    }
    if a < 16 && b < 4 {
      BitsSplit(a * 4 + b, 4, 2, a, b);
    }
  }

  /** Three bytes and four digits have the same 24 bits. */
  lemma GroupBits(x: byte, y: byte, z: byte)
    ensures BitsOf(x, 8) + BitsOf(y, 8) + BitsOf(z, 8) ==
            BitsOf(x / 4, 6) + BitsOf(x % 4 * 16 + y / 16, 6) + BitsOf(y % 16 * 4 + z / 64, 6) + BitsOf(z % 64, 6)
  {
    hide BitsOf, Pow2;
    ByteParts(x);
    ByteParts(y);
    ByteParts(z);
    DigitJoined(x % 4, y / 16);
    DigitJoined(y % 16, z / 64);
    Regroup(BitsOf(x / 4, 6), BitsOf(x % 4, 2), BitsOf(y / 16, 4), BitsOf(y % 16, 4), BitsOf(z / 64, 2),
            BitsOf(z % 64, 6));
  }

  function Zeros(n: nat): (zeros: seq<bool>)
    ensures |zeros| == n
  {
    seq(n, _ => false)
  }

  lemma ZeroRows(m: nat, n: nat)
    ensures BitsOf(0, n) == Zeros(n) && Zeros(m) + Zeros(n) == Zeros(m + n)
  {
    ZeroBits(n);
  }

  lemma BytesCons(x: byte, rest: Bytes)
    ensures ByteBits([x] + rest) == BitsOf(x, 8) + ByteBits(rest)
    ensures ByteBits([]) == []
  {
    assert ([x] + rest)[1..] == rest;
  }

  lemma DigitsCons(v: Sextet, rest: seq<Sextet>)
    ensures DigitBits([v] + rest) == BitsOf(v, 6) + DigitBits(rest)
    ensures DigitBits([]) == []
  {
    assert ([v] + rest)[1..] == rest;
  }

  lemma ThreeBytes(x: byte, y: byte, z: byte, rest: Bytes)
    ensures ByteBits([x, y, z] + rest) == BitsOf(x, 8) + BitsOf(y, 8) + BitsOf(z, 8) + ByteBits(rest)
  {
    hide BitsOf, ByteBits;
    BytesCons(x, [y, z] + rest);
    BytesCons(y, [z] + rest);
    BytesCons(z, rest);
    assert [x, y, z] + rest == [x] + ([y, z] + rest) && [y, z] + rest == [y] + ([z] + rest);
  }

  lemma FourDigits(a: Sextet, b: Sextet, c: Sextet, d: Sextet, rest: seq<Sextet>)
    ensures DigitBits([a, b, c, d] + rest) ==
            BitsOf(a, 6) + BitsOf(b, 6) + BitsOf(c, 6) + BitsOf(d, 6) + DigitBits(rest)
  {
    hide BitsOf, DigitBits;
    DigitsCons(a, [b, c, d] + rest);
    DigitsCons(b, [c, d] + rest);
    DigitsCons(c, [d] + rest);
    DigitsCons(d, rest);
    assert [a, b, c, d] + rest == [a] + ([b, c, d] + rest) && [b, c, d] + rest == [b] + ([c, d] + rest);
    assert [c, d] + rest == [c] + ([d] + rest);
  }

  /** The digits carry the bits of the bytes, in order, and zeros to fill the last one up. */
  lemma {:induction false} EncodingRegroups(b: Bytes)
    ensures DigitBits(ToSextets(b)) == ByteBits(b) + Padding(|b|)
  {
    hide BitsOf, ByteBits, DigitBits, Padding;
    if |b| >= 3 {
      var rest := b[3..];
      EncodingRegroups(rest);
      GroupBits(b[0], b[1], b[2]);
      ThreeBytes(b[0], b[1], b[2], rest);
      assert b == [b[0], b[1], b[2]] + rest;
      FourDigits(b[0] / 4, b[0] % 4 * 16 + b[1] / 16, b[1] % 16 * 4 + b[2] / 64, b[2] % 64, ToSextets(rest));
      SamePadding(|b|);
    } else {
      ShortRegroups(b);
    }
  }

  function Padding(n: nat): seq<bool> {
    Zeros(if n % 3 == 0 then 0 else if n % 3 == 1 then 4 else 2)
  }

  lemma SamePadding(n: nat)
    requires n >= 3
    ensures Padding(n) == Padding(n - 3)
  {
  }

  lemma ShortDigits(b: Bytes)
    ensures b == [] ==> ToSextets(b) == []
    ensures |b| == 1 ==> ToSextets(b) == [b[0] / 4, b[0] % 4 * 16]
    ensures |b| == 2 ==> ToSextets(b) == [b[0] / 4, b[0] % 4 * 16 + b[1] / 16, b[1] % 16 * 4]
  {
  }

  lemma ShortPadding()
    ensures Padding(0) == [] && Padding(1) == Zeros(4) && Padding(2) == Zeros(2)
  {
  }

  lemma ShortRegroups(b: Bytes)
    requires |b| < 3
    ensures DigitBits(ToSextets(b)) == ByteBits(b) + Padding(|b|)
  {
    hide BitsOf, ByteBits, DigitBits, Zeros, ToSextets, Padding;
    ShortDigits(b);
    ShortPadding();
    if |b| == 0 {
      BytesCons(0, []);
      DigitsCons(0, []);
      assert b == [];
    } else if |b| == 1 {
      OneRegroups(b[0]);
      assert b == [b[0]];
    } else {
      TwoRegroup(b[0], b[1]);
      assert b == [b[0], b[1]];
    }
  }

  lemma OneRegroups(x: byte)
    ensures DigitBits([x / 4, x % 4 * 16]) == ByteBits([x]) + Zeros(4)
  {
    hide BitsOf, DigitBits, ByteBits, Zeros, Pow2;
    var first: Sextet, second: Sextet := x / 4, x % 4 * 16;
    BytesCons(x, []);
    DigitsCons(second, []);
    DigitsCons(first, [second]);
    ByteParts(x);
    DigitJoined(x % 4, 0);
    ZeroRows(0, 4);
    assert [x] == [x] + [] && [first, second] == [first] + [second] && [second] == [second] + [];
  }

  lemma TwoRegroup(x: byte, y: byte)
    ensures DigitBits([x / 4, x % 4 * 16 + y / 16, y % 16 * 4]) == ByteBits([x, y]) + Zeros(2)
  {
    hide BitsOf, DigitBits, ByteBits, Zeros, Pow2;
    var second, third := x % 4 * 16 + y / 16, y % 16 * 4;
    BytesCons(y, []);
    BytesCons(x, [y]);
    DigitsCons(third, []);
    DigitsCons(second, [third]);
    DigitsCons(x / 4, [second, third]);
    ByteParts(x);
    ByteParts(y);
    DigitJoined(x % 4, y / 16);
    DigitJoined(y % 16, 0);
    ZeroRows(0, 2);
    assert [x, y] == [x] + [y] && [y] == [y] + [] && [second, third] == [second] + [third];
    assert [x / 4, second, third] == [x / 4] + [second, third] && [third] == [third] + [];
  }

  /** What the encoder writes is those digits' letters. */
  lemma EncodingExactly(b: Bytes)
    ensures var text, values := EncodeToString(b), ToSextets(b);
            && |text| == |values| == (8 * |b| + 5) / 6
            && |ALPHABET| == 64 && forall i :: 0 <= i < |text| ==> text[i] == ALPHABET[values[i]]
  {
    hide ToSextets, ALPHABET;
    EncodingRegroups(b);
    DigitAt(0);
    var text, values := EncodeToString(b), ToSextets(b);
    forall i | 0 <= i < |text|
      ensures text[i] == ALPHABET[values[i]]
    {
      DigitAt(values[i]);
    }
  }

  // ---------------------------------------------------------------------------------
  // The decoder
  // ---------------------------------------------------------------------------------

  lemma BackParts(x: Sextet, y: Sextet, z: Sextet, w: Sextet)
    ensures First(x, y) < 256 && Second(y, z) < 256 && Third(z, w) < 256
    ensures BitsOf(First(x, y), 8) == BitsOf(x, 6) + BitsOf(y / 16, 2)
    ensures BitsOf(Second(y, z), 8) == BitsOf(y % 16, 4) + BitsOf(z / 4, 4)
    ensures BitsOf(Third(z, w), 8) == BitsOf(z % 4, 2) + BitsOf(w, 6)
  {
    hide BitsOf, Pow2;
    SmallPowers();
    BitsSplit(First(x, y), 6, 2, x, y / 16);
    BitsSplit(Second(y, z), 4, 4, y % 16, z / 4);
    BitsSplit(Third(z, w), 2, 6, z % 4, w);
  }

  lemma GroupBack(x: Sextet, y: Sextet, z: Sextet, w: Sextet)
    ensures BitsOf(First(x, y), 8) + BitsOf(Second(y, z), 8) + BitsOf(Third(z, w), 8) ==
            BitsOf(x, 6) + BitsOf(y, 6) + BitsOf(z, 6) + BitsOf(w, 6)
    ensures First(x, y) < 256 && Second(y, z) < 256 && Third(z, w) < 256
  {
    hide BitsOf, First, Second, Third;
    BackParts(x, y, z, w);
    DigitParts(y);
    DigitParts(z);
    Regroup(BitsOf(x, 6), BitsOf(y / 16, 2), BitsOf(y % 16, 4), BitsOf(z / 4, 4), BitsOf(z % 4, 2), BitsOf(w, 6));
  }

  /** The bytes are the digits' bits, eight at a time; what is left over is dropped. */
  lemma {:induction false} DecodingRegroups(v: seq<Sextet>)
    ensures var b := FromSextets(v); |b| == 6 * |v| / 8 && ByteBits(b) == DigitBits(v)[..8 * |b|]
  {
    hide BitsOf, First, Second, Third, ByteBits, DigitBits;
    if |v| >= 4 {
      var rest, back := v[4..], FromSextets(v[4..]);
      DecodingRegroups(rest);
      GroupBack(v[0], v[1], v[2], v[3]);
      ThreeBytes(First(v[0], v[1]), Second(v[1], v[2]), Third(v[2], v[3]), back);
      FourDigits(v[0], v[1], v[2], v[3], rest);
      assert v == [v[0], v[1], v[2], v[3]] + rest;
      JoinedPrefix(BitsOf(v[0], 6) + BitsOf(v[1], 6) + BitsOf(v[2], 6) + BitsOf(v[3], 6), DigitBits(rest), 8 * |back|);
    } else {
      ShortDecodes(v);
    }
  }

  lemma JoinedPrefix(front: seq<bool>, back: seq<bool>, n: nat)
    requires |front| == 24 && n <= |back|
    ensures (front + back)[..24 + n] == front + back[..n]
  {
  }

  lemma ShortDecodes(v: seq<Sextet>)
    requires |v| < 4
    ensures var b := FromSextets(v); |b| == 6 * |v| / 8 && ByteBits(b) == DigitBits(v)[..8 * |b|]
  {
    if |v| == 2 {
      TwoDecode(v[0], v[1]);
      assert v == [v[0], v[1]];
    } else if |v| == 3 {
      ThreeDecode(v[0], v[1], v[2]);
      assert v == [v[0], v[1], v[2]];
    }
  }

  lemma TwoDecode(x: Sextet, y: Sextet)
    ensures First(x, y) < 256 && ByteBits([First(x, y)]) == DigitBits([x, y])[..8]
  {
    hide BitsOf, First, Second, Third, ByteBits, DigitBits;
    BackParts(x, y, 0, 0);
    DigitParts(y);
    BytesCons(First(x, y), []);
    DigitsCons(y, []);
    DigitsCons(x, [y]);
    assert [First(x, y)] == [First(x, y)] + [] && [x, y] == [x] + [y] && [y] == [y] + [];
    Prefix(BitsOf(x, 6) + BitsOf(y / 16, 2), BitsOf(y % 16, 4));
    assert DigitBits([x, y]) == BitsOf(x, 6) + BitsOf(y / 16, 2) + BitsOf(y % 16, 4);
  }

  lemma ThreeDecode(x: Sextet, y: Sextet, z: Sextet)
    ensures First(x, y) < 256 && Second(y, z) < 256
    ensures ByteBits([First(x, y), Second(y, z)]) == DigitBits([x, y, z])[..16]
  {
    hide BitsOf, First, Second, Third, ByteBits, DigitBits;
    BackParts(x, y, z, 0);
    DigitParts(y);
    DigitParts(z);
    var first: byte, second: byte := First(x, y), Second(y, z);
    BytesCons(second, []);
    BytesCons(first, [second]);
    DigitsCons(z, []);
    DigitsCons(y, [z]);
    DigitsCons(x, [y, z]);
    assert [first, second] == [first] + [second] && [second] == [second] + [];
    assert [x, y, z] == [x] + [y, z] && [y, z] == [y] + [z] && [z] == [z] + [];
    Regroup(BitsOf(x, 6), BitsOf(y / 16, 2), BitsOf(y % 16, 4), BitsOf(z / 4, 4), BitsOf(z % 4, 2), []);
    Prefix(BitsOf(first, 8) + BitsOf(second, 8), BitsOf(z % 4, 2));
    assert DigitBits([x, y, z]) == BitsOf(x, 6) + BitsOf(y, 6) + BitsOf(z, 6);
    assert DigitBits([x, y, z]) == BitsOf(first, 8) + BitsOf(second, 8) + BitsOf(z % 4, 2);
  }

  lemma Prefix(a: seq<bool>, b: seq<bool>)
    ensures (a + b)[..|a|] == a
  {
  }

  /** Line breaks are skipped wherever they stand. */
  lemma {:induction false} LineBreaksSkipped(front: string, c: char, back: string)
    requires c == '\n' || c == '\r'
    ensures WithoutLineBreaks(front + [c] + back) == WithoutLineBreaks(front + back)
  {
    if front == "" {
      assert ([] + [c] + back)[1..] == back && [] + back == back;
    } else {
      LineBreaksSkipped(front[1..], c, back);
      assert (front + [c] + back)[1..] == front[1..] + [c] + back;
      assert (front + back)[1..] == front[1..] + back;
    }
  }

  lemma {:induction false} OthersKept(s: string)
    requires '\n' !in s && '\r' !in s
    ensures WithoutLineBreaks(s) == s
  {
    if s != "" {
      OthersKept(s[1..]);
    }
  }

  /** These are the digits of the text, and these the bytes their bits make up. */
  ghost predicate Decoded(s: string, values: seq<Sextet>, b: Bytes) {
    && |values| == |s| && |ALPHABET| == 64
    && (forall i :: 0 <= i < |s| ==> ALPHABET[values[i]] == s[i])
    && |b| == 6 * |s| / 8 && ByteBits(b) == DigitBits(values)[..8 * |b|]
  }

  /**
   * A text without line breaks decodes exactly if it consists of digits and not of one too many,
   * and then to the bytes in its digits' bits.
   */
  lemma DecodingExactly(s: string)
    requires '\n' !in s && '\r' !in s
    ensures DecodeString(s).Some? <==> (forall i :: 0 <= i < |s| ==> s[i] in ALPHABET) && |s| % 4 != 1
    ensures DecodeString(s).Some? ==> exists values :: Decoded(s, values, DecodeString(s).value)
  {
    hide FromSextets, ALPHABET, ByteBits, DigitBits, ValueOf;
    OthersKept(s);
    DigitsExactly(0, 'A');
    forall i | 0 <= i < |s|
      ensures ValueOf(s[i]).Some? <==> s[i] in ALPHABET
      ensures s[i] in ALPHABET ==> ALPHABET[ValueOf(s[i]).value] == s[i]
    {
      DigitsExactly(0, s[i]);
    }
    if AllDigits(s) {
      DecodingRegroups(Values(s));
      assert |s| % 4 != 1 ==> Decoded(s, Values(s), DecodeString(s).value);
    }
  }
}
