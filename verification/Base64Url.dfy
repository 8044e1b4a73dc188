/**
 * base64.RawURLEncoding: the URL-safe alphabet of section 5 of RFC 4648 without padding, and
 * Go's decoder, which skips line breaks and ignores unused trailing bits.
 */
module Base64Url {
  import opened Bytes
  import opened Wrappers

  type Sextet = x: int | 0 <= x < 64

  function Digit(v: Sextet): char {
    if v < 26 then 'A' + v as char
    else if v < 52 then 'a' + (v - 26) as char
    else if v < 62 then '0' + (v - 52) as char
    else if v == 62 then '-' else '_'
  }

  function ValueOf(c: char): Option<Sextet> {
    if 'A' <= c <= 'Z' then Some((c - 'A') as int)
    else if 'a' <= c <= 'z' then Some((c - 'a') as int + 26)
    else if '0' <= c <= '9' then Some((c - '0') as int + 52)
    else if c == '-' then Some(62)
    else if c == '_' then Some(63)
    else None
  }

  function Digits(values: seq<Sextet>): (s: string)
    ensures |s| == |values|
    ensures forall i :: 0 <= i < |s| ==> s[i] == Digit(values[i])
  {
    if values == [] then "" else [Digit(values[0])] + Digits(values[1..])
  }

  /** The bytes in groups of six bits, the last group filled up with zero bits. */
  function ToSextets(b: Bytes): seq<Sextet> {
    if b == [] then []
    else if |b| == 1 then [b[0] / 4, b[0] % 4 * 16]
    else if |b| == 2 then [b[0] / 4, b[0] % 4 * 16 + b[1] / 16, b[1] % 16 * 4]
    else [b[0] / 4, b[0] % 4 * 16 + b[1] / 16, b[1] % 16 * 4 + b[2] / 64, b[2] % 64] + ToSextets(b[3..])
  }

  /** Four bytes' worth of bit arithmetic, on plain integers. */
  function First(x: nat, y: nat): nat { x * 4 + y / 16 }

  function Second(y: nat, z: nat): nat { y % 16 * 16 + z / 4 }

  function Third(z: nat, w: nat): nat { z % 4 * 64 + w }

  /** Whole bytes from groups of six bits; what is left over is dropped. */
  function FromSextets(v: seq<Sextet>): Bytes {
    if |v| < 2 then []
    else if |v| == 2 then [First(v[0], v[1])]
    else if |v| == 3 then [First(v[0], v[1]), Second(v[1], v[2])]
    else [First(v[0], v[1]), Second(v[1], v[2]), Third(v[2], v[3])] + FromSextets(v[4..])
  }

  function EncodeToString(b: Bytes): string {
    Digits(ToSextets(b))
  }

  function WithoutLineBreaks(s: string): string {
    if s == "" then ""
    else (if s[0] == '\n' || s[0] == '\r' then "" else [s[0]]) + WithoutLineBreaks(s[1..])
  }

  predicate AllDigits(s: string) {
    forall i :: 0 <= i < |s| ==> ValueOf(s[i]).Some?
  }

  function Values(s: string): (values: seq<Sextet>)
    requires AllDigits(s)
  {
    seq(|s|, i requires 0 <= i < |s| => ValueOf(s[i]).value)
  }

  function DecodeString(s: string): Option<Bytes> {
    var digits := WithoutLineBreaks(s);
    if !AllDigits(digits) || |digits| % 4 == 1 then None
    else Some(FromSextets(Values(digits)))
  }

  /** Three bytes in four groups of six bits. */
  lemma GroupRoundTrip(x: byte, y: byte, z: byte)
    ensures First(x / 4, x % 4 * 16 + y / 16) == x
    ensures Second(x % 4 * 16 + y / 16, y % 16 * 4 + z / 64) == y
    ensures Third(y % 16 * 4 + z / 64, z % 64) == z
  {
  }

  lemma {:induction false} SextetsRoundTrip(b: Bytes)
    ensures |ToSextets(b)| % 4 != 1
    ensures FromSextets(ToSextets(b)) == b
    ensures ToSextets(b) == [] <==> b == []
  {
    hide First, Second, Third;
    if |b| >= 3 {
      var rest := ToSextets(b[3..]);
      SextetsRoundTrip(b[3..]);
      GroupRoundTrip(b[0], b[1], b[2]);
      assert ToSextets(b)[4..] == rest;
      assert b == [b[0], b[1], b[2]] + b[3..];
    } else if |b| > 0 {
      GroupRoundTrip(b[0], if |b| > 1 then b[1] else 0, 0);
    }
  }

  lemma DigitRoundTrip(v: Sextet)
    ensures ValueOf(Digit(v)) == Some(v)
  {
  }

  lemma {:induction false} NoLineBreaks(s: string)
    requires AllDigits(s)
    ensures WithoutLineBreaks(s) == s
  {
    if s != "" {
      assert ValueOf(s[0]).Some?;
      NoLineBreaks(s[1..]);
    }
  }

  lemma DigitsRoundTrip(values: seq<Sextet>)
    ensures AllDigits(Digits(values)) && Values(Digits(values)) == values
    ensures WithoutLineBreaks(Digits(values)) == Digits(values)
  {
    forall i | 0 <= i < |values|
      ensures ValueOf(Digits(values)[i]) == Some(values[i])
    {
      DigitRoundTrip(values[i]);
    }
    NoLineBreaks(Digits(values));
  }

  /** For every payload: decoding the encoding gives it back, and the text contains no '.'. */
  lemma EncodingRoundTrip(b: Bytes)
    ensures DecodeString(EncodeToString(b)) == Some(b)
    ensures '.' !in EncodeToString(b)
    ensures EncodeToString(b) == "" <==> b == []
  {
    hide ToSextets, FromSextets, AllDigits, Values, WithoutLineBreaks;
    SextetsRoundTrip(b);
    DigitsRoundTrip(ToSextets(b));
    NoDotDigit();
  }

  lemma NoDotDigit()
    ensures forall v: Sextet :: Digit(v) != '.'
  {
  }

  /** The decoder is not injective: unused trailing bits and line breaks do not matter. */
  lemma DecoderIsLenient()
    ensures DecodeString("QQ") == DecodeString("QR") == DecodeString("Q\nQ") == Some([65])
  {
    assert WithoutLineBreaks("QQ") == "QQ" && WithoutLineBreaks("QR") == "QR";
    assert "Q\nQ"[1..] == "\nQ" && "\nQ"[1..] == "Q" && "Q"[1..] == "";
    assert WithoutLineBreaks("\nQ") == "" + WithoutLineBreaks("Q");
    assert Values("QQ") == [16, 16] && Values("QR") == [16, 17];
  }
}
