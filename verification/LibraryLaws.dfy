/**
 * The laws assumed of the libraries can be met: a self-delimiting codec for claim objects
 * and a notation for prefixes that satisfy them.
 */
module LibraryLaws {
  import opened Bytes
  import opened Wrappers
  import opened Netip
  import opened SignedValue
  import opened Tokens
  import opened IpList

  /** A value read off the front of a text, and the text behind it. */
  type Read<T> = Option<(T, Bytes)>

  // ---------------------------------------------------------------------------------
  // Claim objects
  // ---------------------------------------------------------------------------------

  function EncNat(n: nat): Bytes {
    if n == 0 then [0] else [1] + EncNat(n - 1)
  }

  function DecNat(b: Bytes): (r: Read<nat>)
    ensures r.Some? ==> |r.value.1| < |b|
  {
    if b == [] then None
    else if b[0] == 0 then Some((0, b[1..]))
    else
      match DecNat(b[1..])
      case None => None
      case Some((n, rest)) => Some((n + 1, rest))
  }

  lemma {:induction false} NatRoundTrip(n: nat, rest: Bytes)
    ensures DecNat(EncNat(n) + rest) == Some((n, rest))
  {
    if n == 0 {
      assert ([0] + rest)[1..] == rest;
    } else {
      NatRoundTrip(n - 1, rest);
      assert EncNat(n) + rest == [1] + (EncNat(n - 1) + rest);
      assert ([1] + (EncNat(n - 1) + rest))[1..] == EncNat(n - 1) + rest;
    }
  }

  function EncBytes(t: Bytes): Bytes {
    if t == [] then [0] else [1, t[0]] + EncBytes(t[1..])
  }

  function DecBytes(b: Bytes): (r: Read<Bytes>)
    ensures r.Some? ==> |r.value.1| < |b|
  {
    if b == [] then None
    else if b[0] == 0 then Some(([], b[1..]))
    else if |b| == 1 then None
    else
      match DecBytes(b[2..])
      case None => None
      case Some((t, rest)) => Some(([b[1]] + t, rest))
  }

  lemma {:induction false} BytesRoundTrip(t: Bytes, rest: Bytes)
    ensures DecBytes(EncBytes(t) + rest) == Some((t, rest))
  {
    if t == [] {
      assert ([0] + rest)[1..] == rest;
    } else {
      BytesRoundTrip(t[1..], rest);
      var behind := EncBytes(t[1..]) + rest;
      assert EncBytes(t) + rest == [1, t[0]] + behind;
      assert ([1, t[0]] + behind)[2..] == behind;
      assert [t[0]] + t[1..] == t;
    }
  }

  predicate IsScalarValue(n: nat) {
    n < 0xD800 || 0xE000 <= n < 0x11_0000
  }

  function EncString(s: string): Bytes {
    if s == "" then [0] else [1] + EncNat(s[0] as int) + EncString(s[1..])
  }

  function DecString(b: Bytes): (r: Read<string>)
    ensures r.Some? ==> |r.value.1| < |b|
    decreases |b|
  {
    if b == [] then None
    else if b[0] == 0 then Some(("", b[1..]))
    else
      match DecNat(b[1..])
      case None => None
      case Some((n, more)) =>
        if !IsScalarValue(n) then None
        else
          match DecString(more)
          case None => None
          case Some((s, rest)) => Some(([n as char] + s, rest))
  }

  lemma {:induction false} StringRoundTrip(s: string, rest: Bytes)
    ensures DecString(EncString(s) + rest) == Some((s, rest))
  {
    if s == "" {
      assert ([0] + rest)[1..] == rest;
    } else {
      hide EncNat, DecNat;
      var code, behind := EncNat(s[0] as int), EncString(s[1..]) + rest;
      StringRoundTrip(s[1..], rest);
      NatRoundTrip(s[0] as int, behind);
      assert EncString(s) + rest == [1] + (code + behind);
      assert ([1] + (code + behind))[1..] == code + behind;
      assert [s[0]] + s[1..] == s;
    }
  }

  function EncScalar(v: Scalar): Bytes {
    match v
    case Number(n) => [if n >= 0 then 0 else 1] + EncNat(Magnitude(n))
    case Text(t) => [2] + EncBytes(t)
  }

  function Magnitude(n: int): nat {
    if n >= 0 then n else -n
  }

  function DecScalar(b: Bytes): (r: Read<Scalar>)
    ensures r.Some? ==> |r.value.1| < |b|
  {
    if b == [] then None
    else if b[0] == 2 then
      match DecBytes(b[1..])
      case None => None
      case Some((t, rest)) => Some((Text(t), rest))
    else
      match DecNat(b[1..])
      case None => None
      case Some((n, rest)) => Some((Number((if b[0] == 0 then 1 else -1) * n), rest))
  }

  lemma Untagged(tag: byte, body: Bytes, rest: Bytes)
    ensures [tag] + body + rest == [tag] + (body + rest)
    ensures ([tag] + (body + rest))[1..] == body + rest
  {
  }

  lemma ScalarRoundTrip(v: Scalar, rest: Bytes)
    ensures DecScalar(EncScalar(v) + rest) == Some((v, rest))
  {
    hide EncNat, DecNat, EncBytes, DecBytes;
    match v
    case Text(t) =>
      BytesRoundTrip(t, rest);
      Untagged(2, EncBytes(t), rest);
    case Number(n) =>
      NatRoundTrip(Magnitude(n), rest);
      Untagged(if n >= 0 then 0 else 1, EncNat(Magnitude(n)), rest);
  }

  function EncJson(json: Json): Bytes {
    if json == [] then [0] else [1] + EncString(json[0].name) + EncScalar(json[0].value) + EncJson(json[1..])
  }

  function DecJson(b: Bytes): Option<Json>
    decreases |b|
  {
    if b == [0] then Some([])
    else if b == [] then None
    else
      match DecString(b[1..])
      case None => None
      case Some((name, more)) =>
        match DecScalar(more)
        case None => None
        case Some((value, rest)) =>
          match DecJson(rest)
          case None => None
          case Some(fields) => Some([Field(name, value)] + fields)
  }

  lemma FieldRoundTrip(f: Field, more: Json)
    requires DecJson(EncJson(more)) == Some(more)
    ensures EncJson([f] + more) != [] && DecJson(EncJson([f] + more)) == Some([f] + more)
  {
    hide EncString, DecString, EncScalar, DecScalar;
    var behind := EncJson(more);
    ScalarRoundTrip(f.value, behind);
    StringRoundTrip(f.name, EncScalar(f.value) + behind);
    assert ([f] + more)[1..] == more;
    var b := EncString(f.name) + (EncScalar(f.value) + behind);
    assert EncJson([f] + more) == [1] + b && ([1] + b)[1..] == b;
  }

  lemma {:induction false} JsonCodecRoundTrip(json: Json)
    ensures EncJson(json) != [] && DecJson(EncJson(json)) == Some(json)
  {
    if json != [] {
      JsonCodecRoundTrip(json[1..]);
      FieldRoundTrip(json[0], json[1..]);
      assert [json[0]] + json[1..] == json;
    }
  }

  function ThirtyTwo(x: byte): Bytes {
    seq(32, _ => x)
  }

  /** Such libraries exist, with keys that differ between the two contexts. */
  lemma PrimitivesExist() returns (pr: Primitives)
    ensures Lawful(pr)
    ensures forall secret :: pr.deriveKey(RETURN_STATE_CONTEXT, secret) != pr.deriveKey(COOKIE_MAC_CONTEXT, secret)
  {
    pr := Primitives(
      (key: Bytes, data: string) => ThirtyTwo(0),
      (context: string, secret: Bytes) => ThirtyTwo(if context == RETURN_STATE_CONTEXT then 1 else 2),
      json => EncJson(json), b => DecJson(b));
    forall json: Json
      ensures pr.encodeJson(json) != [] && pr.decodeJson(pr.encodeJson(json)) == Some(json)
    {
      JsonCodecRoundTrip(json);
    }
    ContextsDiffer();
    assert ThirtyTwo(1)[0] != ThirtyTwo(2)[0];
  }

  lemma ContextsDiffer()
    ensures RETURN_STATE_CONTEXT != COOKIE_MAC_CONTEXT
  {
    assert RETURN_STATE_CONTEXT[16] != COOKIE_MAC_CONTEXT[16];
  }

  // ---------------------------------------------------------------------------------
  // Prefixes
  // ---------------------------------------------------------------------------------

  function Marks(n: nat): (s: string)
    ensures |s| == n && '/' !in s && '\n' !in s
  {
    seq(n, _ => '1')
  }

  function PrefixText(p: Prefix): string {
    [if p.addr.V4? then '4' else '6'] + (Marks(p.addr.Value()) + ['/'] + Marks(p.bits))
  }

  function PrefixOf(s: string): Option<Prefix> {
    if s == "" || '\n' in s then None
    else
      var body := s[1..];
      var value := IndexOf(body, '/');
      if value == |body| then None
      else
        var bits := |body| - value - 1;
        if s[0] == '4' && value < 0x1_0000_0000 && bits <= 32 then Some(Prefix(V4(value), bits))
        else if s[0] == '6' && value < 0x1_0000_0000_0000_0000_0000_0000_0000_0000 && bits <= 128 then
          Some(Prefix(V6(value, ""), bits))
        else None
  }

  lemma PrefixTextRoundTrip(p: Prefix)
    requires p.Valid()
    ensures PrefixOf(PrefixText(p)) == Some(p)
  {
    var body := Marks(p.addr.Value()) + ['/'] + Marks(p.bits);
    IndexOfSplit(Marks(p.addr.Value()), '/', Marks(p.bits));
    assert PrefixText(p)[1..] == body && '\n' !in body;
  }

  /** And two addresses to write down. */
  function AddrOf(s: string): Option<Addr> {
    if s == "0" then Some(V4(0)) else if s == "1" then Some(V4(1)) else None
  }

  lemma AddrTextExists() returns (net: AddrText)
    ensures LawfulText(net)
    ensures net.parseAddr("0") == Some(V4(0)) && net.parseAddr("1") == Some(V4(1))
  {
    net := AddrText(s => AddrOf(s), s => PrefixOf(s), p => PrefixText(p));
    forall p: Prefix | p.Valid()
      ensures net.parsePrefix(net.prefixString(p)) == Some(p)
    {
      PrefixTextRoundTrip(p);
    }
  }
}
