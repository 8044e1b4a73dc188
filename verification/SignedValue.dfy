/**
 * signValue and verifySignedValue over an abstract keyed MAC and an abstract JSON codec.
 */
module SignedValue {
  import opened Bytes
  import opened Utf8
  import opened Wrappers
  import opened Base64Url

  /** The JSON objects that claims become: names, each with a number or a text. */
  datatype Scalar = Number(n: int) | Text(text: Bytes)

  datatype Field = Field(name: string, value: Scalar)

  type Json = seq<Field>

  ghost predicate ValidJson(json: Json) {
    forall i :: 0 <= i < |json| && json[i].value.Text? ==> IsValid(json[i].value.text)
  }

  const KEY_LENGTH: nat := 32

  /**
   * The library functions behind a signed value: BLAKE3 keyed hashing and key derivation,
   * and the JSON encoder and decoder.
   */
  datatype Primitives = Primitives(
    mac: (Bytes, string) -> Bytes,
    deriveKey: (string, Bytes) -> Bytes,
    encodeJson: Json -> Bytes,
    decodeJson: Bytes -> Option<Json>)

  /** MACs and keys have 32 bytes, and decoding an encoded object of valid texts gives it back. */
  ghost predicate Lawful(pr: Primitives) {
    && (forall key, data :: |pr.mac(key, data)| == 32)
    && (forall context, secret :: |pr.deriveKey(context, secret)| == KEY_LENGTH)
    && (forall json :: ValidJson(json) ==>
           pr.encodeJson(json) != [] && pr.decodeJson(pr.encodeJson(json)) == Some(json))
  }

  datatype SignError = BadKey

  datatype VerifyError = BadFormat | BadVerifyKey | BadMacText | WrongMac | BadPayload

  function KeyedMAC(pr: Primitives, key: Bytes, data: string): Result<Bytes, SignError> {
    if |key| != KEY_LENGTH then Failure(BadKey) else Success(pr.mac(key, data))
  }

  function SignValue(pr: Primitives, payload: Json, key: Bytes): Result<string, SignError> {
    var payloadPart := EncodeToString(pr.encodeJson(payload));
    match KeyedMAC(pr, key, payloadPart)
    case Failure(e) => Failure(e)
    case Success(mac) => Success(payloadPart + "." + EncodeToString(mac))
  }

  /** The text in front of the first '.', which is what a MAC covers. */
  function PayloadPart(raw: string): string {
    raw[..IndexOf(raw, '.')]
  }

  function MacPart(raw: string): string {
    if IndexOf(raw, '.') == |raw| then "" else raw[IndexOf(raw, '.') + 1..]
  }

  function VerifySignedValue(pr: Primitives, raw: string, key: Bytes): Result<Json, VerifyError> {
    var payloadPart, macPart := PayloadPart(raw), MacPart(raw);
    if IndexOf(raw, '.') == |raw| || payloadPart == "" || macPart == "" then Failure(BadFormat)
    else
      match KeyedMAC(pr, key, payloadPart)
      case Failure(_) => Failure(BadVerifyKey)
      case Success(expected) =>
        match DecodeString(macPart)
        case None => Failure(BadMacText)
        case Some(mac) =>
          if mac != expected then Failure(WrongMac)
          else
            match DecodeString(payloadPart)
            case None => Failure(BadPayload)
            case Some(bytes) =>
              match pr.decodeJson(bytes)
              case None => Failure(BadPayload)
              case Some(json) => Success(json)
  }

  /** The MAC a text carries is the right one for its payload part under this key. */
  predicate MacMatches(pr: Primitives, raw: string, key: Bytes) {
    |key| == KEY_LENGTH && DecodeString(MacPart(raw)) == Some(pr.mac(key, PayloadPart(raw)))
  }

  lemma SignedParts(pr: Primitives, payload: Json, key: Bytes)
    requires Lawful(pr) && ValidJson(payload) && |key| == KEY_LENGTH
    ensures var raw := SignValue(pr, payload, key);
            && raw.Success?
            && PayloadPart(raw.value) == EncodeToString(pr.encodeJson(payload)) != ""
            && MacPart(raw.value) == EncodeToString(pr.mac(key, PayloadPart(raw.value))) != ""
            && IndexOf(raw.value, '.') < |raw.value|
            && MacMatches(pr, raw.value, key)
  {
    hide EncodeToString, DecodeString, IndexOf;
    var payloadPart := EncodeToString(pr.encodeJson(payload));
    var mac := pr.mac(key, payloadPart);
    EncodingRoundTrip(pr.encodeJson(payload));
    EncodingRoundTrip(mac);
    IndexOfSplit(payloadPart, '.', EncodeToString(mac));
    assert payloadPart + "." + EncodeToString(mac) == payloadPart + ['.'] + EncodeToString(mac);
  }

  /** Verifying a signed value under the key that signed it recovers the payload. */
  lemma SignedValueRoundTrip(pr: Primitives, payload: Json, key: Bytes)
    requires Lawful(pr) && ValidJson(payload) && |key| == KEY_LENGTH
    ensures var raw := SignValue(pr, payload, key);
            raw.Success? && VerifySignedValue(pr, raw.value, key) == Success(payload)
  {
    hide EncodeToString, DecodeString, IndexOf;
    SignedParts(pr, payload, key);
    EncodingRoundTrip(pr.encodeJson(payload));
  }

  /**
   * Acceptance, exactly: the text is a nonempty payload without '.', a '.', and a text that
   * decodes to the MAC of that payload; and the payload decodes to the object returned.
   */
  lemma AcceptedExactlyWhenMacCovers(pr: Primitives, raw: string, key: Bytes, json: Json)
    requires Lawful(pr)
    ensures VerifySignedValue(pr, raw, key) == Success(json) <==>
            exists payloadPart: string, macPart: string ::
              && raw == payloadPart + ['.'] + macPart
              && '.' !in payloadPart && payloadPart != "" && |key| == 32
              && DecodeString(macPart) == Some(pr.mac(key, payloadPart))
              && DecodeString(payloadPart).Some? && pr.decodeJson(DecodeString(payloadPart).value) == Some(json)
  {
    hide DecodeString, IndexOf;
    if VerifySignedValue(pr, raw, key) == Success(json) {
      assert raw == PayloadPart(raw) + ['.'] + MacPart(raw);
    }
    forall payloadPart: string, macPart: string
      | raw == payloadPart + ['.'] + macPart && '.' !in payloadPart
      ensures PayloadPart(raw) == payloadPart && MacPart(raw) == macPart && IndexOf(raw, '.') < |raw|
    {
      IndexOfSplit(payloadPart, '.', macPart);
    }
    EmptyTextDecodes();
  }

  lemma EmptyTextDecodes()
    ensures DecodeString("") == Some([])
  {
  }
}
