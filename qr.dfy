/** The permanent QR capability token of a participant: a base64url-encoded JSON object
    `{participantId, type: "permanent", signature}` whose signature is the hex rendering of
    HMAC-SHA256 over `participantId + ":permanent"` under the server's secret key.
    HMAC-SHA256 (RFC 2104 over FIPS 180-4), base64url (section 5 of RFC 4648) and JSON text
    (RFC 8259) are supplied as a `QrCodec`; the hex rendering and parsing are modelled exactly. */
module Qr {
  import opened Wrappers

  type Byte = b: int | 0 <= b < 256

  /** A JSON value as produced by a JSON text parser. */
  datatype JValue =
    | JNull
    | JBool(b: bool)
    | JNum(n: int)
    | JStr(s: string)
    | JArr(items: seq<JValue>)
    | JObj(fields: map<string, JValue>)

  /** The primitives the token is built from. `hmac` is keyed with the server secret;
      `b64Decode` never fails (invalid input decodes to some string); `parse` answers `None`
      where the JSON parser throws. */
  datatype QrCodec = QrCodec(
    hmac: string -> seq<Byte>,
    b64Encode: string -> string,
    b64Decode: string -> string,
    stringify: JValue -> string,
    parse: string -> Option<JValue>)

  /** The round-trip laws of base64url and of JSON text. */
  ghost predicate Lawful(c: QrCodec) {
    (forall s: string :: c.b64Decode(c.b64Encode(s)) == s) &&
    (forall v: JValue :: c.parse(c.stringify(v)) == Some(v))
  }

  // ---------------------------------------------------------------- hex

  predicate IsLowerHex(ch: char) {
    '0' <= ch <= '9' || 'a' <= ch <= 'f'
  }

  /** The lower-case hex digit of `k`. */
  function HexChar(k: nat): (ch: char)
    requires k < 16
    ensures IsLowerHex(ch)
  {
    if k < 10 then ('0' as int + k) as char else ('a' as int + k - 10) as char
  }

  function HexDigitValue(ch: char): (r: Option<nat>)
    ensures r.Some? ==> r.value < 16
    ensures r.Some? <==> ('0' <= ch <= '9' || 'a' <= ch <= 'f' || 'A' <= ch <= 'F')
  {
    if '0' <= ch <= '9' then Some(ch as int - '0' as int)
    else if 'a' <= ch <= 'f' then Some(ch as int - 'a' as int + 10)
    else if 'A' <= ch <= 'F' then Some(ch as int - 'A' as int + 10)
    else None
  }

  /** Lower-case hex rendering, two digits per byte (`digest('hex')`). */
  function HexEncode(bytes: seq<Byte>): (r: string)
    ensures |r| == 2 * |bytes|
    ensures forall i :: 0 <= i < |r| ==> IsLowerHex(r[i])
  {
    if bytes == [] then []
    else [HexChar(bytes[0] / 16), HexChar(bytes[0] % 16)] + HexEncode(bytes[1..])
  }

  /** Hex parsing as `Buffer.from(s, 'hex')` does it: pairs of hex digits are decoded until the
      first pair that is not one; an odd trailing digit is dropped. Never fails. */
  function HexDecode(s: string): (r: seq<Byte>)
    ensures |r| <= |s| / 2
  {
    if |s| < 2 then []
    else
      match (HexDigitValue(s[0]), HexDigitValue(s[1]))
      case (Some(hi), Some(lo)) => [hi * 16 + lo] + HexDecode(s[2..])
      case _ => []
  }

  lemma {:induction false} HexRoundTrip(bytes: seq<Byte>)
    ensures HexDecode(HexEncode(bytes)) == bytes
  {
    if bytes != [] {
      var b := bytes[0];
      var e := HexEncode(bytes);
      assert e[0] == HexChar(b / 16) && e[1] == HexChar(b % 16);
      assert e[2..] == HexEncode(bytes[1..]);
      HexRoundTrip(bytes[1..]);
    }
  }

  // ---------------------------------------------------------------- token

  const Permanent: string := "permanent"

  /** `createSignature`: hex HMAC of `participantId + ":permanent"`; two lower-case hex digits per
      HMAC byte, which `Buffer.from(signature, 'hex')` reads back as the HMAC. */
  function CreateSignature(c: QrCodec, participantId: string): (r: string)
    ensures |r| == 2 * |c.hmac(participantId + ":" + Permanent)|
    ensures forall i :: 0 <= i < |r| ==> IsLowerHex(r[i])
    ensures HexDecode(r) == c.hmac(participantId + ":" + Permanent)
  {
    HexRoundTrip(c.hmac(participantId + ":" + Permanent));
    HexEncode(c.hmac(participantId + ":" + Permanent))
  }

  function Payload(participantId: string, signature: string): JValue {
    JObj(map["participantId" := JStr(participantId), "type" := JStr(Permanent), "signature" := JStr(signature)])
  }

  /** `generateQRCodeValue`: the base64url text of the JSON payload. Under the codec's round-trip
      laws the value decodes and parses back to that payload. */
  function Generate(c: QrCodec, participantId: string): (r: string)
    ensures Lawful(c) ==> c.parse(c.b64Decode(r)) == Some(Payload(participantId, CreateSignature(c, participantId)))
  {
    var p := Payload(participantId, CreateSignature(c, participantId));
    assert Lawful(c) ==> c.b64Decode(c.b64Encode(c.stringify(p))) == c.stringify(p);
    assert Lawful(c) ==> c.parse(c.stringify(p)) == Some(p);
    c.b64Encode(c.stringify(p))
  }

  datatype Verification = Verified(participantId: string) | Rejected(error: string)

  /** `verifyQRCodeValue`: the decision tree, with the parser's exception caught as
      "Failed to decode QR value". A JSON array is an object to `typeof` but has none of the
      three properties, so every non-object payload ends in "Invalid payload structure". */
  function Verify(c: QrCodec, qrValue: string): (r: Verification)
    ensures r.Rejected? ==> r.error in {"Failed to decode QR value", "Invalid payload structure",
                                       "Invalid payload types", "Invalid QR type", "Invalid signature"}
  {
    match c.parse(c.b64Decode(qrValue))
    case None => Rejected("Failed to decode QR value")
    case Some(payload) =>
      if !payload.JObj? || "participantId" !in payload.fields || "type" !in payload.fields
         || "signature" !in payload.fields then
        Rejected("Invalid payload structure")
      else if !payload.fields["participantId"].JStr? || !payload.fields["signature"].JStr? then
        Rejected("Invalid payload types")
      else if payload.fields["type"] != JStr(Permanent) then
        Rejected("Invalid QR type")
      else
        var participantId := payload.fields["participantId"].s;
        var signatureBuffer := HexDecode(payload.fields["signature"].s);
        var expectedBuffer := HexDecode(CreateSignature(c, participantId));
        if |signatureBuffer| != |expectedBuffer| then Rejected("Invalid signature")
        else if signatureBuffer != expectedBuffer then Rejected("Invalid signature")
        else Verified(participantId)
  }

  /** The signature is 64 lower-case hex digits when the MAC is 32 bytes long, and it decodes
      back to the MAC. */
  lemma SignatureShape(c: QrCodec, participantId: string)
    requires |c.hmac(participantId + ":" + Permanent)| == 32
    ensures |CreateSignature(c, participantId)| == 64
    ensures forall i :: 0 <= i < 64 ==> IsLowerHex(CreateSignature(c, participantId)[i])
    ensures HexDecode(CreateSignature(c, participantId)) == c.hmac(participantId + ":" + Permanent)
  {
    HexRoundTrip(c.hmac(participantId + ":" + Permanent));
  }

  /** Round trip: a generated token verifies, naming the participant it was generated for. */
  lemma VerifyGenerate(c: QrCodec, participantId: string)
    requires Lawful(c)
    ensures Verify(c, Generate(c, participantId)) == Verified(participantId)
  {
    var sig := CreateSignature(c, participantId);
    var p := Payload(participantId, sig);
    assert c.b64Decode(c.b64Encode(c.stringify(p))) == c.stringify(p);
    assert c.parse(c.stringify(p)) == Some(p);
    HexRoundTrip(c.hmac(participantId + ":" + Permanent));
  }

  /** Only a token carrying a correct signature verifies: the result is `Verified(id)` exactly
      when the decoded payload is an object whose `participantId` is `id`, whose `type` is
      "permanent", and whose `signature` parses to the MAC of `id`. */
  lemma VerifiedIff(c: QrCodec, qrValue: string, participantId: string)
    ensures Verify(c, qrValue) == Verified(participantId) <==>
      exists fields: map<string, JValue>, sig: string ::
        c.parse(c.b64Decode(qrValue)) == Some(JObj(fields)) &&
        "participantId" in fields && fields["participantId"] == JStr(participantId) &&
        "type" in fields && fields["type"] == JStr(Permanent) &&
        "signature" in fields && fields["signature"] == JStr(sig) &&
        HexDecode(sig) == c.hmac(participantId + ":" + Permanent)
  {
    HexRoundTrip(c.hmac(participantId + ":" + Permanent));
    var parsed := c.parse(c.b64Decode(qrValue));
    if Verify(c, qrValue) == Verified(participantId) {
      var fields := parsed.value.fields;
      var sig := fields["signature"].s;
      assert HexDecode(sig) == c.hmac(participantId + ":" + Permanent);
    }
  }

  /** The early exits of the decision tree. */
  lemma VerifyRejections(c: QrCodec, qrValue: string)
    ensures c.parse(c.b64Decode(qrValue)).None? ==>
      Verify(c, qrValue) == Rejected("Failed to decode QR value")
    ensures c.parse(c.b64Decode(qrValue)).Some? && !c.parse(c.b64Decode(qrValue)).value.JObj? ==>
      Verify(c, qrValue) == Rejected("Invalid payload structure")
    ensures forall fields: map<string, JValue> ::
      c.parse(c.b64Decode(qrValue)) == Some(JObj(fields)) &&
      "participantId" in fields && "type" in fields && "signature" in fields &&
      fields["participantId"].JStr? && fields["signature"].JStr? && fields["type"] != JStr(Permanent) ==>
      Verify(c, qrValue) == Rejected("Invalid QR type")
    ensures forall fields: map<string, JValue> ::
      c.parse(c.b64Decode(qrValue)) == Some(JObj(fields)) &&
      ("participantId" !in fields || "type" !in fields || "signature" !in fields) ==>
      Verify(c, qrValue) == Rejected("Invalid payload structure")
    ensures forall fields: map<string, JValue> ::
      c.parse(c.b64Decode(qrValue)) == Some(JObj(fields)) &&
      "participantId" in fields && "type" in fields && "signature" in fields &&
      (!fields["participantId"].JStr? || !fields["signature"].JStr?) ==>
      Verify(c, qrValue) == Rejected("Invalid payload types")
    ensures forall fields: map<string, JValue> ::
      c.parse(c.b64Decode(qrValue)) == Some(JObj(fields)) &&
      "participantId" in fields && "type" in fields && "signature" in fields &&
      fields["participantId"].JStr? && fields["signature"].JStr? && fields["type"] == JStr(Permanent) &&
      HexDecode(fields["signature"].s) != HexDecode(CreateSignature(c, fields["participantId"].s)) ==>
      Verify(c, qrValue) == Rejected("Invalid signature")
  {
  }
}
