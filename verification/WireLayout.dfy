/**
 * The messages byte by byte, with every constant spelled out: what section 6, 15.1, 15.2, 15.6, 15.7
 * and 15.8 of RFC 5389 and the credential attributes of dig-stun look like on the wire.
 */
module WireLayout {
  import opened Prelude
  import opened Scope
  import Bits
  import opened Tlv
  import opened Codec
  import opened Wire
  import opened Request
  import opened Signature
  import opened RequestWriter
  import opened Response
  import opened Nonce
  import Base64Url

  /** A 16-bit number, the upper byte first. */
  function Two(n: nat): Bytes {
    [n / 0x100 % 0x100, n % 0x100]
  }

  /** An attribute: type, length, value, and zeros up to a multiple of four. */
  function Laid(attrType: nat, value: Bytes): Bytes {
    Two(attrType) + Two(|value|) + value + Zeros((4 - |value| % 4) % 4)
  }

  /** A message: type, length, the magic cookie, the transaction id, the attributes. */
  function Framed(msgType: nat, txid: TransactionId, area: Bytes): Bytes {
    Two(msgType) + Two(|area|) + [0x21, 0x12, 0xA4, 0x42] + txid + area
  }

  lemma AttrIsLaid(a: Attr)
    requires |a.value| < 0x1_0000
    ensures EncodeAttr(a) == Laid(a.attrType, a.value)
  {
    PaddingIs(|a.value|);
  }

  lemma MessageIsFramed(msgType: u16, txid: TransactionId, attrs: seq<Attr>)
    requires |EncodeAttrs(attrs)| < 0x1_0000
    ensures Message(msgType, txid, attrs) == Framed(msgType, txid, EncodeAttrs(attrs))
  {
    hide EncodeAttrs;
    CookieBytes();
  }

  // ----- what the client writes -----

  lemma IdentityRequestBytes(txid: TransactionId, spki: Bytes)
    requires IsValidSpkiDer(spki)
    ensures IdentityRequest(txid, spki) == Framed(0x0001, txid, Laid(0xD160, [1] + spki))
  {
    hide EncodeAttr, EncodeAttrs, Message, Framed, Laid, Two;
    IdentitySize(txid, spki);
    SingleAttr(IdentityAttr(spki));
    AttrIsLaid(IdentityAttr(spki));
    MessageIsFramed(BINDING_REQUEST, txid, [IdentityAttr(spki)]);
  }

  lemma SignedRequestBytes(txid: TransactionId, nonce: Bytes, signer: Signer, n: nat)
    requires IsValidSpkiDer(signer.spki) && IsValidSignatureDerLen(SignatureFor(txid, nonce, signer, n))
    requires |nonce| < 0xff00
    ensures SignedRequest(txid, nonce, signer, n)
         == Framed(0x0001, txid, Laid(0xD160, [1] + signer.spki) + Laid(0x0015, nonce)
                                 + Laid(0xD161, [1] + SignatureFor(txid, nonce, signer, n)))
  {
    hide EncodeAttr, EncodeAttrs, Message, Framed, Laid, SignatureFor, Two, Padding;
    var signature := SignatureFor(txid, nonce, signer, n);
    var a, b, c := IdentityAttr(signer.spki), Attr(ATTR_NONCE, nonce), SignatureAttr(signature);
    SignedSize(signer.spki, nonce, signature);
    ThreeAttrs(a, b, c);
    AttrIsLaid(a);
    AttrIsLaid(b);
    AttrIsLaid(c);
    MessageIsFramed(BINDING_REQUEST, txid, SignedAttrs(signer.spki, nonce, signature));
    assert EncodeAttrs([a, b, c]) == EncodeAttr(a) + EncodeAttr(b) + EncodeAttr(c);
  }

  // ----- what the server writes -----

  /** The value of an error code attribute: class, number, reason. */
  function Reason(code: nat, phrase: string): Bytes
    requires forall i :: 0 <= i < |phrase| ==> phrase[i] < 128 as char
  {
    [0, 0, code / 100 % 0x100, code % 100] + Ascii(phrase)
  }

  lemma RefusalBytes(txid: TransactionId)
    ensures ErrorResponse(txid, 401, None) == Framed(0x0111, txid, Laid(0x0009, Reason(401, "Unauthenticated")))
    ensures ErrorResponse(txid, 400, None) == Framed(0x0111, txid, Laid(0x0009, Reason(400, "Bad Request")))
  {
    RefusalLaid(txid, 401, "Unauthenticated");
    RefusalLaid(txid, 400, "Bad Request");
  }

  lemma RefusalLaid(txid: TransactionId, code: u16, phrase: string)
    requires IsErrorCode(code) && (forall i :: 0 <= i < |phrase| ==> phrase[i] < 128 as char)
    requires Reason(code, phrase) == ErrorCodeValue(code)
    ensures ErrorResponse(txid, code, None) == Framed(0x0111, txid, Laid(0x0009, Reason(code, phrase)))
  {
    hide EncodeAttr, EncodeAttrs, Message, Framed, Laid, ErrorCodeValue, Reason, Two;
    var a := Attr(ATTR_ERROR_CODE, ErrorCodeValue(code));
    ChallengeSize(code, None);
    ErrorCodeSize(code);
    SingleAttr(a);
    AttrIsLaid(a);
    MessageIsFramed(BINDING_ERROR, txid, [a]);
  }

  lemma ChallengeBytes(txid: TransactionId, nonce: RawNonce)
    ensures ErrorResponse(txid, 401, Some(nonce)) == Framed(0x0111, txid, Laid(0x0009, Reason(401, "Unauthenticated"))
              + Laid(0x0014, Ascii("dig-stun")) + Laid(0x0015, Base64Url.Encode(nonce)))
    ensures ErrorResponse(txid, 438, Some(nonce)) == Framed(0x0111, txid, Laid(0x0009, Reason(438, "Stale Nonce"))
              + Laid(0x0014, Ascii("dig-stun")) + Laid(0x0015, Base64Url.Encode(nonce)))
  {
    ChallengeLaid(txid, 401, "Unauthenticated", nonce);
    ChallengeLaid(txid, 438, "Stale Nonce", nonce);
  }

  lemma ChallengeLaid(txid: TransactionId, code: u16, phrase: string, nonce: RawNonce)
    requires IsErrorCode(code) && (forall i :: 0 <= i < |phrase| ==> phrase[i] < 128 as char)
    requires Reason(code, phrase) == ErrorCodeValue(code)
    ensures ErrorResponse(txid, code, Some(nonce)) == Framed(0x0111, txid, Laid(0x0009, Reason(code, phrase))
              + Laid(0x0014, Ascii("dig-stun")) + Laid(0x0015, Base64Url.Encode(nonce)))
  {
    hide EncodeAttr, EncodeAttrs, Message, Framed, Laid, ErrorCodeValue, Reason, Two, Base64Url.Encode;
    var a, b, c := Attr(ATTR_ERROR_CODE, ErrorCodeValue(code)), Attr(ATTR_REALM, Realm()),
                   Attr(ATTR_NONCE, Base64Url.Encode(nonce));
    ChallengeSize(code, Some(nonce));
    ErrorCodeSize(code);
    Base64Url.EncodeInAlphabet(nonce);
    ChallengeArea(code, Some(nonce));
    AttrIsLaid(a);
    AttrIsLaid(b);
    AttrIsLaid(c);
    MessageIsFramed(BINDING_ERROR, txid, ChallengeAttrs(code, Some(nonce)));
    assert EncodeAttrs(ChallengeAttrs(code, Some(nonce))) == EncodeAttr(a) + EncodeAttr(b) + EncodeAttr(c);
  }

  // ----- addresses -----

  /** What the `i`-th octet of an address is masked with: the cookie, then the transaction id. */
  function KeyAt(txid: TransactionId, i: nat): u8
    requires i < 16
  {
    if i < 4 then [0x21, 0x12, 0xA4, 0x42][i] else txid[i - 4]
  }

  /** A success response for a native address, octet by octet. */
  lemma SuccessBytes(txid: TransactionId, a: SocketAddr)
    requires IsNative(a.ip)
    ensures var n := |Octets(a.ip)|;
            exists value: Bytes ::
              && BindingSuccess(txid, a) == Framed(0x0101, txid, Laid(0x0020, value))
              && |value| == 4 + n && value[0] == 0 && value[1] == (if a.ip.V4? then 1 else 2)
              && value[2..4] == Two(Bits.Xor16(a.port, 0x2112))
              && forall i :: 0 <= i < n ==> value[4 + i] == Bits.Xor8(Octets(a.ip)[i], KeyAt(txid, i))
  {
    var value := XorMappedValue(txid, a);
    MappedValueBytes(txid, a);
    hide XorMappedValue, EncodeAttr, EncodeAttrs, Message, Framed, Laid, Two, KeyAt, FoldIp, IsNative, Bits.Xor8,
         Bits.Xor16;
    var attr := Attr(ATTR_XOR_MAPPED_ADDRESS, value);
    FoldsToItselfIff(a.ip);
    AlignedAttr(attr);
    SingleAttr(attr);
    AttrIsLaid(attr);
    MessageIsFramed(BINDING_SUCCESS, txid, [attr]);
    assert BindingSuccess(txid, a) == Framed(0x0101, txid, Laid(0x0020, value));
  }

  lemma MappedValueBytes(txid: TransactionId, a: SocketAddr)
    ensures var value, n := XorMappedValue(txid, a), |Octets(a.ip)|;
            && |value| == 4 + n && value[0] == 0 && value[1] == (if a.ip.V4? then 1 else 2)
            && value[2..4] == Two(Bits.Xor16(a.port, 0x2112))
            && forall i :: 0 <= i < n ==> value[4 + i] == Bits.Xor8(Octets(a.ip)[i], KeyAt(txid, i))
  {
    hide Bits.Xor8, Bits.Xor16;
  }

  /** What an address value decodes to, masked or not: family, octets and port, and each way to fail. */
  lemma DecodedAddress(value: Bytes, txid: TransactionId, xor: bool)
    ensures |value| < 4 ==> DecodeMappedAddress(value, txid, xor) == Err(Truncated)
    ensures |value| >= 4 && value[1] != 1 && value[1] != 2 ==>
              DecodeMappedAddress(value, txid, xor) == Err(UnexpectedType(value[1]))
    ensures |value| >= 4 && (value[1] == 1 || value[1] == 2) && |value| < (if value[1] == 1 then 8 else 20) ==>
              DecodeMappedAddress(value, txid, xor) == Err(Truncated)
    ensures |value| >= 4 && (value[1] == 1 || value[1] == 2) && |value| >= (if value[1] == 1 then 8 else 20) ==>
              exists a: SocketAddr ::
                && DecodeMappedAddress(value, txid, xor) == Ok(a)
                && (a.ip.V4? <==> value[1] == 1)
                && (forall i :: 0 <= i < |Octets(a.ip)| ==>
                     Octets(a.ip)[i] == if xor then Bits.Xor8(value[4 + i], KeyAt(txid, i)) else value[4 + i])
                && exists raw: u16 :: Two(raw) == value[2..4] && a.port == if xor then Bits.Xor16(raw, 0x2112) else raw
  {
    hide Bits.Xor8, Bits.Xor16, FromBe16, DecodeMappedAddress, KeyAt;
    NotDecoded(value, txid, xor);
    if |value| >= 4 && (value[1] == 1 || value[1] == 2) && |value| >= (if value[1] == 1 then 8 else 20) {
      if value[1] == 1 {
        DecodedV4(value, txid, xor);
      } else {
        DecodedV6(value, txid, xor);
      }
      var raw := FromBe16(value[2], value[3]);
      DecodedPort(value);
      assert Two(raw) == value[2..4];
    }
  }

  lemma NotDecoded(value: Bytes, txid: TransactionId, xor: bool)
    ensures |value| < 4 ==> DecodeMappedAddress(value, txid, xor) == Err(Truncated)
    ensures |value| >= 4 && value[1] != 1 && value[1] != 2 ==>
              DecodeMappedAddress(value, txid, xor) == Err(UnexpectedType(value[1]))
    ensures |value| >= 4 && (value[1] == 1 || value[1] == 2) && |value| < (if value[1] == 1 then 8 else 20) ==>
              DecodeMappedAddress(value, txid, xor) == Err(Truncated)
  {
    hide Bits.Xor8, Bits.Xor16, FromBe16, Bits.Masked;
  }

  lemma DecodedPort(value: Bytes)
    requires |value| >= 4
    ensures Two(FromBe16(value[2], value[3])) == value[2..4]
  {
  }

  lemma DecodedV4(value: Bytes, txid: TransactionId, xor: bool)
    requires |value| >= 8 && value[1] == 1
    ensures DecodeMappedAddress(value, txid, xor).Ok?
    ensures var a, raw := DecodeMappedAddress(value, txid, xor).value, FromBe16(value[2], value[3]);
            && a.ip.V4? && a.port == (if xor then Bits.Xor16(raw, 0x2112) else raw)
            && forall i :: 0 <= i < 4 ==>
                 a.ip.o4[i] == if xor then Bits.Xor8(value[4 + i], KeyAt(txid, i)) else value[4 + i]
  {
    hide Bits.Xor8, Bits.Xor16, FromBe16;
  }

  lemma DecodedV6(value: Bytes, txid: TransactionId, xor: bool)
    requires |value| >= 20 && value[1] == 2
    ensures DecodeMappedAddress(value, txid, xor).Ok?
    ensures var a, raw := DecodeMappedAddress(value, txid, xor).value, FromBe16(value[2], value[3]);
            && a.ip.V6? && a.port == (if xor then Bits.Xor16(raw, 0x2112) else raw)
            && forall i :: 0 <= i < 16 ==>
                 a.ip.o16[i] == if xor then Bits.Xor8(value[4 + i], KeyAt(txid, i)) else value[4 + i]
  {
    hide Bits.Xor8, Bits.Xor16, FromBe16;
  }

  // ----- what is signed, and what is tagged -----

  lemma SigningMessageBytes(txid: TransactionId, nonce: Bytes, spki: Bytes)
    requires |nonce| < 0x1_0000
    ensures var m, n := SigningMessage(txid, nonce, spki), |nonce|;
            && |m| == 26 + n + |spki|
            && m[..11] == Ascii("dig:stun:v1") && m[11] == 1 && m[12..24] == txid && m[24..26] == Two(n)
            && m[26..26 + n] == nonce && m[26 + n..] == spki
  {
  }

  lemma PointBytes(spki: Bytes)
    requires IsValidSpkiDer(spki)
    ensures |PointOf(spki)| == 65 && PointOf(spki)[0] == 4
    ensures forall i :: 0 <= i < 65 ==> PointOf(spki)[i] == spki[26 + i]
  {
  }

  lemma TagMessageBytes(bucket: u32, source: SocketAddr)
    requires IsNative(source.ip)
    ensures var m, n := TagMessage(bucket, source), |Octets(source.ip)|;
            && |m| == 24 + n
            && m[..17] == Ascii("dig:stun:nonce:v1") && m[17..21] == Two(bucket / 0x1_0000) + Two(bucket % 0x1_0000)
            && m[21] == (if source.ip.V4? then 1 else 2) && m[22..22 + n] == Octets(source.ip)
            && m[22 + n..] == Two(source.port)
  {
    FoldsToItselfIff(source.ip);
  }

  /** A nonce: its bucket, then the first sixteen bytes of the keyed hash. */
  lemma NonceBytes(issuer: NonceIssuer, source: SocketAddr, nowSecs: u64)
    ensures var raw, bucket := Issue(issuer, source, nowSecs), nowSecs / 60 % 0x1_0000_0000;
            && raw[..4] == Two(bucket / 0x1_0000) + Two(bucket % 0x1_0000)
            && raw[4..] == issuer.hmac(TagMessage(bucket, source))[..16]
  {
    hide TagMessage;
  }
}
