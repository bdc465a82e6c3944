/** Binding error responses: how a server writes its challenges and refusals, how a client reads them. */
module Response {
  import opened Prelude
  import opened Tlv
  import opened Codec
  import opened Wire
  import Base64Url

  type RawNonce = s: Bytes | |s| == 20 witness [0, 0, 0, 0, 0, 0, 0, 0, 0, 0, 0, 0, 0, 0, 0, 0, 0, 0, 0, 0]

  /** A parsed error response; `realm` holds the UTF-8 bytes of the string. */
  datatype Challenge = Challenge(code: u16, realm: Option<Bytes>, nonce: Option<Bytes>)

  predicate IsErrorCode(code: u16) {
    code == ERR_UNAUTHENTICATED || code == ERR_STALE_NONCE || code == ERR_BAD_REQUEST
  }

  /** The source panics on any other code. */
  function ReasonPhrase(code: u16): Bytes
    requires IsErrorCode(code)
  {
    if code == ERR_UNAUTHENTICATED then Ascii("Unauthenticated")
    else if code == ERR_STALE_NONCE then Ascii("Stale Nonce")
    else Ascii("Bad Request")
  }

  function ErrorCodeValue(code: u16): Bytes
    requires IsErrorCode(code)
  {
    [0, 0, code / 100, code % 100] + ReasonPhrase(code)
  }

  function ChallengeAttrs(code: u16, nonce: Option<RawNonce>): seq<Attr>
    requires IsErrorCode(code)
  {
    var head := Attr(ATTR_ERROR_CODE, ErrorCodeValue(code));
    match nonce
    case None => [head]
    case Some(raw) => [head, Attr(ATTR_REALM, Realm()), Attr(ATTR_NONCE, Base64Url.Encode(raw))]
  }

  function ErrorResponse(txid: TransactionId, code: u16, nonce: Option<RawNonce>): Bytes
    requires IsErrorCode(code)
  {
    Message(BINDING_ERROR, txid, ChallengeAttrs(code, nonce))
  }

  lemma ChallengeArea(code: u16, nonce: Option<RawNonce>)
    requires IsErrorCode(code)
    ensures var head := EncodeAttr(Attr(ATTR_ERROR_CODE, ErrorCodeValue(code)));
            EncodeAttrs(ChallengeAttrs(code, nonce)) ==
              match nonce
              case None => [] + head
              case Some(raw) => [] + head + EncodeAttr(Attr(ATTR_REALM, Realm()))
                                + EncodeAttr(Attr(ATTR_NONCE, Base64Url.Encode(raw)))
  {
    hide EncodeAttr, ErrorCodeValue, Base64Url.Encode;
    var a := Attr(ATTR_ERROR_CODE, ErrorCodeValue(code));
    match nonce
    case None =>
      SingleAttr(a);
      assert [] + EncodeAttr(a) == EncodeAttr(a);
    case Some(raw) =>
      var b, c := Attr(ATTR_REALM, Realm()), Attr(ATTR_NONCE, Base64Url.Encode(raw));
      EncodeAttrsCons([a, b, c]);
      assert [a, b, c][1..] == [b, c];
      EncodeAttrsCons([b, c]);
      assert [b, c][1..] == [c];
      SingleAttr(c);
  }

  method EncodeChallenge(txid: TransactionId, code: u16, nonce: Option<RawNonce>) returns (msg: Bytes)
    requires IsErrorCode(code)
    ensures msg == ErrorResponse(txid, code, nonce)
  {
    hide EncodeAttr, EncodeAttrs, Header, Base64Url.Encode, ErrorCodeValue, ReasonPhrase;
    ErrorCodeParts(code);
    var reason := ReasonPhrase(code);
    var errorCodeValue := [0, 0, code / 100, code % 100];
    errorCodeValue := errorCodeValue + reason;
    var attrs := WriteAttr([], ATTR_ERROR_CODE, errorCodeValue);
    if nonce.Some? {
      attrs := WriteAttr(attrs, ATTR_REALM, Realm());
      var encoded := Base64Url.EncodeLoop(nonce.value);
      attrs := WriteAttr(attrs, ATTR_NONCE, encoded);
    }
    ChallengeArea(code, nonce);
    msg := WriteHeader([], BINDING_ERROR, |attrs| % 0x1_0000, txid);
    assert [] + Header(BINDING_ERROR, |attrs| % 0x1_0000, txid) == Header(BINDING_ERROR, |attrs| % 0x1_0000, txid);
    msg := msg + attrs;
  }

  lemma ErrorCodeParts(code: u16)
    requires IsErrorCode(code)
    ensures code / 100 < 0x100 && code % 100 < 0x100
    ensures ErrorCodeValue(code) == [0, 0, code / 100, code % 100] + ReasonPhrase(code)
  {
  }

  // ----- parsing -----

  /** Whether the bytes are well-formed UTF-8 (RFC 3629, section 4). */
  predicate IsUtf8(s: Bytes) {
    if s == [] then true
    else if s[0] < 0x80 then IsUtf8(s[1..])
    else if 0xc2 <= s[0] <= 0xdf then |s| >= 2 && IsTail(s[1]) && IsUtf8(s[2..])
    else if 0xe0 <= s[0] <= 0xef then
      && |s| >= 3 && IsTail(s[1]) && IsTail(s[2])
      && (s[0] == 0xe0 ==> s[1] >= 0xa0) && (s[0] == 0xed ==> s[1] <= 0x9f)
      && IsUtf8(s[3..])
    else if 0xf0 <= s[0] <= 0xf4 then
      && |s| >= 4 && IsTail(s[1]) && IsTail(s[2]) && IsTail(s[3])
      && (s[0] == 0xf0 ==> s[1] >= 0x90) && (s[0] == 0xf4 ==> s[1] <= 0x8f)
      && IsUtf8(s[4..])
    else false
  }

  predicate IsTail(b: u8) {
    0x80 <= b <= 0xbf
  }

  lemma {:induction false} AsciiIsUtf8(s: Bytes)
    requires forall i :: 0 <= i < |s| ==> s[i] < 0x80
    ensures IsUtf8(s)
  {
    if s != [] {
      AsciiIsUtf8(s[1..]);
    }
  }

  /** Class times a hundred plus number, taken from any bytes. */
  function CodeNumber(value: Bytes): u16
    requires |value| >= 4
  {
    var hundreds: nat := value[2];
    100 * hundreds + value[3]
  }

  /** The last error code long enough to be read, else zero. */
  function CodeOf(attrs: seq<Attr>): u16 {
    if attrs == [] then 0
    else if Last(attrs).attrType == ATTR_ERROR_CODE && |Last(attrs).value| >= 4
    then CodeNumber(Last(attrs).value)
    else CodeOf(Front(attrs))
  }

  /** The last realm that is a string at all. */
  function RealmOf(attrs: seq<Attr>): Option<Bytes> {
    if attrs == [] then None
    else if Last(attrs).attrType == ATTR_REALM && IsUtf8(Last(attrs).value) then Some(Last(attrs).value)
    else RealmOf(Front(attrs))
  }

  function NonceOf(attrs: seq<Attr>): Option<Bytes> {
    if attrs == [] then None
    else if Last(attrs).attrType == ATTR_NONCE then Some(Last(attrs).value)
    else NonceOf(Front(attrs))
  }

  /** Later attributes win, and an overrun only ends the reading. */
  function ChallengeIn(attrs: seq<Attr>): Challenge {
    Challenge(CodeOf(attrs), RealmOf(attrs), NonceOf(attrs))
  }

  function ErrorIn(msg: Bytes, expected: TransactionId): Result<Challenge, StunError> {
    if |msg| < 20 then Err(Truncated)
    else if CookieOf(msg) != MAGIC_COOKIE then Err(BadMagicCookie)
    else if TypeOf(msg) != BINDING_ERROR then Err(UnexpectedType(TypeOf(msg)))
    else if TxidOf(msg) != expected then Err(TransactionIdMismatch)
    else if |msg| < 20 + LengthOf(msg) then Err(Truncated)
    else Ok(ChallengeIn(Decode(AreaOf(msg)).attrs))
  }

  method ParseChallenge(msg: Bytes, expected: TransactionId) returns (r: Result<Challenge, StunError>)
    ensures r == ErrorIn(msg, expected)
  {
    if |msg| < 20 {
      return Err(Truncated);
    }
    var msgType := FromBe16(msg[0], msg[1]);
    var msgLen: nat := FromBe16(msg[2], msg[3]);
    if FromBe32(msg[4..8]) != MAGIC_COOKIE {
      return Err(BadMagicCookie);
    }
    if msgType != BINDING_ERROR {
      return Err(UnexpectedType(msgType));
    }
    if msg[8..20] != expected {
      return Err(TransactionIdMismatch);
    }
    if |msg| < 20 + msgLen {
      return Err(Truncated);
    }
    var c := WalkError(msg[20..20 + msgLen]);
    return Ok(c);
  }

  ghost predicate Seen(area: Bytes, off: nat, done: seq<Attr>) {
    Decode(area).attrs == done + DecodeFrom(area, off).attrs
  }

  lemma SeenStart(area: Bytes)
    ensures Seen(area, 0, [])
  {
  }

  lemma SeenNext(area: Bytes, off: nat, done: seq<Attr>)
    requires Seen(area, off, done) && off + 4 <= |area|
    ensures !Overruns(area, off) ==> Seen(area, NextOffset(area, off), done + [AttrAt(area, off)])
    ensures Overruns(area, off) ==> Decode(area).attrs == done
  {
  }

  lemma SeenEnd(area: Bytes, off: nat, done: seq<Attr>)
    requires Seen(area, off, done) && off + 4 > |area|
    ensures Decode(area).attrs == done
  {
  }

  lemma OneMoreRead(done: seq<Attr>, a: Attr)
    ensures ChallengeIn(done + [a]) ==
              var c := ChallengeIn(done);
              if a.attrType == ATTR_ERROR_CODE && |a.value| >= 4 then c.(code := CodeNumber(a.value))
              else if a.attrType == ATTR_REALM && IsUtf8(a.value) then c.(realm := Some(a.value))
              else if a.attrType == ATTR_NONCE then c.(nonce := Some(a.value))
              else c
  {
  }

  method WalkError(area: Bytes) returns (c: Challenge)
    ensures c == ChallengeIn(Decode(area).attrs)
  {
    hide *;
    var code: u16 := 0;
    var realm: Option<Bytes> := None;
    var nonce: Option<Bytes> := None;
    ghost var done: seq<Attr> := [];
    NothingRead();
    SeenStart(area);
    var off := 0;
    while off + 4 <= |area|
      invariant Seen(area, off, done)
      invariant Challenge(code, realm, nonce) == ChallengeIn(done)
      decreases |area| - off
    {
      AttrParts(area, off);
      SeenNext(area, off, done);
      var attrType := FromBe16(area[off], area[off + 1]);
      var attrLen: nat := FromBe16(area[off + 2], area[off + 3]);
      var valStart := off + 4;
      var valEnd := valStart + attrLen;
      if valEnd > |area| {
        return Challenge(code, realm, nonce);
      }
      var value := area[valStart..valEnd];
      OneMoreRead(done, Attr(attrType, value));
      TypesDiffer();
      if attrType == ATTR_ERROR_CODE && |value| >= 4 {
        code := CodeNumber(value);
      } else if attrType == ATTR_REALM {
        if IsUtf8(value) {
          realm := Some(value);
        }
      } else if attrType == ATTR_NONCE {
        nonce := Some(value);
      }
      done := done + [Attr(attrType, value)];
      off := valEnd + ((4 - (attrLen % 4)) % 4);
    }
    SeenEnd(area, off, done);
    return Challenge(code, realm, nonce);
  }

  lemma NothingRead()
    ensures ChallengeIn([]) == Challenge(0, None, None)
  {
  }

  lemma TypesDiffer()
    ensures ATTR_ERROR_CODE != ATTR_REALM && ATTR_REALM != ATTR_NONCE && ATTR_ERROR_CODE != ATTR_NONCE
  {
  }

  // ----- round trip -----

  lemma ChallengeSize(code: u16, nonce: Option<RawNonce>)
    requires IsErrorCode(code)
    ensures |EncodeAttrs(ChallengeAttrs(code, nonce))|
         == (if code == ERR_UNAUTHENTICATED then 24 else 20) + if nonce.Some? then 44 else 0
    ensures Encodable(ChallengeAttrs(code, nonce))
  {
    hide Base64Url.Encode, ErrorCodeValue, ReasonPhrase, EncodeAttrs, Be16, Realm, Padding;
    ChallengeArea(code, nonce);
    ErrorCodeSize(code);
    PaddingIs(8);
    if nonce.Some? {
      Base64Url.EncodeInAlphabet(nonce.value);
      PaddingIs(27);
    }
  }

  lemma ErrorCodeSize(code: u16)
    requires IsErrorCode(code)
    ensures |ErrorCodeValue(code)| == (if code == ERR_UNAUTHENTICATED then 19 else 15)
    ensures Padding(|ErrorCodeValue(code)|) == 1
  {
    PaddingIs(|ErrorCodeValue(code)|);
  }

  lemma ChallengeReadsBack(code: u16, nonce: Option<RawNonce>)
    requires IsErrorCode(code)
    ensures ChallengeIn(ChallengeAttrs(code, nonce)) ==
              match nonce
              case None => Challenge(code, None, None)
              case Some(raw) => Challenge(code, Some(Realm()), Some(Base64Url.Encode(raw)))
  {
    hide Base64Url.Encode, IsUtf8;
    AsciiIsUtf8(Realm());
    var a := Attr(ATTR_ERROR_CODE, ErrorCodeValue(code));
    assert 100 * (code / 100) + code % 100 == code;
    OneMoreRead([], a);
    assert [] + [a] == [a];
    if nonce.Some? {
      var b, c := Attr(ATTR_REALM, Realm()), Attr(ATTR_NONCE, Base64Url.Encode(nonce.value));
      OneMoreRead([a], b);
      assert [a] + [b] == [a, b];
      OneMoreRead([a, b], c);
      assert [a, b] + [c] == [a, b, c];
    }
  }

  /** A client reads back exactly the code, realm and nonce a server wrote, under its own id only. */
  lemma ErrorRoundTrip(txid: TransactionId, code: u16, nonce: Option<RawNonce>, expected: TransactionId)
    requires IsErrorCode(code)
    ensures ErrorIn(ErrorResponse(txid, code, nonce), expected) ==
              if expected != txid then Err(TransactionIdMismatch)
              else match nonce
                   case None => Ok(Challenge(code, None, None))
                   case Some(raw) => Ok(Challenge(code, Some(Realm()), Some(Base64Url.Encode(raw))))
  {
    hide EncodeAttrs, ChallengeAttrs, Base64Url.Encode, ChallengeIn;
    var attrs := ChallengeAttrs(code, nonce);
    ChallengeSize(code, nonce);
    ChallengeReadsBack(code, nonce);
    MessageReadsBack(BINDING_ERROR, txid, attrs, EncodeAttrs(attrs));
  }

  /** The four shapes of an error response are 44, 88, 84 and 40 bytes long. */
  lemma ErrorSizes(txid: TransactionId, nonce: RawNonce)
    ensures |ErrorResponse(txid, ERR_UNAUTHENTICATED, None)| == 44
    ensures |ErrorResponse(txid, ERR_UNAUTHENTICATED, Some(nonce))| == 88
    ensures |ErrorResponse(txid, ERR_STALE_NONCE, Some(nonce))| == 84
    ensures |ErrorResponse(txid, ERR_BAD_REQUEST, None)| == 40
  {
    ChallengeSize(ERR_UNAUTHENTICATED, None);
    ChallengeSize(ERR_UNAUTHENTICATED, Some(nonce));
    ChallengeSize(ERR_STALE_NONCE, Some(nonce));
    ChallengeSize(ERR_BAD_REQUEST, None);
  }
}
