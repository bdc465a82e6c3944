/**
 * What the server's reply tells the client that asked, from the bytes of the datagram alone: who is
 * told an address, who is challenged, who is refused, and who hears nothing.
 */
module Replies {
  import opened Prelude
  import opened Scope
  import opened Tlv
  import opened Codec
  import opened Headers
  import opened Wire
  import opened Request
  import opened RequestShapes
  import opened Signature
  import Response
  import opened Nonce
  import opened Server
  import Base64Url

  /** The datagram is a Binding request under this id, and its announced area decodes like this. */
  ghost predicate Asks(datagram: Bytes, txid: TransactionId, d: Decoding) {
    exists n: u16 ::
      Headed(datagram, 0x0001, n, txid) && |datagram| >= 20 + n && Tlv.Decode(datagram[20..20 + n]) == d
  }

  lemma AsksIff(datagram: Bytes, txid: TransactionId, d: Decoding)
    ensures Asks(datagram, txid, d)
       <==> ParseBindingRequest(datagram) == Ok(txid) && Tlv.Decode(AreaOf(datagram)) == d
  {
    hide Headed, FromBe16, FromBe32, DecodeFrom;
    RequestIff(datagram, txid);
    forall n: u16 | Headed(datagram, 0x0001, n, txid) ensures |datagram| >= 20 && LengthOf(datagram) == n {
      HeadedIff(datagram, 0x0001, n, txid);
    }
  }

  /** The nonce is fresh for this source, and the key inside the request accepts the signature. */
  ghost predicate Proves(s: Server, input: Input, txid: TransactionId, spki: Bytes, nonce: Bytes, signature: Bytes) {
    && Check(s.issuer, nonce, input.source, input.nowSecs) == Fresh
    && |spki| >= 26 && s.verify(spki[26..], SigningMessage(txid, nonce, spki), signature)
  }

  /** Who is to be told their address. */
  ghost predicate Admitted(s: Server, input: Input, txid: TransactionId, d: Decoding) {
    || (s.mode == Advisory && IsBare(d))
    || exists spki, nonce, signature ::
         IsSigned(d, spki, nonce, signature) && Proves(s, input, txid, spki, nonce, signature)
  }

  /** Who presents a nonce that was good once. */
  ghost predicate TooLate(s: Server, input: Input, d: Decoding) {
    exists spki, nonce, signature ::
      IsSigned(d, spki, nonce, signature) && Check(s.issuer, nonce, input.source, input.nowSecs) == Stale
  }

  /** Who names a key and proves nothing with it: no proof at all, a nonce of no value, a rejected signature. */
  ghost predicate Unproven(s: Server, input: Input, txid: TransactionId, d: Decoding) {
    || (exists spki :: IsIdentity(d, spki))
    || exists spki, nonce, signature ::
         && IsSigned(d, spki, nonce, signature) && !Proves(s, input, txid, spki, nonce, signature)
         && Check(s.issuer, nonce, input.source, input.nowSecs) != Stale
  }

  /** Who is none of the three things a request can be. */
  ghost predicate Shapeless(d: Decoding) {
    && !IsBare(d) && (forall spki :: !IsIdentity(d, spki))
    && forall spki, nonce, signature :: !IsSigned(d, spki, nonce, signature)
  }

  function Told(code: u16, nonce: Option<Bytes>): Result<Response.Challenge, StunError> {
    Ok(Response.Challenge(code, if nonce.Some? then Some(Ascii("dig-stun")) else None, nonce))
  }

  /** Only a Binding request is replied to, and every one is. */
  lemma RepliesIff(s: Server, input: Input)
    ensures Reply(s, input).Some? <==> exists txid, d :: Asks(input.datagram, txid, d)
  {
    hide Classification, DecodeFrom, Asks, Check, BindingSuccess, Response.ErrorResponse, VerifySignedRequest;
    forall txid, d ensures Asks(input.datagram, txid, d)
                      <==> ParseBindingRequest(input.datagram) == Ok(txid) && Tlv.Decode(AreaOf(input.datagram)) == d
    {
      AsksIff(input.datagram, txid, d);
    }
    if ParseBindingRequest(input.datagram).Ok? {
      NeverStun(Tlv.Decode(AreaOf(input.datagram)));
      assert Asks(input.datagram, TxidOf(input.datagram), Tlv.Decode(AreaOf(input.datagram)));
    }
  }

  // ----- from shapes to decisions -----

  lemma PointIsRest(spki: Bytes)
    requires IsValidSpkiDer(spki)
    ensures |spki| >= 26 && spki[26..] == PointOf(spki)
  {
  }

  lemma SignedKeyIsValid(d: Decoding, spki: Bytes, nonce: Bytes, signature: Bytes)
    requires IsSigned(d, spki, nonce, signature)
    ensures IsValidSpkiDer(spki)
  {
    hide OnlyAt;
  }

  lemma ProvesIff(s: Server, input: Input, txid: TransactionId, spki: Bytes, nonce: Bytes, signature: Bytes)
    requires IsValidSpkiDer(spki) && Check(s.issuer, nonce, input.source, input.nowSecs) == Fresh
    ensures Proves(s, input, txid, spki, nonce, signature)
       <==> VerifySignedRequest(s.verify, txid, Signed(spki, nonce, signature)).Ok?
  {
    hide SigningMessage, Check;
    PointIsRest(spki);
  }

  lemma SignedDecision(s: Server, input: Input, txid: TransactionId, spki: Bytes, nonce: Bytes, signature: Bytes)
    requires ClassifyRequest(input.datagram) == Ok((txid, Signed(spki, nonce, signature))) && IsValidSpkiDer(spki)
    ensures Decision(s, input).Some?
    ensures var decision, check := Decision(s, input).value, Check(s.issuer, nonce, input.source, input.nowSecs);
            if check == Stale then decision == Challenge(438) && !Proves(s, input, txid, spki, nonce, signature)
            else if Proves(s, input, txid, spki, nonce, signature) then decision.Answer?
            else decision == Challenge(401)
  {
    hide ClassifyRequest, VerifySignedRequest, Check;
    if Check(s.issuer, nonce, input.source, input.nowSecs) == Fresh {
      ProvesIff(s, input, txid, spki, nonce, signature);
    }
  }

  /** No request is two things at once, nor the same thing in two ways. */
  lemma OneShape(d: Decoding)
    ensures IsBare(d) <==> Classification(d) == Ok(Bare)
    ensures forall spki :: IsIdentity(d, spki) <==> Classification(d) == Ok(Identity(spki))
    ensures forall spki, nonce, signature ::
              IsSigned(d, spki, nonce, signature) <==> Classification(d) == Ok(Signed(spki, nonce, signature))
  {
    hide IsBare, IsIdentity, IsSigned, Classification;
    BareIff(d);
    forall spki ensures Classification(d) == Ok(Identity(spki)) <==> IsIdentity(d, spki) {
      IdentityOnlyIff(d, spki);
    }
    forall spki, nonce, signature
      ensures Classification(d) == Ok(Signed(spki, nonce, signature)) <==> IsSigned(d, spki, nonce, signature)
    {
      SignedIff(d, spki, nonce, signature);
    }
  }

  /** What is left to ask of a signed request. */
  lemma SignedSays(s: Server, input: Input, txid: TransactionId, d: Decoding,
                   spki: Bytes, nonce: Bytes, signature: Bytes)
    requires IsSigned(d, spki, nonce, signature)
    ensures Admitted(s, input, txid, d) <==> Proves(s, input, txid, spki, nonce, signature)
    ensures TooLate(s, input, d) <==> Check(s.issuer, nonce, input.source, input.nowSecs) == Stale
    ensures Unproven(s, input, txid, d)
       <==> !Proves(s, input, txid, spki, nonce, signature)
            && Check(s.issuer, nonce, input.source, input.nowSecs) != Stale
    ensures !IsBare(d) && !Shapeless(d)
  {
    hide IsBare, IsIdentity, IsSigned, Classification, Check, Proves;
    OneShape(d);
  }

  /** The decision by what was asked; the five conditions exclude each other and leave nothing out. */
  lemma DecisionSays(s: Server, input: Input, txid: TransactionId, d: Decoding)
    requires Asks(input.datagram, txid, d)
    ensures Decision(s, input).Some?
    ensures var decision := Decision(s, input).value;
            && (decision.Answer? <==> Admitted(s, input, txid, d))
            && (decision == Challenge(438) <==> TooLate(s, input, d))
            && (decision == Challenge(401) <==> Unproven(s, input, txid, d))
            && (decision == Refuse(401) <==> s.mode == Required && IsBare(d))
            && (decision == Refuse(400) <==> Shapeless(d))
            && (decision.Answer? || decision in {Challenge(438), Challenge(401), Refuse(401), Refuse(400)})
  {
    hide Asks, IsBare, IsIdentity, IsSigned, Check, Proves, Classification, DecodeFrom;
    AsksIff(input.datagram, txid, d);
    OneShape(d);
    match Classification(d)
    case Err(_) => NeverStun(d);
    case Ok(Bare) =>
    case Ok(Identity(spki)) =>
    case Ok(Signed(spki, nonce, signature)) =>
      hide Admitted, TooLate, Unproven, Shapeless, Decision;
      SignedKeyIsValid(d, spki, nonce, signature);
      SignedDecision(s, input, txid, spki, nonce, signature);
      SignedSays(s, input, txid, d, spki, nonce, signature);
  }

  // ----- from decisions to what is read -----

  lemma SuccessReads(txid: TransactionId, a: SocketAddr)
    ensures BindingResponse(BindingSuccess(txid, a), Some(txid)) == Ok(Fold(a))
    ensures Response.ErrorIn(BindingSuccess(txid, a), txid).Err?
  {
    hide XorMappedValue, Fold, EncodeAttr, AddressIn, DecodeFrom, Message, FromBe16, FromBe32;
    SuccessRoundTrip(txid, a, Some(txid));
    var attrs := [Attr(ATTR_XOR_MAPPED_ADDRESS, XorMappedValue(txid, Fold(a)))];
    AlignedAttr(attrs[0]);
    MessageReadsBack(BINDING_SUCCESS, txid, attrs, EncodeAttrs(attrs));
  }

  lemma ErrorReads(txid: TransactionId, code: u16, nonce: Option<Response.RawNonce>)
    requires Response.IsErrorCode(code)
    ensures Response.ErrorIn(Response.ErrorResponse(txid, code, nonce), txid)
         == Told(code, if nonce.Some? then Some(Base64Url.Encode(nonce.value)) else None)
    ensures BindingResponse(Response.ErrorResponse(txid, code, nonce), Some(txid)).Err?
  {
    hide Response.ChallengeAttrs, EncodeAttrs, AddressIn, DecodeFrom, Message, FromBe16, FromBe32, Base64Url.Encode,
         Response.ErrorIn;
    Response.ErrorRoundTrip(txid, code, nonce, txid);
    var attrs := Response.ChallengeAttrs(code, nonce);
    Response.ChallengeSize(code, nonce);
    MessageReadsBack(BINDING_ERROR, txid, attrs, EncodeAttrs(attrs));
  }

  lemma DecisionReads(s: Server, input: Input, txid: TransactionId)
    requires |input.datagram| >= 20 && TxidOf(input.datagram) == txid && Decision(s, input).Some?
    requires Decision(s, input).value.Answer? || Response.IsErrorCode(Decision(s, input).value.code)
    ensures Reply(s, input).Some?
    ensures var reply := Reply(s, input).value;
            match Decision(s, input).value
            case Answer(_) =>
              BindingResponse(reply, Some(txid)) == Ok(Fold(input.source)) && Response.ErrorIn(reply, txid).Err?
            case Challenge(code) =>
              && BindingResponse(reply, Some(txid)).Err?
              && Response.ErrorIn(reply, txid) == Told(code, Some(IssuedText(s.issuer, input.source, input.nowSecs)))
            case Refuse(code) =>
              BindingResponse(reply, Some(txid)).Err? && Response.ErrorIn(reply, txid) == Told(code, None)
  {
    hide Decision, BindingResponse, Response.ErrorIn, BindingSuccess, Response.ErrorResponse, Told, Fold,
         Base64Url.Encode, Issue;
    match Decision(s, input).value
    case Answer(_) => SuccessReads(txid, input.source);
    case Challenge(code) => ErrorReads(txid, code, Some(Issue(s.issuer, input.source, input.nowSecs)));
    case Refuse(code) => ErrorReads(txid, code, None);
  }

  /**
   * The whole reply, by what was asked: an address exactly for the admitted, 438 with a new nonce
   * exactly for those too late, 401 with a new nonce exactly for the unproven, 401 and nothing more
   * exactly for a bare request where credentials are required, 400 exactly for the shapeless.
   */
  lemma ReplySays(s: Server, input: Input, txid: TransactionId, d: Decoding)
    requires Asks(input.datagram, txid, d)
    ensures Reply(s, input).Some?
    ensures var reply, minted := Reply(s, input).value, Some(IssuedText(s.issuer, input.source, input.nowSecs));
            && (BindingResponse(reply, Some(txid)) == Ok(Fold(input.source)) <==> Admitted(s, input, txid, d))
            && (BindingResponse(reply, Some(txid)).Err? <==> !Admitted(s, input, txid, d))
            && (Response.ErrorIn(reply, txid) == Told(438, minted) <==> TooLate(s, input, d))
            && (Response.ErrorIn(reply, txid) == Told(401, minted) <==> Unproven(s, input, txid, d))
            && (Response.ErrorIn(reply, txid) == Told(401, None) <==> s.mode == Required && IsBare(d))
            && (Response.ErrorIn(reply, txid) == Told(400, None) <==> Shapeless(d))
  {
    hide Asks, Reply, Decision, Shapeless, IsBare, Admitted, TooLate, Unproven, BindingResponse, Response.ErrorIn,
         IssuedText, Fold, DecodeFrom;
    AsksIff(input.datagram, txid, d);
    DecisionSays(s, input, txid, d);
    DecisionReads(s, input, txid);
  }
}
