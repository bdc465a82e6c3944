/**
 * The server: classify, check the nonce, verify the signature, decide, reply. A datagram that is
 * no Binding request gets no reply.
 */
module Server {
  import opened Prelude
  import opened Scope
  import opened Tlv
  import opened Codec
  import opened Wire
  import opened Request
  import opened Signature
  import Response
  import opened Nonce
  import Base64Url

  datatype CredentialMode = Advisory | Required

  datatype ServerDecision =
    | Answer(identity: Option<VerifiedIdentity>)
    | Challenge(code: u16)
    | Refuse(code: u16)

  /** The decision table. */
  function Decide(mode: CredentialMode, kind: RequestKind, nonce: Option<NonceCheck>,
                  verified: Option<Result<VerifiedIdentity, CredentialError>>): ServerDecision
  {
    match kind
    case Bare =>
      (match mode
       case Advisory => Answer(None)
       case Required => Refuse(ERR_UNAUTHENTICATED))
    case Identity(_) => Challenge(ERR_UNAUTHENTICATED)
    case Signed(_, _, _) =>
      match nonce
      case Some(Fresh) =>
        (match verified
         case Some(Ok(identity)) => Answer(Some(identity))
         case _ => Challenge(ERR_UNAUTHENTICATED))
      case Some(Stale) => Challenge(ERR_STALE_NONCE)
      case _ => Challenge(ERR_UNAUTHENTICATED)
  }

  datatype Server = Server(issuer: NonceIssuer, mode: CredentialMode, verify: Verifier)

  datatype Input = Input(datagram: Bytes, source: SocketAddr, nowSecs: u64)

  function NonceResult(s: Server, input: Input, kind: RequestKind): Option<NonceCheck> {
    if kind.Signed? then Some(Check(s.issuer, kind.nonce, input.source, input.nowSecs)) else None
  }

  /** The signature is looked at only for a signed request whose nonce is fresh. */
  function Verified(s: Server, input: Input, txid: TransactionId, kind: RequestKind)
    : Option<Result<VerifiedIdentity, CredentialError>>
  {
    if NonceResult(s, input, kind) == Some(Fresh) then Some(VerifySignedRequest(s.verify, txid, kind)) else None
  }

  /** What the server does with a datagram; nothing at all if it is not a Binding request. */
  function Decision(s: Server, input: Input): Option<ServerDecision> {
    match ClassifyRequest(input.datagram)
    case Err(Stun(_)) => None
    case Err(_) => Some(Refuse(ERR_BAD_REQUEST))
    case Ok((txid, kind)) => Some(Decide(s.mode, kind, NonceResult(s, input, kind), Verified(s, input, txid, kind)))
  }

  function Reply(s: Server, input: Input): Option<Bytes> {
    match Decision(s, input)
    case None => None
    case Some(Answer(_)) => Some(BindingSuccess(TxidOf(input.datagram), input.source))
    case Some(Challenge(code)) =>
      Some(Response.ErrorResponse(TxidOf(input.datagram), code, Some(Issue(s.issuer, input.source, input.nowSecs))))
    case Some(Refuse(code)) => Some(Response.ErrorResponse(TxidOf(input.datagram), code, None))
  }

  // ----- an identified answer is the end of a challenged exchange -----

  /** The request inside a datagram that presents a nonce. */
  function SignedIn(input: Input): Option<RequestKind> {
    match ClassifyRequest(input.datagram)
    case Ok((_, kind)) => if kind.Signed? then Some(kind) else None
    case Err(_) => None
  }

  /** The raw nonce presented, if it has the right size. */
  function PresentedNonce(input: Input): Option<Response.RawNonce> {
    var kind := SignedIn(input);
    if kind.None? then None
    else
      var raw := Base64Url.Decode(kind.value.nonce);
      if raw.Some? && |raw.value| == NONCE_LEN then Some(raw.value) else None
  }

  predicate Challenged(s: Server, input: Input) {
    Decision(s, input).Some? && Decision(s, input).value.Challenge?
  }

  function IssuedTag(s: Server, input: Input): Tag {
    TagFor(s.issuer, BucketOf(input.nowSecs), input.source)
  }

  /** Nobody presents a tag that passes for its source unless an earlier challenge carried that tag. */
  ghost predicate OnlyIssuedTags(s: Server, inputs: seq<Input>) {
    forall i :: 0 <= i < |inputs| && PresentedNonce(inputs[i]).Some? ==>
      var raw := PresentedNonce(inputs[i]).value;
      raw[4..] == TagFor(s.issuer, FromBe32(raw[..4]), inputs[i].source) ==>
        exists j :: 0 <= j < i && Challenged(s, inputs[j]) && IssuedTag(s, inputs[j]) == raw[4..]
  }

  /** Among the messages tagged in this run, equal tags come from equal messages. */
  ghost predicate TagsDoNotCollide(s: Server, inputs: seq<Input>) {
    forall i, j :: 0 <= j < i < |inputs| && PresentedNonce(inputs[i]).Some? ==>
      var bucket := FromBe32(PresentedNonce(inputs[i]).value[..4]);
      TagFor(s.issuer, bucket, inputs[i].source) == IssuedTag(s, inputs[j]) ==>
        TagMessage(bucket, inputs[i].source) == TagMessage(BucketOf(inputs[j].nowSecs), inputs[j].source)
  }

  ghost predicate ReceivedInOrder(inputs: seq<Input>) {
    InOrder(inputs, (input: Input) => input.nowSecs)
  }

  /** The challenge at `j` is what the answer at `i` completes. */
  ghost predicate Completes(s: Server, inputs: seq<Input>, j: nat, i: nat)
    requires j < i < |inputs|
  {
    && Challenged(s, inputs[j])
    && Fold(inputs[j].source) == Fold(inputs[i].source)
    && PresentedNonce(inputs[i]) == Some(Issue(s.issuer, inputs[j].source, inputs[j].nowSecs))
    && inputs[i].nowSecs / NONCE_BUCKET_SECS - inputs[j].nowSecs / NONCE_BUCKET_SECS <= 1
  }

  /** The request is signed and its nonce fresh: only then is the verifier asked. */
  predicate ReachesVerifier(s: Server, input: Input) {
    SignedIn(input).Some? && NonceResult(s, input, SignedIn(input).value) == Some(Fresh)
  }

  lemma FreshIsPresented(s: Server, input: Input)
    requires ReachesVerifier(s, input)
    ensures PresentedNonce(input).Some?
    ensures CheckRaw(s.issuer, PresentedNonce(input).value, input.source, input.nowSecs) == Fresh
  {
    hide ClassifyRequest, Base64Url.Decode, CheckRaw;
  }

  lemma AnswerMeansVerified(s: Server, input: Input)
    requires Decision(s, input).Some? && Decision(s, input).value.Answer? && Decision(s, input).value.identity.Some?
    ensures ReachesVerifier(s, input) && ClassifyRequest(input.datagram).Ok?
    ensures Decision(s, input).value.identity.value == VerifiedIdentity(SignedIn(input).value.spki)
    ensures IsValidSpkiDer(SignedIn(input).value.spki)
    ensures var kind := SignedIn(input).value;
            s.verify(PointOf(kind.spki), SigningMessage(ClassifyRequest(input.datagram).value.0, kind.nonce, kind.spki),
                     kind.signature)
  {
    hide ClassifyRequest, Check, SigningMessage, IsValidSpkiDer;
  }

  lemma RawFromParts(raw: Response.RawNonce)
    ensures raw == Be32(FromBe32(raw[..4])) + raw[4..]
  {
    hide *;
    Be32OfBytes(raw[..4]);
    assert raw == raw[..4] + raw[4..];
  }

  /** The run lasts less than a whole turn of the bucket counter. */
  ghost predicate WithinOneTurn(inputs: seq<Input>) {
    forall j :: 0 <= j < |inputs| ==> inputs[j].nowSecs <= inputs[0].nowSecs + NONCE_BUCKET_SECS * (BUCKETS - 1)
  }

  /** Two buckets of one run that look fresh to each other are neighbours, or the same. */
  lemma FreshIsRecent(t: u64, t': u64)
    requires t <= t' <= t + NONCE_BUCKET_SECS * (BUCKETS - 1)
    requires BucketOf(t) == BucketOf(t') || BucketOf(t) == WrappingPred(BucketOf(t'))
    ensures t' / NONCE_BUCKET_SECS - t / NONCE_BUCKET_SECS <= 1
  {
    hide BucketOf, WrappingPred;
    FreshBuckets(t, t');
    DistanceBound(t, t');
    SmallMod(t' / NONCE_BUCKET_SECS - t / NONCE_BUCKET_SECS);
  }

  /**
   * Challenge before verification: the verifier is reached only by a request that completes an
   * earlier challenge. The server challenged that very address and port before, in this bucket or
   * the one before, and the request carries the nonce of that challenge. Whether its signature is
   * any good has no part in it.
   */
  lemma ChallengeBeforeVerification(s: Server, inputs: seq<Input>, i: nat)
    requires i < |inputs| && ReceivedInOrder(inputs) && WithinOneTurn(inputs)
    requires OnlyIssuedTags(s, inputs) && TagsDoNotCollide(s, inputs)
    requires ReachesVerifier(s, inputs[i])
    ensures exists j :: 0 <= j < i && Completes(s, inputs, j, i)
  {
    hide Decision, PresentedNonce, SignedIn, Challenged, TagFor, TagMessage, BucketOf, WrappingPred, ReachesVerifier,
         FromBe32, Be32, Fold;
    var input := inputs[i];
    FreshIsPresented(s, input);
    var raw := PresentedNonce(input).value;
    var bucket := FromBe32(raw[..4]);
    assert raw[4..] == TagFor(s.issuer, bucket, input.source);
    var j :| 0 <= j < i && Challenged(s, inputs[j]) && IssuedTag(s, inputs[j]) == raw[4..];
    var earlier := inputs[j];
    assert TagMessage(bucket, input.source) == TagMessage(BucketOf(earlier.nowSecs), earlier.source);
    TagMessageInjective(bucket, input.source, BucketOf(earlier.nowSecs), earlier.source);
    RawFromParts(raw);
    assert earlier.nowSecs <= input.nowSecs && inputs[0].nowSecs <= earlier.nowSecs;
    FreshIsRecent(earlier.nowSecs, input.nowSecs);
    assert Completes(s, inputs, j, i);
  }

  /** In particular an identified answer completes a challenge, under a signature by the identity's own key. */
  lemma ChallengeBeforeAnswer(s: Server, inputs: seq<Input>, i: nat)
    requires i < |inputs| && ReceivedInOrder(inputs) && WithinOneTurn(inputs)
    requires OnlyIssuedTags(s, inputs) && TagsDoNotCollide(s, inputs)
    requires Decision(s, inputs[i]).Some? && Decision(s, inputs[i]).value.Answer?
    requires Decision(s, inputs[i]).value.identity.Some?
    ensures exists j :: 0 <= j < i && Completes(s, inputs, j, i)
    ensures var kind := SignedIn(inputs[i]).value;
            && Decision(s, inputs[i]).value.identity.value.spki == kind.spki && IsValidSpkiDer(kind.spki)
            && s.verify(PointOf(kind.spki),
                        SigningMessage(TxidOf(inputs[i].datagram), kind.nonce, kind.spki), kind.signature)
  {
    hide ReachesVerifier, Completes, ClassifyRequest, Decision, SigningMessage, IsValidSpkiDer, OnlyIssuedTags,
         TagsDoNotCollide, ReceivedInOrder, WithinOneTurn;
    AnswerMeansVerified(s, inputs[i]);
    ClassifiedTxid(inputs[i].datagram);
    ChallengeBeforeVerification(s, inputs, i);
  }

  lemma ClassifiedTxid(datagram: Bytes)
    requires ClassifyRequest(datagram).Ok?
    ensures |datagram| >= 20 && ClassifyRequest(datagram).value.0 == TxidOf(datagram)
  {
    hide Classification;
  }

  /** Nothing the nonce's key ever tags is anything a requester's key ever signs. */
  lemma DomainsSeparate(bucket: u32, source: SocketAddr, txid: TransactionId, nonce: Bytes, spki: Bytes)
    ensures TagMessage(bucket, source) != SigningMessage(txid, nonce, spki)
  {
    SigningMessageParts(txid, nonce, spki);
    var m := TagMessage(bucket, source);
    assert m[..17] == NonceDomainTag();
    assert m[9] == m[..17][9] == 'n' as int;
    assert SigningMessage(txid, nonce, spki)[..11][9] == 'v' as int;
  }

  // ----- how large replies are -----

  lemma {:induction false} FoundFits(area: Bytes, a: Attr)
    requires a in Tlv.Decode(area).attrs
    ensures 4 + |a.value| <= |area|
  {
    var i :| 0 <= i < |Tlv.Decode(area).attrs| && Tlv.Decode(area).attrs[i] == a;
    DecodedFits(area, 0, i);
  }

  lemma CredentialHasIdentity(d: Decoding)
    requires Classification(d).Ok? && !Classification(d).value.Bare?
    ensures exists a :: a in d.attrs && |a.value| == 92
  {
  }

  /** A request with a credential is at least 116 bytes long. */
  lemma CredentialSize(datagram: Bytes)
    requires ClassifyRequest(datagram).Ok? && !ClassifyRequest(datagram).value.1.Bare?
    ensures |datagram| >= 116
  {
    hide Classification, DecodeFrom;
    var area := AreaOf(datagram);
    CredentialHasIdentity(Tlv.Decode(area));
    var a :| a in Tlv.Decode(area).attrs && |a.value| == 92;
    FoundFits(area, a);
  }

  lemma ReplySizes(s: Server, input: Input)
    requires Reply(s, input).Some?
    ensures match Decision(s, input).value
            case Answer(_) => |Reply(s, input).value| == if FoldIp(input.source.ip).V4? then 32 else 44
            case Challenge(code) => |Reply(s, input).value| == if code == ERR_UNAUTHENTICATED then 88 else 84
            case Refuse(code) => |Reply(s, input).value| == if code == ERR_UNAUTHENTICATED then 44 else 40
  {
    hide Classification, Check, VerifySignedRequest, Response.ChallengeAttrs, XorMappedValue;
    var d := Decision(s, input).value;
    if d.Answer? {
      AlignedAttr(Attr(ATTR_XOR_MAPPED_ADDRESS, XorMappedValue(TxidOf(input.datagram), Fold(input.source))));
    } else if d.Challenge? {
      Response.ChallengeSize(d.code, Some(Issue(s.issuer, input.source, input.nowSecs)));
    } else {
      Response.ChallengeSize(d.code, None);
    }
  }

  /** Whoever presents a credential is sent less than they sent. */
  lemma CredentialRepliesShrink(s: Server, input: Input)
    requires ClassifyRequest(input.datagram).Ok? && !ClassifyRequest(input.datagram).value.1.Bare?
    ensures Reply(s, input).Some? && |Reply(s, input).value| < |input.datagram|
  {
    hide Classification, Check, VerifySignedRequest, Response.ErrorResponse, BindingSuccess;
    CredentialSize(input.datagram);
    ReplySizes(s, input);
  }

  /**
   * The table of error responses in section 14.3.3 of the dig-stun Normative Specification takes
   * every malformed request to be at least 116 bytes long. A malformed request gets 40 bytes back,
   * which is no more than was sent exactly when at least 40 bytes were sent, and 24 bytes are
   * enough to be malformed.
   */
  lemma MalformedReply(s: Server, input: Input)
    requires ClassifyRequest(input.datagram) == Err(Malformed)
    ensures Reply(s, input).Some?
    ensures |Reply(s, input).value| <= |input.datagram| <==> |input.datagram| >= 40
    ensures |input.datagram| >= 24
  {
    hide Classification, Check, VerifySignedRequest, Response.ErrorResponse, BindingSuccess;
    ReplySizes(s, input);
    if |input.datagram| < 24 {
      ShortAreaIsBare(AreaOf(input.datagram));
    }
  }

  lemma ShortAreaIsBare(area: Bytes)
    requires |area| < 4
    ensures Classification(Tlv.Decode(area)) == Ok(Bare)
  {
  }

  lemma SmallestMalformed(txid: TransactionId)
    ensures exists datagram: Bytes :: |datagram| == 24 && ClassifyRequest(datagram) == Err(Malformed)
  {
    var area: Bytes := [0, 0, 0, 1];
    HeaderFrames(BINDING_REQUEST, txid, area);
    assert Overruns(area, 0);
    var datagram := Header(BINDING_REQUEST, 4, txid) + area;
    assert Tlv.Decode(area) == Decoding([], true);
    assert ClassifyRequest(datagram) == Err(Malformed);
  }
}
