/**
 * Both sides together, over real bytes: a client with a working key talks to a server that
 * verifies what the key signs, and their exchange ends as dig-stun promises.
 */
module Exchange {
  import opened Prelude
  import opened Scope
  import opened Codec
  import opened Wire
  import opened Request
  import opened Signature
  import opened RequestWriter
  import opened Nonce
  import Base64Url
  import Response
  import Server
  import Tlv
  import opened SignedClient

  /** What the server, seeing the client at `source`, answers to its latest datagram at `nowSecs`. */
  function ReplyTo(s: Server.Server, source: SocketAddr, c: Client, nowSecs: u64): Option<Bytes>
    requires c.sent != []
  {
    Server.Reply(s, Server.Input(Last(c.sent), source, nowSecs))
  }

  /** One round: the latest datagram reaches the server at `nowSecs`, the reply reaches the client. */
  function Round(env: Env, s: Server.Server, source: SocketAddr, c: Client, nowSecs: u64): Client {
    if c.status.Done? || c.sent == [] then c
    else
      match ReplyTo(s, source, c, nowSecs)
      case None => c
      case Some(reply) => Step(env, c, Received(reply, env.server))
  }

  function Converse(env: Env, s: Server.Server, source: SocketAddr, c: Client, times: seq<u64>): Client
    decreases |times|
  {
    if times == [] then c else Converse(env, s, source, Round(env, s, source, c, times[0]), times[1..])
  }

  /** A key that signs what its own public half verifies, and a network that sends. */
  ghost predicate Honest(env: Env, s: Server.Server) {
    && IsValidSpkiDer(env.signer.spki)
    && (forall n, m :: IsValidSignatureDerLen(env.signer.sign(n, m)))
    && (forall n, m :: s.verify(PointOf(env.signer.spki), m, env.signer.sign(n, m)))
    && (forall k :: env.sendError(k).None?)
  }

  /** Whether a nonce issued at `t` is still good at `t'`. */
  predicate StillFresh(t: u64, t': u64) {
    (t' / NONCE_BUCKET_SECS - t / NONCE_BUCKET_SECS) % BUCKETS <= 1
  }

  /** What the client reports once the server has answered: the folded address, if dialable at all. */
  function Outcome(source: SocketAddr): Result<SocketAddr, SignedQueryError> {
    if ScopeOf(source) == NeverDialable then Err(SignedQueryError.Stun(NoMappedAddress)) else Ok(Fold(source))
  }

  lemma StartSends(env: Env, s: Server.Server)
    requires Honest(env, s)
    ensures Start(env) == Client([IdentityRequest(env.ids(0), env.signer.spki)], Waiting(Initial, env.ids(0)))
  {
    hide IdentityRequest, IsValidSpkiDer;
  }

  // ----- the server's replies to the client's datagrams -----

  lemma IdentityIsChallenged(env: Env, s: Server.Server, source: SocketAddr, t: u64)
    requires Honest(env, s)
    ensures Server.Reply(s, Server.Input(IdentityRequest(env.ids(0), env.signer.spki), source, t))
         == Some(Response.ErrorResponse(env.ids(0), ERR_UNAUTHENTICATED, Some(Issue(s.issuer, source, t))))
  {
    hide ClassifyRequest, IdentityRequest, IsValidSpkiDer, Issue, Response.ErrorResponse;
    var datagram := IdentityRequest(env.ids(0), env.signer.spki);
    IdentityRequestClassifies(env.ids(0), env.signer.spki);
    Server.ClassifiedTxid(datagram);
  }

  /** The nonce of an earlier challenge, presented back at `t'`. */
  lemma SignedIsJudged(env: Env, s: Server.Server, source: SocketAddr, k: nat, t: u64, t': u64)
    requires Honest(env, s)
    ensures var datagram := SignedRequest(env.ids(k), IssuedText(s.issuer, source, t), env.signer, k);
            Server.Reply(s, Server.Input(datagram, source, t')) ==
              if StillFresh(t, t') then Some(BindingSuccess(env.ids(k), source))
              else Some(Response.ErrorResponse(env.ids(k), ERR_STALE_NONCE, Some(Issue(s.issuer, source, t'))))
  {
    hide ClassifyRequest, SignedRequest, IsValidSpkiDer, Issue, Response.ErrorResponse, BindingSuccess, Check,
         IssuedText, SigningMessage, PointOf, StillFresh;
    var nonce := IssuedText(s.issuer, source, t);
    var datagram := SignedRequest(env.ids(k), nonce, env.signer, k);
    TextIsShort(s.issuer, source, t);
    SignedRequestClassifies(env.ids(k), nonce, env.signer, k);
    Server.ClassifiedTxid(datagram);
    JudgedAlike(s.issuer, source, t, t');
  }

  lemma TextIsShort(issuer: NonceIssuer, source: SocketAddr, t: u64)
    ensures |IssuedText(issuer, source, t)| == 27
  {
    hide Base64Url.Encode, Issue;
    Base64Url.EncodeInAlphabet(Issue(issuer, source, t));
  }

  lemma JudgedAlike(issuer: NonceIssuer, source: SocketAddr, t: u64, t': u64)
    ensures Check(issuer, IssuedText(issuer, source, t), source, t') == if StillFresh(t, t') then Fresh else Stale
  {
    hide Check, IssuedText;
    NonceLifetime(issuer, source, source, t, t');
  }

  // ----- the client's reaction to the server's replies -----

  lemma FirstByteTypes(msgType: u16, attrsLen: u16, txid: TransactionId, area: Bytes)
    ensures var msg := Header(msgType, attrsLen, txid) + area;
            |msg| >= 20 && FromBe16(msg[0], msg[1]) == msgType
  {
  }

  lemma HandlesSuccess(env: Env, c: Client, stage: Stage, txid: TransactionId, source: SocketAddr)
    requires c.status == Waiting(stage, txid)
    ensures Step(env, c, Received(BindingSuccess(txid, source), env.server)) == Finish(c, Outcome(source))
  {
    hide Tlv.EncodeAttrs, XorMappedValue, BindingResponse, Header;
    var attrs := [Tlv.Attr(ATTR_XOR_MAPPED_ADDRESS, XorMappedValue(txid, Fold(source)))];
    var msg := BindingSuccess(txid, source);
    SuccessSize(txid, source);
    FirstByteTypes(BINDING_SUCCESS, |Tlv.EncodeAttrs(attrs)| % 0x1_0000, txid, Tlv.EncodeAttrs(attrs));
    SuccessRoundTrip(txid, source, Some(txid));
    FoldKeepsScope(source);
    assert Clip(msg) == msg;
  }

  lemma SuccessSize(txid: TransactionId, source: SocketAddr)
    ensures |BindingSuccess(txid, source)| <= 44
  {
    AlignedAttr(Tlv.Attr(ATTR_XOR_MAPPED_ADDRESS, XorMappedValue(txid, Fold(source))));
  }

  lemma HandlesChallenge(env: Env, c: Client, stage: Stage, txid: TransactionId, code: u16, raw: Response.RawNonce)
    requires c.status == Waiting(stage, txid) && Response.IsErrorCode(code)
    ensures Step(env, c, Received(Response.ErrorResponse(txid, code, Some(raw)), env.server))
         == OnChallenge(env, c, Response.Challenge(code, Some(Realm()), Some(Base64Url.Encode(raw))), stage)
  {
    hide Tlv.EncodeAttrs, Response.ChallengeAttrs, Response.ErrorIn, Header, OnChallenge, Base64Url.Encode, Realm;
    var attrs := Response.ChallengeAttrs(code, Some(raw));
    Response.ChallengeSize(code, Some(raw));
    FirstByteTypes(Wire.BINDING_ERROR, |Tlv.EncodeAttrs(attrs)| % 0x1_0000, txid, Tlv.EncodeAttrs(attrs));
    Response.ErrorRoundTrip(txid, code, Some(raw), txid);
    var msg := Response.ErrorResponse(txid, code, Some(raw));
    assert Clip(msg) == msg;
  }

  // ----- rounds -----

  lemma FirstRound(env: Env, s: Server.Server, source: SocketAddr, t0: u64)
    requires Honest(env, s)
    ensures var identity := IdentityRequest(env.ids(0), env.signer.spki);
            var signed := SignedRequest(env.ids(1), IssuedText(s.issuer, source, t0), env.signer, 1);
            Round(env, s, source, Start(env), t0)
            == Client([identity, signed], Waiting(AfterFirstChallenge, env.ids(1)))
  {
    hide Start, Step, IdentityRequest, SignedRequest, Issue, Response.ErrorResponse, IsValidSpkiDer, Server.Reply,
         Base64Url.Encode, Realm;
    StartSends(env, s);
    IdentityIsChallenged(env, s, source, t0);
    HandlesChallenge(env, Start(env), Initial, env.ids(0), ERR_UNAUTHENTICATED, Issue(s.issuer, source, t0));
  }

  /** A signed round: `c` has sent the nonce of the challenge at `t`, and it arrives at `t'`. */
  lemma SignedRound(env: Env, s: Server.Server, source: SocketAddr, c: Client, stage: Stage, t: u64, t': u64)
    requires Honest(env, s) && |c.sent| >= 2 && c.status == Waiting(stage, env.ids(|c.sent| - 1))
    requires Last(c.sent)
          == SignedRequest(env.ids(|c.sent| - 1), IssuedText(s.issuer, source, t), env.signer, |c.sent| - 1)
    requires stage != Initial
    ensures StillFresh(t, t') ==> Round(env, s, source, c, t') == Finish(c, Outcome(source))
    ensures !StillFresh(t, t') && stage == AfterReSign ==>
              Round(env, s, source, c, t') == Finish(c, Err(Refused(ERR_STALE_NONCE)))
    ensures var next := SignedRequest(env.ids(|c.sent|), IssuedText(s.issuer, source, t'), env.signer, |c.sent|);
            !StillFresh(t, t') && stage == AfterFirstChallenge ==>
              Round(env, s, source, c, t') == Client(c.sent + [next], Waiting(AfterReSign, env.ids(|c.sent|)))
  {
    hide Step, SignedRequest, Issue, Response.ErrorResponse, BindingSuccess, IsValidSpkiDer, Server.Reply,
         Base64Url.Encode, Realm, StillFresh, Outcome;
    var k := |c.sent| - 1;
    SignedIsJudged(env, s, source, k, t, t');
    if StillFresh(t, t') {
      HandlesSuccess(env, c, stage, env.ids(k), source);
    } else {
      HandlesChallenge(env, c, stage, env.ids(k), ERR_STALE_NONCE, Issue(s.issuer, source, t'));
    }
  }

  /** Where the exchange is after the datagrams have reached the server at `times`. */
  function After(env: Env, s: Server.Server, source: SocketAddr, times: seq<u64>): Client {
    Converse(env, s, source, Start(env), times)
  }

  lemma {:induction false} ConverseDone(env: Env, s: Server.Server, source: SocketAddr, c: Client, times: seq<u64>)
    requires c.status.Done?
    ensures Converse(env, s, source, c, times) == c
    decreases |times|
  {
    if times != [] {
      ConverseDone(env, s, source, c, times[1..]);
    }
  }

  lemma ThreeRounds(env: Env, s: Server.Server, source: SocketAddr, c: Client, t0: u64, t1: u64, t2: u64)
    ensures Converse(env, s, source, c, [t0, t1, t2])
         == Round(env, s, source, Round(env, s, source, Round(env, s, source, c, t0), t1), t2)
  {
    hide Round;
    var c1 := Round(env, s, source, c, t0);
    var c2 := Round(env, s, source, c1, t1);
    assert [t0, t1, t2][1..] == [t1, t2] && [t1, t2][1..] == [t2] && [t2][1..] == [];
    assert Converse(env, s, source, c2, [t2]) == Round(env, s, source, c2, t2);
    assert Converse(env, s, source, c1, [t1, t2]) == Converse(env, s, source, c2, [t2]);
  }

  /**
   * The honest exchange, in either mode and for every source and every three arrival times: if the
   * first nonce is still fresh the second datagram is answered; if it went stale but the next one
   * is fresh, the third is; if that went stale too, the client gives up with the server's 438.
   */
  lemma HonestExchange(env: Env, s: Server.Server, source: SocketAddr, t0: u64, t1: u64, t2: u64)
    requires Honest(env, s)
    ensures var c := After(env, s, source, [t0, t1, t2]);
            && (StillFresh(t0, t1) ==> c.status == Done(Outcome(source)) && |c.sent| == 2)
            && (!StillFresh(t0, t1) && StillFresh(t1, t2) ==> c.status == Done(Outcome(source)) && |c.sent| == 3)
            && (!StillFresh(t0, t1) && !StillFresh(t1, t2) ==>
                 c.status == Done(Err(Refused(ERR_STALE_NONCE))) && |c.sent| == 3)
  {
    hide Start, Round, IdentityRequest, SignedRequest, IssuedText, StillFresh, Outcome, Honest, Converse;
    ThreeRounds(env, s, source, Start(env), t0, t1, t2);
    FirstRound(env, s, source, t0);
    var c1 := Round(env, s, source, Start(env), t0);
    SignedRound(env, s, source, c1, AfterFirstChallenge, t0, t1);
    var c2 := Round(env, s, source, c1, t1);
    if StillFresh(t0, t1) {
      RoundDone(env, s, source, c2, t2);
    } else {
      SignedRound(env, s, source, c2, AfterReSign, t1, t2);
    }
  }

  /** A client at a native, dialable address is told exactly its own address and port, or refused. */
  lemma HonestNativeExchange(env: Env, s: Server.Server, source: SocketAddr, t0: u64, t1: u64, t2: u64)
    requires Honest(env, s) && IsNative(source.ip) && ScopeOf(source) != NeverDialable
    ensures var c := After(env, s, source, [t0, t1, t2]);
            && (StillFresh(t0, t1) || StillFresh(t1, t2) ==> c.status == Done(Ok(source)))
            && (!StillFresh(t0, t1) && !StillFresh(t1, t2) ==> c.status == Done(Err(Refused(ERR_STALE_NONCE))))
  {
    hide After, StillFresh, Honest, IsNative, FoldIp, ScopeOf;
    HonestExchange(env, s, source, t0, t1, t2);
    FoldsToItselfIff(source.ip);
  }

  lemma RoundDone(env: Env, s: Server.Server, source: SocketAddr, c: Client, t: u64)
    requires c.status.Done?
    ensures Round(env, s, source, c, t) == c
  {
  }

  // ----- the hypotheses of the server's safety theorem, met by an honest run -----

  /** An honest client's two datagrams, as the server receives them. */
  function HonestInputs(env: Env, s: Server.Server, source: SocketAddr, t0: u64, t1: u64): seq<Server.Input> {
    [Server.Input(IdentityRequest(env.ids(0), env.signer.spki), source, t0),
     Server.Input(SignedRequest(env.ids(1), IssuedText(s.issuer, source, t0), env.signer, 1), source, t1)]
  }

  lemma IdentityPresentsNothing(env: Env, s: Server.Server, source: SocketAddr, t0: u64, t1: u64)
    requires Honest(env, s)
    ensures var first := HonestInputs(env, s, source, t0, t1)[0];
            Server.PresentedNonce(first).None? && Server.Challenged(s, first)
  {
    hide ClassifyRequest, IdentityRequest, SignedRequest, IsValidSpkiDer, Base64Url.Decode, IssuedText;
    IdentityRequestClassifies(env.ids(0), env.signer.spki);
  }

  lemma SignedPresentsTheNonce(env: Env, s: Server.Server, source: SocketAddr, t0: u64, t1: u64)
    requires Honest(env, s)
    ensures var second := HonestInputs(env, s, source, t0, t1)[1];
            && Server.PresentedNonce(second) == Some(Issue(s.issuer, source, t0))
            && (StillFresh(t0, t1) ==>
                 Server.Decision(s, second) == Some(Server.Answer(Some(VerifiedIdentity(env.signer.spki)))))
  {
    hide ClassifyRequest, IdentityRequest, SignedRequest, IsValidSpkiDer, Base64Url.Decode, Base64Url.Encode, Issue,
         SigningMessage, PointOf, Check, StillFresh;
    var nonce := IssuedText(s.issuer, source, t0);
    TextIsShort(s.issuer, source, t0);
    SignedRequestClassifies(env.ids(1), nonce, env.signer, 1);
    Base64Url.RoundTrip(Issue(s.issuer, source, t0));
    JudgedAlike(s.issuer, source, t0, t1);
  }

  /**
   * What the server's safety theorem assumes of a run is what an honest exchange gives it, and the
   * run it then speaks of does end in an identified answer.
   */
  lemma HonestRunMeetsHypotheses(env: Env, s: Server.Server, source: SocketAddr, t0: u64, t1: u64)
    requires Honest(env, s) && StillFresh(t0, t1)
    requires t0 <= t1 <= t0 + NONCE_BUCKET_SECS * (BUCKETS - 1)
    ensures var inputs := HonestInputs(env, s, source, t0, t1);
            && Server.ReceivedInOrder(inputs) && Server.OnlyIssuedTags(s, inputs) && Server.TagsDoNotCollide(s, inputs)
            && Server.WithinOneTurn(inputs)
            && Server.Decision(s, inputs[1]) == Some(Server.Answer(Some(VerifiedIdentity(env.signer.spki))))
  {
    hide Server.PresentedNonce, Server.Challenged, Server.Decision, Issue, TagFor, TagMessage, Honest, StillFresh,
         IdentityRequest, SignedRequest, BucketOf, FromBe32;
    var inputs := HonestInputs(env, s, source, t0, t1);
    IdentityPresentsNothing(env, s, source, t0, t1);
    SignedPresentsTheNonce(env, s, source, t0, t1);
    IssueParts(s.issuer, source, t0);
    assert Server.Challenged(s, inputs[0]) && Server.IssuedTag(s, inputs[0]) == Issue(s.issuer, source, t0)[4..];
  }

  // ----- the same exchange on a noisy network -----

  /** What the client receives from the server in such a conversation, and nothing else. */
  function Replies(env: Env, s: Server.Server, source: SocketAddr, c: Client, times: seq<u64>): seq<Event>
    decreases |times|
  {
    if times == [] || c.status.Done? || c.sent == [] then []
    else
      (match ReplyTo(s, source, c, times[0])
       case None => []
       case Some(reply) => [Received(reply, env.server)])
      + Replies(env, s, source, Round(env, s, source, c, times[0]), times[1..])
  }

  lemma {:induction false} ConverseIsARun(env: Env, s: Server.Server, source: SocketAddr, c: Client, times: seq<u64>)
    ensures Converse(env, s, source, c, times) == RunFrom(env, c, Replies(env, s, source, c, times))
    decreases |times|
  {
    hide Step;
    if c.status.Done? {
      ConverseDone(env, s, source, c, times);
    } else if times != [] && c.sent != [] {
      var next, rest := Round(env, s, source, c, times[0]), times[1..];
      ConverseIsARun(env, s, source, next, rest);
      var reply := ReplyTo(s, source, c, times[0]);
      if reply.Some? {
        var e := Received(reply.value, env.server);
        assert ([e] + Replies(env, s, source, next, rest))[1..] == Replies(env, s, source, next, rest);
      } else {
        assert [] + Replies(env, s, source, next, rest) == Replies(env, s, source, next, rest);
      }
    } else if times != [] {
      NothingSent(env, s, source, c, times);
    }
  }

  lemma {:induction false} NothingSent(env: Env, s: Server.Server, source: SocketAddr, c: Client, times: seq<u64>)
    requires c.sent == []
    ensures Converse(env, s, source, c, times) == c
    decreases |times|
  {
    if times != [] {
      NothingSent(env, s, source, c, times[1..]);
    }
  }

  /**
   * Whatever strangers and stale replies the network mixes in between the server's answers, the
   * client ends up where the undisturbed exchange would have taken it.
   */
  lemma NoisyExchange(env: Env, s: Server.Server, source: SocketAddr, times: seq<u64>, events: seq<Event>)
    requires Thinned(env, Start(env), events, Replies(env, s, source, Start(env), times))
    ensures Run(env, events) == After(env, s, source, times)
  {
    hide Start, Round, Replies, Thinned;
    NoiseInvariance(env, Start(env), events, Replies(env, s, source, Start(env), times));
    ConverseIsARun(env, s, source, Start(env), times);
  }
}
