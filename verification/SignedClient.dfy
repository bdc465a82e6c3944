/**
 * The client of a signed Binding exchange. Sockets and clocks are an event sequence; the random
 * transaction ids and the outcome of each send are supplied from outside, one per send.
 */
module SignedClient {
  import opened Prelude
  import opened Scope
  import opened Codec
  import opened Wire
  import opened Request
  import opened Signature
  import opened RequestWriter
  import opened Response
  import Tlv

  const BUFFER_LEN: nat := 512

  datatype SignedQueryError = Stun(error: StunError) | Refused(code: u16) | BadChallenge

  datatype Stage = Initial | AfterFirstChallenge | AfterReSign

  /** `ids(k)` is the id drawn for the `k`-th send, `sendError(k)` how that send fails, if it does. */
  datatype Env = Env(server: SocketAddr, signer: Signer, ids: nat -> TransactionId, sendError: nat -> Option<string>)

  datatype Event =
    | Received(bytes: Bytes, from: SocketAddr)
    | DeadlinePassed
    | ReceiveFailed(reason: string)

  datatype Status =
    | Waiting(stage: Stage, expected: TransactionId)
    | Done(result: Result<SocketAddr, SignedQueryError>)

  datatype Client = Client(sent: seq<Bytes>, status: Status)

  /** A datagram longer than the receive buffer loses its end. */
  function Clip(bytes: Bytes): (r: Bytes)
    ensures r <= bytes && |r| == if |bytes| < 512 then |bytes| else 512
  {
    if |bytes| <= BUFFER_LEN then bytes else bytes[..BUFFER_LEN]
  }

  function Finish(c: Client, result: Result<SocketAddr, SignedQueryError>): Client {
    c.(status := Done(result))
  }

  function FailStun(c: Client, error: StunError): Client {
    Finish(c, Err(SignedQueryError.Stun(error)))
  }

  /** Send `msg`, then wait at `stage` for a reply to it. */
  function SendThenWait(env: Env, c: Client, msg: Bytes, stage: Stage): Client {
    match env.sendError(|c.sent|)
    case Some(reason) => FailStun(c, Io(reason))
    case None => Client(c.sent + [msg], Waiting(stage, env.ids(|c.sent|)))
  }

  function Start(env: Env): Client {
    var idle := Client([], Waiting(Initial, env.ids(0)));
    if !IsValidSpkiDer(env.signer.spki) then Finish(idle, Err(BadChallenge))
    else SendThenWait(env, idle, IdentityRequest(env.ids(0), env.signer.spki), Initial)
  }

  function OnSuccess(c: Client, msg: Bytes, expected: TransactionId): Client {
    match BindingResponse(msg, Some(expected))
    case Ok(a) => if ScopeOf(a) == NeverDialable then FailStun(c, NoMappedAddress) else Finish(c, Ok(a))
    case Err(TransactionIdMismatch) => c
    case Err(e) => FailStun(c, e)
  }

  /** Answer a challenge with the next signed request. */
  function ReSign(env: Env, c: Client, nonce: Bytes, stage: Stage): Client {
    var k := |c.sent|;
    SendThenWait(env, c, SignedRequest(env.ids(k), nonce, env.signer, k), stage)
  }

  function OnChallenge(env: Env, c: Client, ch: Challenge, stage: Stage): Client {
    match stage
    case Initial =>
      if ch.code == ERR_UNAUTHENTICATED && ch.realm == Some(Realm()) && ch.nonce.Some?
      then ReSign(env, c, ch.nonce.value, AfterFirstChallenge)
      else Finish(c, Err(Refused(ch.code)))
    case AfterFirstChallenge =>
      if ch.code == ERR_STALE_NONCE && ch.nonce.Some?
      then ReSign(env, c, ch.nonce.value, AfterReSign)
      else Finish(c, Err(Refused(ch.code)))
    case AfterReSign => Finish(c, Err(Refused(ch.code)))
  }

  function OnError(env: Env, c: Client, msg: Bytes, stage: Stage, expected: TransactionId): Client {
    match ErrorIn(msg, expected)
    case Ok(ch) => OnChallenge(env, c, ch, stage)
    case Err(TransactionIdMismatch) => c
    case Err(e) => FailStun(c, e)
  }

  function OnDatagram(env: Env, c: Client, msg: Bytes, stage: Stage, expected: TransactionId): Client {
    if |msg| < 2 then FailStun(c, Truncated)
    else
      var msgType := FromBe16(msg[0], msg[1]);
      if msgType == BINDING_SUCCESS then OnSuccess(c, msg, expected)
      else if msgType == BINDING_ERROR then OnError(env, c, msg, stage, expected)
      else FailStun(c, UnexpectedType(msgType))
  }

  function Step(env: Env, c: Client, e: Event): Client {
    match c.status
    case Done(_) => c
    case Waiting(stage, expected) =>
      match e
      case DeadlinePassed => FailStun(c, Timeout)
      case ReceiveFailed(reason) => FailStun(c, Io(reason))
      case Received(bytes, from) => if from != env.server then c else OnDatagram(env, c, Clip(bytes), stage, expected)
  }

  function RunFrom(env: Env, c: Client, events: seq<Event>): Client
    decreases |events|
  {
    if events == [] then c else RunFrom(env, Step(env, c, events[0]), events[1..])
  }

  /** What the client has sent and where it stands once it has seen `events`. */
  function Run(env: Env, events: seq<Event>): Client {
    RunFrom(env, Start(env), events)
  }

  lemma {:induction false} DoneStays(env: Env, c: Client, events: seq<Event>)
    requires c.status.Done?
    ensures RunFrom(env, c, events) == c
  {
    if events != [] {
      DoneStays(env, c, events[1..]);
    }
  }

  /** The receive loop. It stops at the first result, or waits on when the events run out. */
  method QuerySigned(env: Env, events: seq<Event>) returns (c: Client)
    ensures c == Run(env, events)
  {
    hide IdentityRequest, SignedRequest, BindingResponse, ErrorIn, IsValidSpkiDer, Realm;
    var sent: seq<Bytes> := [];
    if !IsValidSpkiDer(env.signer.spki) {
      c := Client(sent, Done(Err(BadChallenge)));
      DoneStays(env, c, events);
      return;
    }
    var expected := env.ids(0);
    var req := EncodeIdentityRequest(expected, env.signer.spki);
    if env.sendError(0).Some? {
      c := Client(sent, Done(Err(SignedQueryError.Stun(Io(env.sendError(0).value)))));
      DoneStays(env, c, events);
      return;
    }
    sent := sent + [req];
    var stage := Initial;
    assert events[0..] == events;
    for i := 0 to |events|
      invariant RunFrom(env, Client(sent, Waiting(stage, expected)), events[i..]) == Run(env, events)
    {
      ghost var before := Client(sent, Waiting(stage, expected));
      ghost var after := Step(env, before, events[i]);
      assert events[i..][0] == events[i] && events[i..][1..] == events[i + 1..];
      var outcome: Option<Result<SocketAddr, SignedQueryError>>;
      outcome, sent, stage, expected := HandleEvent(env, events[i], sent, stage, expected);
      if outcome.Some? {
        c := Client(sent, Done(outcome.value));
        DoneStays(env, c, events[i + 1..]);
        return;
      }
    }
    c := Client(sent, Waiting(stage, expected));
  }

  /** One turn of the loop: a result to return, or what to wait for next. */
  method HandleEvent(env: Env, e: Event, sent: seq<Bytes>, stage: Stage, expected: TransactionId)
    returns (outcome: Option<Result<SocketAddr, SignedQueryError>>, sent': seq<Bytes>, stage': Stage,
             expected': TransactionId)
    ensures Step(env, Client(sent, Waiting(stage, expected)), e)
         == Client(sent', if outcome.Some? then Done(outcome.value) else Waiting(stage', expected'))
  {
    sent', stage', expected' := sent, stage, expected;
    match e {
      case DeadlinePassed =>
        outcome := Some(Err(SignedQueryError.Stun(Timeout)));
      case ReceiveFailed(reason) =>
        outcome := Some(Err(SignedQueryError.Stun(Io(reason))));
      case Received(bytes, from) =>
        if from != env.server {
          return None, sent, stage, expected;
        }
        var msg := Clip(bytes);
        if |msg| < 2 {
          return Some(Err(SignedQueryError.Stun(Truncated))), sent, stage, expected;
        }
        var msgType := FromBe16(msg[0], msg[1]);
        if msgType == BINDING_SUCCESS {
          var r := ParseBindingResponse(msg, Some(expected));
          match r {
            case Ok(a) =>
              outcome := Some(if ScopeOf(a) == NeverDialable then Err(SignedQueryError.Stun(NoMappedAddress))
                              else Ok(a));
            case Err(TransactionIdMismatch) =>
              outcome := None;
            case Err(error) =>
              outcome := Some(Err(SignedQueryError.Stun(error)));
          }
        } else if msgType == BINDING_ERROR {
          var r := ParseChallenge(msg, expected);
          match r {
            case Ok(ch) =>
              outcome, sent', stage', expected' := HandleChallenge(env, ch, sent, stage, expected);
            case Err(TransactionIdMismatch) =>
              outcome := None;
            case Err(error) =>
              outcome := Some(Err(SignedQueryError.Stun(error)));
          }
        } else {
          outcome := Some(Err(SignedQueryError.Stun(UnexpectedType(msgType))));
        }
    }
  }

  method HandleChallenge(env: Env, ch: Challenge, sent: seq<Bytes>, stage: Stage, expected: TransactionId)
    returns (outcome: Option<Result<SocketAddr, SignedQueryError>>, sent': seq<Bytes>, stage': Stage,
             expected': TransactionId)
    ensures OnChallenge(env, Client(sent, Waiting(stage, expected)), ch, stage)
         == Client(sent', if outcome.Some? then Done(outcome.value) else Waiting(stage', expected'))
  {
    sent', stage', expected' := sent, stage, expected;
    var proceed := ch.nonce.Some? &&
                   match stage
                   case Initial => ch.code == ERR_UNAUTHENTICATED && ch.realm == Some(Realm())
                   case AfterFirstChallenge => ch.code == ERR_STALE_NONCE
                   case AfterReSign => false;
    if !proceed {
      return Some(Err(Refused(ch.code))), sent, stage, expected;
    }
    var id := env.ids(|sent|);
    var req := EncodeSignedRequest(id, ch.nonce.value, env.signer, |sent|);
    match env.sendError(|sent|) {
      case Some(reason) =>
        outcome := Some(Err(SignedQueryError.Stun(Io(reason))));
      case None =>
        outcome, sent', expected' := None, sent + [req], id;
        stage' := if stage == Initial then AfterFirstChallenge else AfterReSign;
    }
  }

  // ----- noise -----

  predicate WellHeaded(msg: Bytes) {
    |msg| >= 20 && CookieOf(msg) == MAGIC_COOKIE && (TypeOf(msg) == BINDING_SUCCESS || TypeOf(msg) == BINDING_ERROR)
  }

  /** Not from the server, or a response to some other transaction. */
  predicate IsNoise(env: Env, expected: TransactionId, e: Event) {
    e.Received? &&
    (e.from != env.server || (WellHeaded(Clip(e.bytes)) && TxidOf(Clip(e.bytes)) != expected))
  }

  /** A waiting client ignores an event exactly when it is noise. */
  lemma IgnoredIffNoise(env: Env, c: Client, e: Event)
    requires c.status.Waiting?
    ensures Step(env, c, e) == c <==> IsNoise(env, c.status.expected, e)
  {
    hide SignedRequest, Tlv.Decode, ChallengeIn, First, FirstDecodable;
  }

  /** The server's header alone, of an unknown type and under any other id, is no noise: it ends the exchange. */
  lemma ForeignIdEndsExchange(env: Env, c: Client, msgType: u16, txid: TransactionId)
    requires c.status.Waiting? && txid != c.status.expected
    requires msgType != BINDING_SUCCESS && msgType != BINDING_ERROR
    ensures |Header(msgType, 0, txid)| == 20 && TxidOf(Header(msgType, 0, txid)) != c.status.expected
    ensures Step(env, c, Received(Header(msgType, 0, txid), env.server)) == FailStun(c, UnexpectedType(msgType))
  {
    hide SignedRequest, OnSuccess, OnError;
    HeaderFrames(msgType, txid, []);
    assert Header(msgType, 0, txid) + [] == Header(msgType, 0, txid);
  }

  /** `fewer` is `events` without some of the noise in it, as judged when it arrives. */
  ghost predicate Thinned(env: Env, c: Client, events: seq<Event>, fewer: seq<Event>)
    decreases |events|
  {
    if events == [] then fewer == []
    else
      || (c.status.Waiting? && IsNoise(env, c.status.expected, events[0]) && Thinned(env, c, events[1..], fewer))
      || (fewer != [] && fewer[0] == events[0] && Thinned(env, Step(env, c, events[0]), events[1..], fewer[1..]))
  }

  /** Noise changes neither what is sent nor how the exchange ends. */
  lemma {:induction false} NoiseInvariance(env: Env, c: Client, events: seq<Event>, fewer: seq<Event>)
    requires Thinned(env, c, events, fewer)
    ensures RunFrom(env, c, events) == RunFrom(env, c, fewer)
    decreases |events|
  {
    if events != [] {
      if c.status.Waiting? && IsNoise(env, c.status.expected, events[0]) && Thinned(env, c, events[1..], fewer) {
        IgnoredIffNoise(env, c, events[0]);
        NoiseInvariance(env, c, events[1..], fewer);
      } else {
        NoiseInvariance(env, Step(env, c, events[0]), events[1..], fewer[1..]);
      }
    }
  }

  // ----- stages -----

  function StageSends(stage: Stage): nat {
    match stage case Initial => 1 case AfterFirstChallenge => 2 case AfterReSign => 3
  }

  /** A waiting client has sent as many datagrams as its stage says, and waits for the latest's id. */
  ghost predicate InStep(env: Env, c: Client) {
    && (c.status.Waiting? ==> |c.sent| == StageSends(c.status.stage) && c.status.expected == env.ids(|c.sent| - 1))
    && |c.sent| <= 3
  }

  /** Stages only advance, and nothing sent is taken back. */
  lemma StepAdvances(env: Env, c: Client, e: Event)
    ensures c.sent <= Step(env, c, e).sent
    ensures |Step(env, c, e).sent| <= |c.sent| + 1
    ensures c.status.Waiting? && Step(env, c, e).status.Waiting? && Step(env, c, e) != c ==>
              StageSends(Step(env, c, e).status.stage) == StageSends(c.status.stage) + 1
  {
    hide SignedRequest, BindingResponse, ErrorIn;
  }

  // ----- what one event can cause -----

  /** The event is the server's challenge to the `k`-th datagram, asking for another one. */
  ghost predicate AsksAgain(env: Env, e: Event, k: nat, nonce: Bytes) {
    && k <= 1 && e.Received? && e.from == env.server
    && ErrorIn(Clip(e.bytes), env.ids(k)).Ok?
    && var ch := ErrorIn(Clip(e.bytes), env.ids(k)).value;
       && ch.nonce == Some(nonce)
       && if k == 0 then ch.code == ERR_UNAUTHENTICATED && ch.realm == Some(Realm()) else ch.code == ERR_STALE_NONCE
  }

  /** The server told the client this address in reply to its `k`-th datagram. */
  ghost predicate Tells(env: Env, e: Event, k: nat, a: SocketAddr) {
    && e.Received? && e.from == env.server
    && BindingResponse(Clip(e.bytes), Some(env.ids(k))) == Ok(a) && ScopeOf(a) != NeverDialable
  }

  /** The server's error response to the `k`-th datagram, and none that asks for another one. */
  ghost predicate Refuses(env: Env, e: Event, k: nat, code: u16) {
    && e.Received? && e.from == env.server
    && ErrorIn(Clip(e.bytes), env.ids(k)).Ok? && ErrorIn(Clip(e.bytes), env.ids(k)).value.code == code
    && forall nonce :: !AsksAgain(env, e, k, nonce)
  }

  /** What is wrong with a datagram from the server, if it is no response to another transaction. */
  function Fault(msg: Bytes, expected: TransactionId): Option<StunError> {
    if |msg| < 2 then Some(Truncated)
    else if FromBe16(msg[0], msg[1]) == BINDING_SUCCESS then
      match BindingResponse(msg, Some(expected))
      case Ok(a) => if ScopeOf(a) == NeverDialable then Some(NoMappedAddress) else None
      case Err(error) => if error == TransactionIdMismatch then None else Some(error)
    else if FromBe16(msg[0], msg[1]) == BINDING_ERROR then
      match ErrorIn(msg, expected)
      case Ok(_) => None
      case Err(error) => if error == TransactionIdMismatch then None else Some(error)
    else Some(UnexpectedType(FromBe16(msg[0], msg[1])))
  }

  /** Why a client waiting for a reply to its `k`-th datagram gives up with `error`. */
  ghost predicate Breaks(env: Env, e: Event, k: nat, error: StunError) {
    match e
    case DeadlinePassed => error == Timeout
    case ReceiveFailed(reason) => error == Io(reason)
    case Received(bytes, from) =>
      || (from == env.server && Fault(Clip(bytes), env.ids(k)) == Some(error))
      || (env.sendError(k + 1).Some? && error == Io(env.sendError(k + 1).value)
          && exists nonce :: AsksAgain(env, e, k, nonce))
  }

  /** The event ends the exchange of a client that waits for a reply to its `k`-th datagram. */
  ghost predicate Ends(env: Env, e: Event, k: nat, result: Result<SocketAddr, SignedQueryError>) {
    match result
    case Ok(a) => Tells(env, e, k, a)
    case Err(Refused(code)) => Refuses(env, e, k, code)
    case Err(Stun(error)) => Breaks(env, e, k, error)
    case Err(BadChallenge) => false
  }

  /** A step ends the exchange exactly in these ways. */
  lemma StepEnds(env: Env, c: Client, e: Event, result: Result<SocketAddr, SignedQueryError>)
    requires c.status.Waiting? && InStep(env, c)
    ensures Step(env, c, e).status == Done(result) <==> Ends(env, e, |c.sent| - 1, result)
    ensures Step(env, c, e).status.Done? ==> Step(env, c, e).sent == c.sent
  {
    hide SignedRequest, BindingResponse, ErrorIn, Realm;
    var k := |c.sent| - 1;
    if e.Received? && e.from == env.server && ErrorIn(Clip(e.bytes), env.ids(k)).Ok? {
      ErrorHasType(Clip(e.bytes), env.ids(k));
      var ch := ErrorIn(Clip(e.bytes), env.ids(k)).value;
      if ch.nonce.Some? {
        assert AsksAgain(env, e, k, ch.nonce.value) <==> exists nonce :: AsksAgain(env, e, k, nonce);
      }
    }
    if e.Received? && BindingResponse(Clip(e.bytes), Some(env.ids(k))).Ok? {
      SuccessHasType(Clip(e.bytes), Some(env.ids(k)));
    }
  }

  lemma ErrorHasType(msg: Bytes, expected: TransactionId)
    requires ErrorIn(msg, expected).Ok?
    ensures |msg| >= 20 && FromBe16(msg[0], msg[1]) == BINDING_ERROR
  {
  }

  lemma SuccessHasType(msg: Bytes, expected: Option<TransactionId>)
    requires BindingResponse(msg, expected).Ok?
    ensures |msg| >= 20 && FromBe16(msg[0], msg[1]) == BINDING_SUCCESS
  {
  }

  /** A step that sends was a challenge to the latest datagram, and sends the signed request it asks for. */
  lemma SendIsPrompted(env: Env, c: Client, e: Event)
    requires c.status.Waiting? && InStep(env, c)
    requires |Step(env, c, e).sent| == |c.sent| + 1
    ensures |c.sent| <= 2 && InStep(env, Step(env, c, e))
    ensures exists nonce :: AsksAgain(env, e, |c.sent| - 1, nonce)
              && Step(env, c, e).sent == c.sent + [SignedRequest(env.ids(|c.sent|), nonce, env.signer, |c.sent|)]
  {
    hide SignedRequest, BindingResponse, ErrorIn;
    var ch := ErrorIn(Clip(e.bytes), c.status.expected).value;
    assert AsksAgain(env, e, |c.sent| - 1, ch.nonce.value);
  }

  // ----- what a run may have sent and reported, and why -----

  lemma {:induction false} RunSnoc(env: Env, c: Client, events: seq<Event>, e: Event)
    ensures RunFrom(env, c, events + [e]) == Step(env, RunFrom(env, c, events), e)
    decreases |events|
  {
    if events == [] {
      assert [] + [e] == [e] && [e][1..] == [];
    } else {
      assert (events + [e])[0] == events[0] && (events + [e])[1..] == events[1..] + [e];
      RunSnoc(env, Step(env, c, events[0]), events[1..], e);
    }
  }

  lemma NextStep(env: Env, events: seq<Event>, i: nat)
    requires i < |events|
    ensures Run(env, events[..i + 1]) == Step(env, Run(env, events[..i]), events[i])
  {
    hide Step;
    assert events[..i + 1] == events[..i] + [events[i]];
    RunSnoc(env, Start(env), events[..i], events[i]);
  }

  /** When the `i`-th event arrives the client is waiting, having sent exactly these datagrams. */
  ghost predicate Awaits(env: Env, events: seq<Event>, i: nat, sent: seq<Bytes>)
    requires i <= |events|
  {
    Run(env, events[..i]).status.Waiting? && Run(env, events[..i]).sent == sent
  }

  /**
   * The `k+1`-th datagram answers a challenge to the `k`-th, which came when that one and those
   * before it had been sent and nothing else.
   */
  ghost predicate Prompted(env: Env, events: seq<Event>, k: nat) {
    var sent := Run(env, events).sent;
    k + 1 < |sent| ==>
      exists i, nonce :: 0 <= i < |events| && AsksAgain(env, events[i], k, nonce)
                         && Awaits(env, events, i, sent[..k + 1])
                         && sent[k + 1] == SignedRequest(env.ids(k + 1), nonce, env.signer, k + 1)
  }

  /** The exchange did not even begin: the key cannot be one, or the first send failed. */
  ghost predicate FailsAtStart(env: Env, result: Result<SocketAddr, SignedQueryError>) {
    if !IsValidSpkiDer(env.signer.spki) then result == Err(BadChallenge)
    else env.sendError(0).Some? && result == Err(SignedQueryError.Stun(Io(env.sendError(0).value)))
  }

  /** Some event came while the client waited for a reply to its latest datagram, and meant this result. */
  ghost predicate Decided(env: Env, events: seq<Event>, sent: seq<Bytes>,
                          result: Result<SocketAddr, SignedQueryError>)
  {
    && sent != []
    && exists i :: 0 <= i < |events| && Awaits(env, events, i, sent) && Ends(env, events[i], |sent| - 1, result)
  }

  ghost predicate Justified(env: Env, events: seq<Event>) {
    var c := Run(env, events);
    && InStep(env, c)
    && (c.sent != [] ==> c.sent[0] == IdentityRequest(env.ids(0), env.signer.spki) && IsValidSpkiDer(env.signer.spki))
    && Prompted(env, events, 0)
    && Prompted(env, events, 1)
    && (c.status.Done? ==>
         (c.sent == [] && FailsAtStart(env, c.status.result)) || Decided(env, events, c.sent, c.status.result))
  }

  lemma AwaitsStays(env: Env, events: seq<Event>, e: Event, i: nat, sent: seq<Bytes>)
    requires i <= |events|
    ensures Awaits(env, events + [e], i, sent) <==> Awaits(env, events, i, sent)
  {
    hide Run;
    assert (events + [e])[..i] == events[..i];
  }

  lemma PromptedStays(env: Env, events: seq<Event>, e: Event, k: nat)
    requires Prompted(env, events, k)
    requires Run(env, events).sent <= Run(env, events + [e]).sent
    requires k + 1 < |Run(env, events + [e]).sent| ==> k + 1 < |Run(env, events).sent|
    ensures Prompted(env, events + [e], k)
  {
    hide Run, SignedRequest, AsksAgain, Awaits;
    var sent := Run(env, events).sent;
    if k + 1 < |sent| {
      var i, nonce :| 0 <= i < |events| && AsksAgain(env, events[i], k, nonce)
                      && Awaits(env, events, i, sent[..k + 1])
                      && sent[k + 1] == SignedRequest(env.ids(k + 1), nonce, env.signer, k + 1);
      assert (events + [e])[i] == events[i];
      assert Run(env, events + [e]).sent[..k + 1] == sent[..k + 1];
      AwaitsStays(env, events, e, i, sent[..k + 1]);
    }
  }

  lemma PromptedNow(env: Env, events: seq<Event>, e: Event)
    requires Run(env, events).status.Waiting? && InStep(env, Run(env, events))
    requires Run(env, events + [e]) == Step(env, Run(env, events), e)
    requires |Run(env, events + [e]).sent| == |Run(env, events).sent| + 1
    ensures Prompted(env, events + [e], |Run(env, events).sent| - 1)
  {
    hide Run, Step, SignedRequest, AsksAgain;
    var c := Run(env, events);
    SendIsPrompted(env, c, e);
    assert (events + [e])[|events|] == e && (events + [e])[..|events|] == events;
    assert Run(env, events + [e]).sent[..|c.sent|] == c.sent;
    assert Awaits(env, events + [e], |events|, c.sent);
  }

  lemma DecidedStays(env: Env, events: seq<Event>, e: Event, sent: seq<Bytes>,
                     result: Result<SocketAddr, SignedQueryError>)
    requires Decided(env, events, sent, result)
    ensures Decided(env, events + [e], sent, result)
  {
    hide Awaits, Ends;
    var i :| 0 <= i < |events| && Awaits(env, events, i, sent) && Ends(env, events[i], |sent| - 1, result);
    assert (events + [e])[i] == events[i];
    AwaitsStays(env, events, e, i, sent);
  }

  lemma DecidedNow(env: Env, events: seq<Event>, e: Event)
    requires Run(env, events).status.Waiting? && InStep(env, Run(env, events))
    requires Run(env, events + [e]) == Step(env, Run(env, events), e) && Run(env, events + [e]).status.Done?
    ensures Decided(env, events + [e], Run(env, events + [e]).sent, Run(env, events + [e]).status.result)
  {
    hide Run, Step, Ends;
    var c := Run(env, events);
    StepEnds(env, c, e, Step(env, c, e).status.result);
    assert (events + [e])[|events|] == e && (events + [e])[..|events|] == events;
    assert Awaits(env, events + [e], |events|, c.sent);
  }

  lemma SilentStep(env: Env, c: Client, e: Event)
    requires InStep(env, c) && |Step(env, c, e).sent| == |c.sent|
    ensures InStep(env, Step(env, c, e)) && Step(env, c, e).sent == c.sent
    ensures c.status.Done? ==> Step(env, c, e) == c
  {
    hide SignedRequest, BindingResponse, ErrorIn;
  }

  lemma StepKeepsJustified(env: Env, events: seq<Event>, e: Event)
    requires Justified(env, events)
    ensures Justified(env, events + [e])
  {
    hide Run, Step, InStep, IdentityRequest, Prompted, Decided, FailsAtStart, IsValidSpkiDer;
    var c, c' := Run(env, events), Run(env, events + [e]);
    assert c' == Step(env, c, e) by {
      assert (events + [e])[..|events| + 1] == events + [e] && (events + [e])[..|events|] == events;
      NextStep(env, events + [e], |events|);
    }
    StepAdvances(env, c, e);
    if |c'.sent| == |c.sent| + 1 {
      SendingJustified(env, events, e);
    } else {
      SilentStep(env, c, e);
      PromptedStays(env, events, e, 0);
      PromptedStays(env, events, e, 1);
      if c.status.Done? && Decided(env, events, c.sent, c.status.result) {
        DecidedStays(env, events, e, c.sent, c.status.result);
      }
      if c.status.Waiting? && c'.status.Done? {
        DecidedNow(env, events, e);
      }
    }
  }

  lemma SendingJustified(env: Env, events: seq<Event>, e: Event)
    requires Justified(env, events) && Run(env, events + [e]) == Step(env, Run(env, events), e)
    requires |Run(env, events + [e]).sent| == |Run(env, events).sent| + 1
    ensures Justified(env, events + [e])
  {
    hide Run, IdentityRequest, SignedRequest, Decided, FailsAtStart, IsValidSpkiDer, AsksAgain, OnDatagram, Prompted;
    var c := Run(env, events);
    StepAdvances(env, c, e);
    SendIsPrompted(env, c, e);
    SendingWaits(env, c, e);
    PromptedNow(env, events, e);
    if |c.sent| == 2 {
      PromptedStays(env, events, e, 0);
    } else {
      NothingToPrompt(env, events + [e], 1);
    }
  }

  lemma SendingWaits(env: Env, c: Client, e: Event)
    requires c.status.Waiting? && InStep(env, c) && |Step(env, c, e).sent| == |c.sent| + 1
    ensures Step(env, c, e).status.Waiting?
  {
    hide SignedRequest, BindingResponse, ErrorIn;
  }

  lemma NothingToPrompt(env: Env, events: seq<Event>, k: nat)
    requires |Run(env, events).sent| <= k + 1
    ensures Prompted(env, events, k)
  {
  }

  /**
   * Safety of every run: at most three datagrams, the first the identity request, each later one
   * the answer to a challenge by the server to the one before it, which came when exactly the ones
   * before it had been sent; and every result has its cause, an event that came while the client
   * waited for a reply to its latest datagram, or a start that failed.
   */
  lemma {:induction false} EveryRunJustified(env: Env, events: seq<Event>)
    ensures Justified(env, events)
    decreases |events|
  {
    hide Justified, Step;
    if events == [] {
      StartJustified(env);
    } else {
      EveryRunJustified(env, Front(events));
      assert Front(events) + [Last(events)] == events;
      StepKeepsJustified(env, Front(events), Last(events));
    }
  }

  lemma StartJustified(env: Env)
    ensures Justified(env, [])
  {
    hide IdentityRequest, SignedRequest, IsValidSpkiDer;
  }

  lemma {:induction false} SentGrows(env: Env, events: seq<Event>, i: nat, j: nat)
    requires i <= j <= |events|
    ensures Run(env, events[..i]).sent <= Run(env, events[..j]).sent
    ensures Run(env, events[..i]).status.Done? ==> Run(env, events[..j]) == Run(env, events[..i])
    decreases j
  {
    hide Run, OnDatagram;
    if i < j {
      SentGrows(env, events, i, j - 1);
      NextStep(env, events, j - 1);
      StepAdvances(env, Run(env, events[..j - 1]), events[j - 1]);
    }
  }

  /** The client waits with fewer datagrams sent only before it waits with more. */
  lemma AwaitsInOrder(env: Env, events: seq<Event>, i: nat, sent: seq<Bytes>, j: nat, sent': seq<Bytes>)
    requires i <= |events| && j <= |events| && Awaits(env, events, i, sent) && Awaits(env, events, j, sent')
    ensures |sent| < |sent'| ==> i < j
  {
    hide Run;
    if j <= i {
      SentGrows(env, events, j, i);
    }
  }

  /** A run has a result exactly if its start failed that way or one of its events meant it. */
  lemma ResultIff(env: Env, events: seq<Event>, result: Result<SocketAddr, SignedQueryError>)
    ensures Run(env, events).status == Done(result)
       <==> FailsAtStart(env, result) || exists sent :: Decided(env, events, sent, result)
  {
    hide Run, Ends, Justified, Decided, FailsAtStart;
    assert events[..|events|] == events;
    if Run(env, events).status == Done(result) {
      EveryRunJustified(env, events);
      JustifiedResult(env, events);
    }
    if FailsAtStart(env, result) {
      StartFails(env, result);
      SentGrows(env, events, 0, |events|);
      assert events[..0] == [];
    }
    if sent :| Decided(env, events, sent, result) {
      DecidedMeansDone(env, events, sent, result);
    }
  }

  lemma JustifiedResult(env: Env, events: seq<Event>)
    requires Justified(env, events) && Run(env, events).status.Done?
    ensures FailsAtStart(env, Run(env, events).status.result)
            || Decided(env, events, Run(env, events).sent, Run(env, events).status.result)
  {
  }

  lemma StartFails(env: Env, result: Result<SocketAddr, SignedQueryError>)
    requires FailsAtStart(env, result)
    ensures Run(env, []).status == Done(result)
  {
    hide IdentityRequest;
  }

  lemma DecidedMeansDone(env: Env, events: seq<Event>, sent: seq<Bytes>, result: Result<SocketAddr, SignedQueryError>)
    requires Decided(env, events, sent, result)
    ensures Run(env, events).status == Done(result)
  {
    hide Run, Ends, Step, Justified;
    var i :| 0 <= i < |events| && Awaits(env, events, i, sent) && Ends(env, events[i], |sent| - 1, result);
    EveryRunJustified(env, events[..i]);
    StepsTogether(env, events[..i]);
    NextStep(env, events, i);
    StepEnds(env, Run(env, events[..i]), events[i], result);
    SentGrows(env, events, i + 1, |events|);
    assert events[..|events|] == events;
  }

  lemma StepsTogether(env: Env, events: seq<Event>)
    requires Justified(env, events)
    ensures InStep(env, Run(env, events))
  {
  }

  // ----- what the server makes of it -----

  /** The signer's output always has the size of a signature. */
  ghost predicate SignsWell(signer: Signer) {
    forall n, m :: IsValidSignatureDerLen(signer.sign(n, m))
  }

  lemma {:induction false} NonceAmongAttrs(attrs: seq<Tlv.Attr>)
    ensures NonceOf(attrs).Some? ==> Tlv.Attr(ATTR_NONCE, NonceOf(attrs).value) in attrs
  {
    if attrs != [] {
      NonceAmongAttrs(Front(attrs));
      assert attrs == Front(attrs) + [Last(attrs)];
    }
  }

  /** Whatever nonce an area carries fits into it. */
  lemma NonceFits(area: Bytes)
    requires NonceOf(Tlv.Decode(area).attrs).Some?
    ensures |NonceOf(Tlv.Decode(area).attrs).value| <= |area|
  {
    hide Tlv.DecodeFrom, NonceOf;
    var attrs := Tlv.Decode(area).attrs;
    NonceAmongAttrs(attrs);
    var i :| 0 <= i < |attrs| && attrs[i] == Tlv.Attr(ATTR_NONCE, NonceOf(attrs).value);
    Tlv.DecodedFits(area, 0, i);
  }

  lemma NonceIsShort(env: Env, e: Event, k: nat, nonce: Bytes)
    requires AsksAgain(env, e, k, nonce)
    ensures |nonce| <= BUFFER_LEN
  {
    hide Tlv.Decode, NonceOf;
    NonceFits(AreaOf(Clip(e.bytes)));
  }

  lemma PromptedClassifies(env: Env, events: seq<Event>, k: nat)
    requires Prompted(env, events, k) && k + 1 < |Run(env, events).sent|
    requires IsValidSpkiDer(env.signer.spki) && SignsWell(env.signer)
    ensures exists i, nonce :: 0 <= i < |events| && AsksAgain(env, events[i], k, nonce)
              && Awaits(env, events, i, Run(env, events).sent[..k + 1])
              && ClassifyRequest(Run(env, events).sent[k + 1])
                 == Ok((env.ids(k + 1),
                        Signed(env.signer.spki, nonce, SignatureFor(env.ids(k + 1), nonce, env.signer, k + 1))))
  {
    hide Run, ErrorIn, SignedRequest, ClassifyRequest, IsValidSpkiDer, SigningMessage, Awaits;
    var sent := Run(env, events).sent;
    var i, nonce :| 0 <= i < |events| && AsksAgain(env, events[i], k, nonce) && Awaits(env, events, i, sent[..k + 1])
                    && sent[k + 1] == SignedRequest(env.ids(k + 1), nonce, env.signer, k + 1);
    NonceIsShort(env, events[i], k, nonce);
    SignedRequestClassifies(env.ids(k + 1), nonce, env.signer, k + 1);
  }

  /**
   * On the wire every run looks like this: first an identity request, then signed requests, each
   * carrying exactly the nonce of the challenge that caused it, under ids drawn for it alone.
   */
  lemma SentDatagramsClassify(env: Env, events: seq<Event>, k: nat)
    requires SignsWell(env.signer) && k < |Run(env, events).sent|
    ensures k == 0 ==> ClassifyRequest(Run(env, events).sent[0]) == Ok((env.ids(0), Identity(env.signer.spki)))
    ensures k > 0 ==>
              exists i, nonce ::
                && 0 <= i < |events| && AsksAgain(env, events[i], k - 1, nonce)
                && Awaits(env, events, i, Run(env, events).sent[..k])
                && ClassifyRequest(Run(env, events).sent[k])
                   == Ok((env.ids(k), Signed(env.signer.spki, nonce, SignatureFor(env.ids(k), nonce, env.signer, k))))
  {
    hide Run, Prompted, AsksAgain, Awaits, ClassifyRequest, IdentityRequest, IsValidSpkiDer, SignatureFor, Decided;
    EveryRunJustified(env, events);
    if k == 0 {
      IdentityRequestClassifies(env.ids(0), env.signer.spki);
    } else {
      PromptedClassifies(env, events, k - 1);
    }
  }
}
