/**
 * What a captured signed request is good for: the verdict on a datagram that was answered with an
 * identity once, when it is presented again from any source at any time.
 */
module Replay {
  import opened Prelude
  import opened Scope
  import opened Codec
  import opened Wire
  import opened Request
  import opened Signature
  import opened Nonce
  import opened Server
  import Base64Url
  import Response

  /** The datagram was answered with an identity. */
  predicate Identified(s: Server, input: Input) {
    && Decision(s, input).Some? && Decision(s, input).value.Answer? && Decision(s, input).value.identity.Some?
  }

  /** The same datagram again. */
  function Again(input: Input, source: SocketAddr, nowSecs: u64): Input {
    Input(input.datagram, source, nowSecs)
  }

  /** The bucket the presented nonce was issued in. */
  function NonceBucket(input: Input): u32
    requires PresentedNonce(input).Some?
  {
    FromBe32(PresentedNonce(input).value[..4])
  }

  /** Whether `now` is the nonce's bucket or the next one, on the wrapped counter. */
  predicate StillGood(bucket: u32, nowSecs: u64) {
    (nowSecs / NONCE_BUCKET_SECS - bucket) % BUCKETS <= 1
  }

  lemma GoodBuckets(bucket: u32, nowSecs: u64)
    ensures bucket == BucketOf(nowSecs) || bucket == WrappingPred(BucketOf(nowSecs)) <==> StillGood(bucket, nowSecs)
  {
    WrappedDistance(bucket, nowSecs / NONCE_BUCKET_SECS);
    RemainderIs(bucket, 0, bucket);
  }

  lemma PresentedIsJudged(s: Server, input: Input)
    requires Identified(s, input)
    ensures PresentedNonce(input).Some? && SignedIn(input).Some? && ClassifyRequest(input.datagram).Ok?
    ensures ClassifyRequest(input.datagram).value.1 == SignedIn(input).value
    ensures VerifySignedRequest(s.verify, ClassifyRequest(input.datagram).value.0, SignedIn(input).value)
         == Ok(Decision(s, input).value.identity.value)
    ensures CheckRaw(s.issuer, PresentedNonce(input).value, input.source, input.nowSecs) == Fresh
  {
    hide ClassifyRequest, CheckRaw, VerifySignedRequest, Base64Url.Decode;
  }

  lemma AgainIsJudged(s: Server, input: Input, source: SocketAddr, nowSecs: u64)
    requires Identified(s, input)
    ensures PresentedNonce(input).Some?
    ensures Decision(s, Again(input, source, nowSecs)) ==
              match CheckRaw(s.issuer, PresentedNonce(input).value, source, nowSecs)
              case Fresh => Decision(s, input)
              case Stale => Some(Challenge(ERR_STALE_NONCE))
              case Invalid => Some(Challenge(ERR_UNAUTHENTICATED))
  {
    hide ClassifyRequest, CheckRaw, VerifySignedRequest, Base64Url.Decode;
    PresentedIsJudged(s, input);
  }

  /**
   * A replay is answered, with the same identity, exactly if the tag of the nonce's bucket is the
   * same for both sources and the nonce is still good. With another tag the nonce is no nonce; with
   * the same tag but too late it is stale.
   */
  lemma ReplayVerdict(s: Server, input: Input, source: SocketAddr, nowSecs: u64)
    requires Identified(s, input)
    ensures PresentedNonce(input).Some?
    ensures var bucket := NonceBucket(input);
            Decision(s, Again(input, source, nowSecs)) ==
              if TagFor(s.issuer, bucket, source) != TagFor(s.issuer, bucket, input.source)
              then Some(Challenge(ERR_UNAUTHENTICATED))
              else if StillGood(bucket, nowSecs) then Decision(s, input)
              else Some(Challenge(ERR_STALE_NONCE))
  {
    hide Decision, Identified, PresentedNonce, TagFor, BucketOf, WrappingPred, FromBe32, StillGood, SignedIn,
         ClassifyRequest, VerifySignedRequest;
    PresentedIsJudged(s, input);
    AgainIsJudged(s, input, source, nowSecs);
    GoodBuckets(NonceBucket(input), nowSecs);
  }

  /** From the same address and port a replay in time yields the very bytes the first reply was. */
  lemma ReplayedReply(s: Server, input: Input, source: SocketAddr, nowSecs: u64)
    requires Identified(s, input) && Fold(source) == Fold(input.source)
    ensures PresentedNonce(input).Some?
    ensures StillGood(NonceBucket(input), nowSecs) ==> Reply(s, Again(input, source, nowSecs)) == Reply(s, input)
    ensures !StillGood(NonceBucket(input), nowSecs) ==>
              Decision(s, Again(input, source, nowSecs)) == Some(Challenge(ERR_STALE_NONCE))
  {
    hide Decision, PresentedNonce, TagFor, FromBe32, StillGood, NonceBucket, BindingSuccess, ClassifyRequest, SignedIn,
         VerifySignedRequest;
    ReplayVerdict(s, input, source, nowSecs);
    SameTag(s.issuer, NonceBucket(input), source, input.source);
    PresentedIsJudged(s, input);
    ClassifiedTxid(input.datagram);
    SameReply(TxidOf(input.datagram), source, input.source);
  }

  lemma SameTag(issuer: NonceIssuer, bucket: u32, source: SocketAddr, source': SocketAddr)
    requires Fold(source) == Fold(source')
    ensures TagFor(issuer, bucket, source) == TagFor(issuer, bucket, source')
  {
  }

  lemma SameReply(txid: TransactionId, source: SocketAddr, source': SocketAddr)
    requires Fold(source) == Fold(source')
    ensures BindingSuccess(txid, source) == BindingSuccess(txid, source')
  {
  }

  /** Two minutes after the answer, at the latest, and short of a turn of the bucket counter, a replay is over. */
  lemma ReplayEnds(s: Server, input: Input, source: SocketAddr, nowSecs: u64)
    requires Identified(s, input) && Fold(source) == Fold(input.source)
    requires input.nowSecs + 120 <= nowSecs < input.nowSecs + 120 + NONCE_BUCKET_SECS * (BUCKETS - 4)
    ensures Decision(s, Again(input, source, nowSecs)) == Some(Challenge(ERR_STALE_NONCE))
  {
    hide Decision, Identified, PresentedNonce, TagFor, FromBe32, StillGood, NonceBucket;
    ReplayedReply(s, input, source, nowSecs);
    IdentifiedIsGood(s, input);
    GoodOnlyOnce(NonceBucket(input), input.nowSecs, nowSecs);
  }

  lemma IdentifiedIsGood(s: Server, input: Input)
    requires Identified(s, input)
    ensures PresentedNonce(input).Some? && StillGood(NonceBucket(input), input.nowSecs)
  {
    hide Decision, Identified, PresentedNonce, TagFor, BucketOf, WrappingPred, FromBe32, StillGood, SignedIn,
         ClassifyRequest, VerifySignedRequest;
    PresentedIsJudged(s, input);
    GoodBuckets(NonceBucket(input), input.nowSecs);
  }

  lemma GoodOnlyOnce(bucket: u32, t: u64, t': u64)
    requires StillGood(bucket, t) && t + 120 <= t' < t + 120 + NONCE_BUCKET_SECS * (BUCKETS - 4)
    ensures !StillGood(bucket, t')
  {
    var d, d' := t / 60 - bucket, t' / 60 - bucket;
    var turns := d / 0x1_0000_0000;
    assert d == 0x1_0000_0000 * turns + d % 0x1_0000_0000;
    assert 2 <= t' / 60 - t / 60 < 0x1_0000_0000 - 1;
    RemainderIs(d', turns, d' - 0x1_0000_0000 * turns);
  }
}
