/**
 * The stateless nonce: a time bucket and a keyed tag over that bucket and the folded source.
 * The key and HMAC-SHA256 together are one parameter, a function from messages to 32 bytes.
 */
module Nonce {
  import opened Prelude
  import opened Scope
  import opened Wire
  import opened Response
  import Bits
  import Base64Url

  const NONCE_LEN: nat := 20
  const NONCE_BUCKET_SECS: nat := 60
  const BUCKETS: nat := 0x1_0000_0000
  const NONCE_FAMILY_IPV4: u8 := 0x01
  const NONCE_FAMILY_IPV6: u8 := 0x02

  type Mac = s: Bytes | |s| == 32 witness seq(32, _ => 0)

  type Tag = s: Bytes | |s| == 16 witness seq(16, _ => 0)

  datatype NonceCheck = Fresh | Stale | Invalid

  datatype NonceIssuer = NonceIssuer(hmac: Bytes -> Mac)

  /** `(now / 60) as u32`: the bucket number wraps around. */
  function BucketOf(nowSecs: u64): u32 {
    nowSecs / NONCE_BUCKET_SECS % BUCKETS
  }

  function FamilyAndOctets(ip: IpAddr): Bytes {
    match ip
    case V4(o) => [NONCE_FAMILY_IPV4] + o
    case V6(o) => [NONCE_FAMILY_IPV6] + o
  }

  /** The bytes under the tag. */
  function TagMessage(bucket: u32, source: SocketAddr): Bytes {
    NonceDomainTag() + Be32(bucket) + FamilyAndOctets(FoldIp(source.ip)) + Be16(source.port)
  }

  function TagFor(issuer: NonceIssuer, bucket: u32, source: SocketAddr): Tag {
    issuer.hmac(TagMessage(bucket, source))[..16]
  }

  function Issue(issuer: NonceIssuer, source: SocketAddr, nowSecs: u64): RawNonce {
    Be32(BucketOf(nowSecs)) + TagFor(issuer, BucketOf(nowSecs), source)
  }

  /** The nonce as a challenge carries it. */
  function IssuedText(issuer: NonceIssuer, source: SocketAddr, nowSecs: u64): Bytes {
    Base64Url.Encode(Issue(issuer, source, nowSecs))
  }

  function WrappingPred(bucket: u32): u32 {
    if bucket == 0 then BUCKETS - 1 else bucket - 1
  }

  function CheckRaw(issuer: NonceIssuer, raw: RawNonce, source: SocketAddr, nowSecs: u64): NonceCheck {
    var bucket := FromBe32(raw[..4]);
    if raw[4..] != TagFor(issuer, bucket, source) then Invalid
    else if bucket == BucketOf(nowSecs) || bucket == WrappingPred(BucketOf(nowSecs)) then Fresh
    else Stale
  }

  function Check(issuer: NonceIssuer, text: Bytes, source: SocketAddr, nowSecs: u64): NonceCheck {
    match Base64Url.Decode(text)
    case None => Invalid
    case Some(raw) => if |raw| == NONCE_LEN then CheckRaw(issuer, raw, source, nowSecs) else Invalid
  }

  method IssueNonce(issuer: NonceIssuer, source: SocketAddr, nowSecs: u64) returns (nonce: array<u8>)
    ensures fresh(nonce) && nonce[..] == Issue(issuer, source, nowSecs)
  {
    var bucket := BucketOf(nowSecs);
    var head, tag := Be32(bucket), TagFor(issuer, bucket, source);
    nonce := new u8[20](_ => 0);
    for i := 0 to 4
      invariant nonce[..i] == head[..i]
    {
      nonce[i] := head[i];
    }
    for i := 0 to 16
      invariant nonce[..4] == head && nonce[4..4 + i] == tag[..i]
    {
      nonce[4 + i] := tag[i];
    }
    assert nonce[..] == nonce[..4] + nonce[4..20];
  }

  method CheckNonce(issuer: NonceIssuer, text: Bytes, source: SocketAddr, nowSecs: u64) returns (r: NonceCheck)
    ensures r == Check(issuer, text, source, nowSecs)
  {
    var decoded := Base64Url.DecodeLoop(text);
    if decoded.None? || |decoded.value| != NONCE_LEN {
      return Invalid;
    }
    var raw := decoded.value;
    var bucket := FromBe32(raw[..4]);
    var expected := TagFor(issuer, bucket, source);
    var same := Bits.ConstantTimeEq(raw[4..NONCE_LEN], expected);
    if !same {
      return Invalid;
    }
    var nowBucket := BucketOf(nowSecs);
    if bucket == nowBucket || bucket == WrappingPred(nowBucket) {
      return Fresh;
    } else {
      return Stale;
    }
  }

  // ----- what the tag covers -----

  lemma Be32Injective(x: u32, y: u32)
    requires Be32(x) == Be32(y)
    ensures x == y
  {
    Be32RoundTrip(x);
    Be32RoundTrip(y);
  }

  /** The tag's message determines the bucket, the folded address and the port. */
  lemma TagMessageInjective(b: u32, s: SocketAddr, b': u32, s': SocketAddr)
    requires TagMessage(b, s) == TagMessage(b', s')
    ensures b == b' && Fold(s) == Fold(s')
  {
    TagMessageParts(b, s);
    TagMessageParts(b', s');
    Be32Injective(b, b');
    assert FamilyAndOctets(FoldIp(s.ip))[1..] == FamilyAndOctets(FoldIp(s'.ip))[1..];
    assert FromBe16(Be16(s.port)[0], Be16(s.port)[1]) == s.port;
    assert FromBe16(Be16(s'.port)[0], Be16(s'.port)[1]) == s'.port;
  }

  lemma TagMessageParts(b: u32, s: SocketAddr)
    ensures var m := TagMessage(b, s);
            && |m| == (if FoldIp(s.ip).V4? then 28 else 40)
            && m[17..21] == Be32(b)
            && m[21..|m| - 2] == FamilyAndOctets(FoldIp(s.ip))
            && m[|m| - 2..] == Be16(s.port)
  {
  }

  // ----- how long a nonce lives -----

  /** Whether `bucket` is the current or the previous one, as a distance on the wrapped clock. */
  lemma FreshBuckets(t: u64, t': u64)
    ensures BucketOf(t) == BucketOf(t') || BucketOf(t) == WrappingPred(BucketOf(t'))
       <==> (t' / NONCE_BUCKET_SECS - t / NONCE_BUCKET_SECS) % BUCKETS <= 1
  {
    WrappedDistance(t / NONCE_BUCKET_SECS, t' / NONCE_BUCKET_SECS);
  }

  /** Whether one counter reads what the other does, or one less, once both have wrapped around. */
  lemma WrappedDistance(a: nat, b: nat)
    ensures var x, y := a % 0x1_0000_0000, b % 0x1_0000_0000;
            x == y || x == (if y == 0 then 0x1_0000_0000 - 1 else y - 1) <==> (b - a) % 0x1_0000_0000 <= 1
  {
    var n := 0x1_0000_0000;
    var x, y, turns := a % n, b % n, b / n - a / n;
    assert b - a == n * turns + (y - x);
    if y >= x {
      RemainderIs(b - a, turns, y - x);
    } else {
      RemainderIs(b - a, turns - 1, y - x + n);
    }
  }

  lemma RemainderIs(d: int, turns: int, r: nat)
    requires d == 0x1_0000_0000 * turns + r && r < 0x1_0000_0000
    ensures d % 0x1_0000_0000 == r
  {
  }

  /** A nonce issued at `t` and presented at `t'` from the same source is never invalid. */
  lemma NonceLifetime(issuer: NonceIssuer, source: SocketAddr, source': SocketAddr, t: u64, t': u64)
    requires Fold(source) == Fold(source')
    ensures Check(issuer, IssuedText(issuer, source, t), source', t')
         == if (t' / NONCE_BUCKET_SECS - t / NONCE_BUCKET_SECS) % BUCKETS <= 1 then Fresh else Stale
  {
    hide Base64Url.Encode, Base64Url.Decode, BucketOf, WrappingPred, Issue, FromBe32;
    Base64Url.RoundTrip(Issue(issuer, source, t));
    IssueParts(issuer, source, t);
    assert TagMessage(BucketOf(t), source) == TagMessage(BucketOf(t), source');
    FreshBuckets(t, t');
  }

  lemma DistanceBound(t: u64, t': u64)
    requires t <= t' <= t + NONCE_BUCKET_SECS * (BUCKETS - 1)
    ensures 0 <= t' / NONCE_BUCKET_SECS - t / NONCE_BUCKET_SECS < BUCKETS
  {
  }

  /** Short of a whole turn of the bucket counter: fresh exactly in its own bucket and the next. */
  lemma FreshExactlyTwoBuckets(issuer: NonceIssuer, source: SocketAddr, t: u64, t': u64)
    requires t <= t' <= t + NONCE_BUCKET_SECS * (BUCKETS - 1)
    ensures Check(issuer, IssuedText(issuer, source, t), source, t')
         == if t' / NONCE_BUCKET_SECS - t / NONCE_BUCKET_SECS <= 1 then Fresh else Stale
    ensures t' <= t + 60 ==> Check(issuer, IssuedText(issuer, source, t), source, t') == Fresh
    ensures t' >= t + 120 ==> Check(issuer, IssuedText(issuer, source, t), source, t') == Stale
  {
    hide Check, IssuedText;
    NonceLifetime(issuer, source, source, t, t');
    DistanceBound(t, t');
    SmallMod(t' / NONCE_BUCKET_SECS - t / NONCE_BUCKET_SECS);
  }

  lemma SmallMod(d: int)
    requires 0 <= d < BUCKETS
    ensures d % BUCKETS == d
  {
  }

  /** A whole turn later the same nonce is fresh again. */
  lemma FreshAfterWrapAround(issuer: NonceIssuer, source: SocketAddr, t: u64, t': u64)
    requires t' == t + NONCE_BUCKET_SECS * BUCKETS
    ensures Check(issuer, IssuedText(issuer, source, t), source, t') == Fresh
  {
    hide Check, IssuedText;
    NonceLifetime(issuer, source, source, t, t');
    assert t' / 60 - t / 60 == 0x1_0000_0000;
  }

  /** From another source a nonce is invalid exactly when the two sources' tags differ. */
  lemma OtherSource(issuer: NonceIssuer, source: SocketAddr, other: SocketAddr, t: u64, t': u64)
    ensures Check(issuer, IssuedText(issuer, source, t), other, t') == Invalid
       <==> TagFor(issuer, BucketOf(t), source) != TagFor(issuer, BucketOf(t), other)
  {
    hide Base64Url.Encode, Base64Url.Decode, BucketOf, WrappingPred, TagFor, Issue, FromBe32;
    Base64Url.RoundTrip(Issue(issuer, source, t));
    IssueParts(issuer, source, t);
  }

  lemma IssueParts(issuer: NonceIssuer, source: SocketAddr, t: u64)
    ensures var raw := Issue(issuer, source, t);
            && FromBe32(raw[..4]) == BucketOf(t) && raw[4..] == TagFor(issuer, BucketOf(t), source)
  {
  }

  /** The nonce that carries this bucket is issued at the bucket's first second. */
  lemma IssuedInBucket(issuer: NonceIssuer, raw: RawNonce, source: SocketAddr, bucket: u32, t: u64)
    requires FromBe32(raw[..4]) == bucket && raw[4..] == TagFor(issuer, bucket, source)
    requires t == bucket * NONCE_BUCKET_SECS
    ensures raw == Issue(issuer, source, t)
  {
    hide TagFor, BucketOf, FromBe32, Be32;
    Be32OfBytes(raw[..4]);
    assert raw == raw[..4] + raw[4..];
    BucketStart(bucket);
  }

  lemma BucketStart(bucket: u32)
    ensures BucketOf(bucket * NONCE_BUCKET_SECS) == bucket
  {
  }

  /** A text is not invalid exactly when it spells a nonce this issuer mints for this source at some time. */
  lemma NotInvalidIffIssued(issuer: NonceIssuer, text: Bytes, source: SocketAddr, nowSecs: u64)
    ensures Check(issuer, text, source, nowSecs) != Invalid
       <==> exists t: u64 :: Base64Url.Decode(text) == Some(Issue(issuer, source, t))
  {
    hide Base64Url.Decode, TagFor, Issue, BucketOf, FromBe32;
    if Check(issuer, text, source, nowSecs) != Invalid {
      var raw := Base64Url.Decode(text).value;
      var bucket := FromBe32(raw[..4]);
      IssuedInBucket(issuer, raw, source, bucket, bucket * NONCE_BUCKET_SECS);
    }
    if t: u64 :| Base64Url.Decode(text) == Some(Issue(issuer, source, t)) {
      IssueParts(issuer, source, t);
    }
  }

  lemma Be32OfBytes(s: Bytes)
    requires |s| == 4
    ensures Be32(FromBe32(s)) == s
  {
  }

  /**
   * Item 11 in section 11 of the dig-stun Normative Specification wants a nonce with any flipped
   * byte to be invalid. The text leaves two bits of its last character unused, so exactly four
   * texts spell each nonce, and all four get the verdict of the issued one.
   */
  lemma FourTextsOneVerdict(issuer: NonceIssuer, source: SocketAddr, t: u64, nowSecs: u64)
    ensures var raw := Issue(issuer, source, t);
            && |Base64Url.Texts(raw)| == 4
            && IssuedText(issuer, source, t) in Base64Url.Texts(raw)
            && (forall text :: text in Base64Url.Texts(raw) <==> Base64Url.Decode(text) == Some(raw))
            && forall text :: text in Base64Url.Texts(raw) ==>
                 Check(issuer, text, source, nowSecs)
                 == Check(issuer, IssuedText(issuer, source, t), source, nowSecs)
  {
    var raw := Issue(issuer, source, t);
    hide Issue, Base64Url.Texts, Base64Url.Decode, Base64Url.Encode, CheckRaw;
    Base64Url.PreimageCount(raw);
    Base64Url.RoundTrip(raw);
  }

  /** No other bucket's tag for this source ends in the fifteen bytes that end this one's. */
  ghost predicate TagStandsAlone(issuer: NonceIssuer, bucket: u32, source: SocketAddr) {
    forall b: u32 :: b != bucket ==> TagFor(issuer, b, source)[1..] != TagFor(issuer, bucket, source)[1..]
  }

  /** Another raw nonce with the same bucket, or with the same last fifteen bytes, is not a valid one. */
  lemma NeighbourInvalid(issuer: NonceIssuer, source: SocketAddr, t: u64, raw: RawNonce, nowSecs: u64)
    requires raw != Issue(issuer, source, t) && TagStandsAlone(issuer, BucketOf(t), source)
    requires raw[..4] == Issue(issuer, source, t)[..4] || raw[5..] == Issue(issuer, source, t)[5..]
    ensures CheckRaw(issuer, raw, source, nowSecs) == Invalid
  {
    hide TagFor, BucketOf, FromBe32, Issue, WrappingPred;
    var issued, bucket := Issue(issuer, source, t), FromBe32(raw[..4]);
    IssueParts(issuer, source, t);
    Be32OfBytes(raw[..4]);
    Be32OfBytes(issued[..4]);
    assert issued == issued[..4] + issued[4..] && raw == raw[..4] + raw[4..];
    assert raw[4..][1..] == raw[5..] && issued[4..][1..] == issued[5..];
  }

  /**
   * The same item, exactly. Unless tags collide, changing one character of an issued
   * text makes it invalid, except that the last character may change in its two lower bits, which
   * changes nothing.
   */
  lemma OneCharacterChanged(issuer: NonceIssuer, source: SocketAddr, t: u64, nowSecs: u64, i: nat, c: u8)
    requires i < |IssuedText(issuer, source, t)| && c != IssuedText(issuer, source, t)[i]
    requires TagStandsAlone(issuer, BucketOf(t), source)
    ensures var text := IssuedText(issuer, source, t);
            var last := Base64Url.Value64(Last(text));
            && |text| == 27 && last.Some?
            && Check(issuer, text[i := c], source, nowSecs) ==
                 if i == 26 && Base64Url.Value64(c).Some? && Base64Url.Value64(c).value / 4 == last.value / 4
                 then Check(issuer, text, source, nowSecs) else Invalid
  {
    hide Base64Url.Decode, Base64Url.Encode, Issue, CheckRaw, TagStandsAlone, BucketOf, Base64Url.Value64;
    var raw, text := Issue(issuer, source, t), IssuedText(issuer, source, t);
    var text' := text[i := c];
    Base64Url.EncodeInAlphabet(raw);
    Base64Url.RoundTrip(raw);
    Base64Url.DecodesIff(text', raw);
    var decoded := Base64Url.Decode(text');
    if decoded.Some? && |decoded.value| == NONCE_LEN && decoded.value != raw {
      Base64Url.OneCharacter(text, i, c);
      NeighbourInvalid(issuer, source, t, decoded.value, nowSecs);
    }
    SpelledAlike(text, i, c);
  }

  /** Which single changes leave what 27 characters spell alone. */
  lemma SpelledAlike(text: Bytes, i: nat, c: u8)
    requires |text| == 27 && i < 27 && c != text[i] && Base64Url.InAlphabet(text)
    ensures Base64Url.SameText(text[i := c], text, Base64Url.Slack(NONCE_LEN))
       <==> i == 26 && Base64Url.Value64(c).Some?
            && Base64Url.Value64(c).value / 4 == Base64Url.Value64(Last(text)).value / 4
  {
    hide Base64Url.Value64;
    var text' := text[i := c];
    if i == 26 && Base64Url.Value64(c).Some? {
      assert Base64Url.InAlphabet(text');
    }
    if Base64Url.InAlphabet(text') {
      assert Base64Url.Value64(text'[i]).Some?;
    }
    if i < 26 {
      assert text'[i] != text[i];
    }
  }
}
