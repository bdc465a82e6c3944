/**
 * How small a request with a stale nonce can be. The table of error responses in section 14.3.3 of
 * the dig-stun Normative Specification sets the 84-byte reply against at least 212 bytes; the
 * classifier accepts less.
 */
module LeastSizes {
  import opened Prelude
  import opened Scope
  import opened Tlv
  import opened Codec
  import opened Wire
  import opened Request
  import opened RequestWriter
  import opened Signature
  import opened Nonce
  import opened Server
  import Base64Url
  import Response

  // ----- how many bytes attributes take up -----

  /** The bytes of an attribute with its head and padding. */
  function Padded(a: Attr): nat {
    4 + |a.value| + Padding(|a.value|)
  }

  function PaddedSum(attrs: seq<Attr>): nat {
    if attrs == [] then 0 else PaddedSum(Front(attrs)) + Padded(Last(attrs))
  }

  /** Where the walk stands after its first `k` attributes. */
  function OffsetAfter(area: Bytes, off: nat, k: nat): nat
    requires k <= |DecodeFrom(area, off).attrs|
    decreases k
  {
    if k == 0 then off else OffsetAfter(area, NextOffset(area, off), k - 1)
  }

  lemma {:induction false} OffsetIsSum(area: Bytes, off: nat, k: nat)
    requires k <= |DecodeFrom(area, off).attrs|
    ensures OffsetAfter(area, off, k) == off + PaddedSum(DecodeFrom(area, off).attrs[..k])
    decreases k
  {
    var attrs := DecodeFrom(area, off).attrs;
    if k > 0 {
      var rest := DecodeFrom(area, NextOffset(area, off)).attrs;
      OffsetIsSum(area, NextOffset(area, off), k - 1);
      assert attrs[..k] == [AttrAt(area, off)] + rest[..k - 1];
      PaddedSumCons(AttrAt(area, off), rest[..k - 1]);
    }
  }

  lemma {:induction false} PaddedSumCons(a: Attr, attrs: seq<Attr>)
    ensures PaddedSum([a] + attrs) == Padded(a) + PaddedSum(attrs)
  {
    if attrs == [] {
      assert [a] + attrs == [a] && Front([a]) == [];
    } else {
      PaddedSumCons(a, Front(attrs));
      assert Front([a] + attrs) == [a] + Front(attrs);
    }
  }

  lemma {:induction false} LastFits(area: Bytes, off: nat, k: nat)
    requires k < |DecodeFrom(area, off).attrs|
    ensures OffsetAfter(area, off, k) + 4 + |DecodeFrom(area, off).attrs[k].value| <= |area|
    decreases k
  {
    if k > 0 {
      LastFits(area, NextOffset(area, off), k - 1);
    }
  }

  lemma {:induction false} OneOfThem(attrs: seq<Attr>, a: Attr)
    requires a in attrs
    ensures PaddedSum(attrs) >= Padded(a)
  {
    if Last(attrs) != a {
      assert attrs == Front(attrs) + [Last(attrs)];
      OneOfThem(Front(attrs), a);
    }
  }

  lemma {:induction false} TwoOfThem(attrs: seq<Attr>, a: Attr, b: Attr)
    requires a in attrs && b in attrs && a != b
    ensures PaddedSum(attrs) >= Padded(a) + Padded(b)
  {
    assert attrs == Front(attrs) + [Last(attrs)];
    if Last(attrs) == a {
      OneOfThem(Front(attrs), b);
    } else if Last(attrs) == b {
      OneOfThem(Front(attrs), a);
    } else {
      TwoOfThem(Front(attrs), a, b);
    }
  }

  // ----- the least size of a signed request -----

  lemma SignedParts(d: Decoding)
    requires Classification(d).Ok? && Classification(d).value.Signed?
    ensures d.attrs != [] && Last(d.attrs).attrType == ATTR_DIG_SIGNATURE && |Last(d.attrs).value| >= 9
    ensures exists a :: a in d.attrs && a.attrType == ATTR_DIG_IDENTITY && |a.value| == 92
    ensures Attr(ATTR_NONCE, Classification(d).value.nonce) in d.attrs
  {
    hide Count, First;
    FirstIffCounted(d.attrs, ATTR_NONCE);
    var a :| a in d.attrs && a.attrType == ATTR_DIG_IDENTITY && IsIdentityValue(a.value);
  }

  /** An area holds its attributes, padded but for the last. */
  lemma AttrsFit(area: Bytes)
    requires Tlv.Decode(area).attrs != []
    ensures var attrs := Tlv.Decode(area).attrs;
            |area| >= PaddedSum(Front(attrs)) + 4 + |Last(attrs).value|
  {
    hide DecodeFrom, PaddedSum, OffsetAfter;
    var attrs := Tlv.Decode(area).attrs;
    OffsetIsSum(area, 0, |attrs| - 1);
    LastFits(area, 0, |attrs| - 1);
  }

  lemma SignedSum(d: Decoding)
    requires Classification(d).Ok? && Classification(d).value.Signed?
    ensures d.attrs != []
    ensures PaddedSum(Front(d.attrs)) + 4 + |Last(d.attrs).value|
         >= 96 + Padded(Attr(ATTR_NONCE, Classification(d).value.nonce)) + 13
  {
    hide Classification, PaddedSum;
    SignedParts(d);
    var a :| a in d.attrs && a.attrType == ATTR_DIG_IDENTITY && |a.value| == 92;
    assert d.attrs == Front(d.attrs) + [Last(d.attrs)];
    TwoOfThem(Front(d.attrs), a, Attr(ATTR_NONCE, Classification(d).value.nonce));
  }

  /** The identity, the nonce, and a signature of eight bytes whose padding may be left out. */
  lemma SignedAreaSize(area: Bytes)
    requires Classification(Tlv.Decode(area)).Ok? && Classification(Tlv.Decode(area)).value.Signed?
    ensures |area| >= 96 + Padded(Attr(ATTR_NONCE, Classification(Tlv.Decode(area)).value.nonce)) + 13
  {
    hide *;
    SignedSum(Tlv.Decode(area));
    AttrsFit(area);
  }

  lemma StaleIsSigned(s: Server, input: Input)
    requires Decision(s, input) == Some(Challenge(ERR_STALE_NONCE))
    ensures SignedIn(input).Some? && Check(s.issuer, SignedIn(input).value.nonce, input.source, input.nowSecs) == Stale
    ensures ClassifyRequest(input.datagram).Ok? && ClassifyRequest(input.datagram).value.1 == SignedIn(input).value
  {
    hide ClassifyRequest, Check, VerifySignedRequest;
  }

  lemma JudgedNonceSize(issuer: NonceIssuer, text: Bytes, source: SocketAddr, nowSecs: u64)
    requires Check(issuer, text, source, nowSecs) != Invalid
    ensures |text| == 27
  {
    hide Base64Url.Decode, CheckRaw;
    Base64Url.DecodeSucceedsIff(text);
  }

  /**
   * A request whose nonce is stale is at least 161 bytes long. The reply is 84 bytes, and less than
   * four tenths of the request exactly when the request has at least 211.
   */
  lemma StaleReply(s: Server, input: Input)
    requires Decision(s, input) == Some(Challenge(ERR_STALE_NONCE))
    ensures |input.datagram| >= 161
    ensures Reply(s, input).Some? && |Reply(s, input).value| == 84
    ensures 10 * |Reply(s, input).value| < 4 * |input.datagram| <==> |input.datagram| >= 211
  {
    hide Classification, Check, VerifySignedRequest, Response.ErrorResponse, BindingSuccess, Decision, Padding;
    StaleIsSigned(s, input);
    JudgedNonceSize(s.issuer, SignedIn(input).value.nonce, input.source, input.nowSecs);
    SignedAreaSize(AreaOf(input.datagram));
    PaddingIs(27);
    StaleReplySize(s, input);
  }

  lemma StaleReplySize(s: Server, input: Input)
    requires Decision(s, input) == Some(Challenge(ERR_STALE_NONCE))
    ensures Reply(s, input).Some? && |Reply(s, input).value| == 84
  {
    hide Decision, Response.ErrorResponse, BindingSuccess;
    ReplySizes(s, input);
  }

  // ----- a request of that size -----

  /** The three attributes, the signature of eight bytes and without its padding. */
  function TightArea(spki: Bytes, nonce: Bytes): Bytes {
    EncodeAttrs([IdentityAttr(spki), Attr(ATTR_NONCE, nonce)])
    + (Be16(ATTR_DIG_SIGNATURE) + Be16(9) + ([CREDENTIAL_VERSION] + Zeros(8)))
  }

  lemma UnpaddedLast(area: Bytes, off: nat, a: Attr)
    requires |a.value| < 0x1_0000 && Holds(area, off, Be16(a.attrType) + Be16(|a.value|) + a.value)
    requires |area| == off + 4 + |a.value|
    ensures DecodeFrom(area, off) == Decoding([a], false)
  {
    var e := Be16(a.attrType) + Be16(|a.value|) + a.value;
    assert area[off..off + |e|] == e;
    forall i | 0 <= i < |e| ensures area[off + i] == e[i] {
      assert area[off..off + |e|][i] == area[off + i];
    }
    assert e[0] == Be16(a.attrType)[0] && e[1] == Be16(a.attrType)[1];
    assert e[2] == Be16(|a.value|)[0] && e[3] == Be16(|a.value|)[1];
    assert LengthAt(area, off) == |a.value| && TypeAt(area, off) == a.attrType;
    assert area[off + 4..off + 4 + |a.value|] == e[4..] == a.value;
    assert DecodeFrom(area, NextOffset(area, off)) == Decoding([], false);
  }

  lemma TightAreaDecodes(spki: Bytes, nonce: Bytes)
    requires |spki| == P256_SPKI_LEN && |nonce| == 27
    ensures |TightArea(spki, nonce)| == 141
    ensures Tlv.Decode(TightArea(spki, nonce)) == Decoding(SignedAttrs(spki, nonce, Zeros(8)), false)
  {
    hide DecodeFrom, EncodeAttr;
    var a, b, c := IdentityAttr(spki), Attr(ATTR_NONCE, nonce), SignatureAttr(Zeros(8));
    var front, tail := EncodeAttrs([a, b]), Be16(c.attrType) + Be16(9) + c.value;
    var area := TightArea(spki, nonce);
    TwoAttrs(a, b);
    PaddingIs(92);
    PaddingIs(27);
    assert area == front + tail && |front| == 128 && |tail| == 13;
    assert area[0..0 + |front|] == front && area[128..128 + |tail|] == tail;
    UnpaddedLast(area, 128, c);
    DecodeEncoded(area, 0, [a, b], 128, Decoding([c], false));
    assert [a, b] + [c] == SignedAttrs(spki, nonce, Zeros(8));
  }

  lemma TwoAttrs(a: Attr, b: Attr)
    ensures |EncodeAttrs([a, b])| == Padded(a) + Padded(b)
  {
    EncodeAttrsCons([a, b]);
    assert [a, b][1..] == [b];
    SingleAttr(b);
  }

  /** Such a request is sent the 84-byte reply. */
  lemma SmallestStale(s: Server, spki: Bytes, txid: TransactionId, source: SocketAddr, t: u64)
    requires IsValidSpkiDer(spki) && t + 120 < 0x1_0000_0000_0000_0000
    ensures exists input: Input :: |input.datagram| == 161 && Decision(s, input) == Some(Challenge(ERR_STALE_NONCE))
  {
    hide Classification, Check, IssuedText, VerifySignedRequest, TightArea, SignedAttrs, IsValidSpkiDer, Header;
    var nonce := IssuedText(s.issuer, source, t);
    FreshExactlyTwoBuckets(s.issuer, source, t, t + 120);
    JudgedNonceSize(s.issuer, nonce, source, t + 120);
    SpkiSize(spki);
    var area := TightArea(spki, nonce);
    TightAreaDecodes(spki, nonce);
    SignedClassification(spki, nonce, Zeros(8));
    HeaderFrames(BINDING_REQUEST, txid, area);
    var input := Input(Header(BINDING_REQUEST, 141, txid) + area, source, t + 120);
    assert ClassifyRequest(input.datagram) == Ok((txid, Signed(spki, nonce, Zeros(8))));
    assert Decision(s, input) == Some(Challenge(ERR_STALE_NONCE));
  }

  lemma SpkiSize(spki: Bytes)
    requires IsValidSpkiDer(spki)
    ensures |spki| == P256_SPKI_LEN
  {
  }
}
