/** The client's two requests, byte by byte, and what a server's classification makes of them. */
module RequestWriter {
  import opened Prelude
  import opened Tlv
  import opened Codec
  import opened Wire
  import opened Request
  import opened Signature

  function IdentityAttr(spki: Bytes): Attr {
    Attr(ATTR_DIG_IDENTITY, [CREDENTIAL_VERSION] + spki)
  }

  function SignatureAttr(signature: Bytes): Attr {
    Attr(ATTR_DIG_SIGNATURE, [CREDENTIAL_VERSION] + signature)
  }

  function SignedAttrs(spki: Bytes, nonce: Bytes, signature: Bytes): seq<Attr> {
    [IdentityAttr(spki), Attr(ATTR_NONCE, nonce), SignatureAttr(signature)]
  }

  function IdentityRequest(txid: TransactionId, spki: Bytes): Bytes {
    Message(BINDING_REQUEST, txid, [IdentityAttr(spki)])
  }

  /** The `n`-th signature of the signer, over this transaction, nonce and key. */
  function SignatureFor(txid: TransactionId, nonce: Bytes, signer: Signer, n: nat): Bytes {
    signer.sign(n, SigningMessage(txid, nonce, signer.spki))
  }

  function SignedRequest(txid: TransactionId, nonce: Bytes, signer: Signer, n: nat): Bytes {
    Message(BINDING_REQUEST, txid, SignedAttrs(signer.spki, nonce, SignatureFor(txid, nonce, signer, n)))
  }

  method EncodeIdentityRequest(txid: TransactionId, spki: Bytes) returns (msg: Bytes)
    requires IsValidSpkiDer(spki)
    ensures msg == IdentityRequest(txid, spki)
  {
    hide EncodeAttr, Header;
    var attrs := WriteAttr([], ATTR_DIG_IDENTITY, [CREDENTIAL_VERSION] + spki);
    SingleAttr(IdentityAttr(spki));
    assert [] + EncodeAttr(IdentityAttr(spki)) == EncodeAttr(IdentityAttr(spki));
    msg := WriteHeader([], BINDING_REQUEST, |attrs| % 0x1_0000, txid);
    assert [] + Header(BINDING_REQUEST, |attrs| % 0x1_0000, txid) == Header(BINDING_REQUEST, |attrs| % 0x1_0000, txid);
    msg := msg + attrs;
  }

  lemma ThreeAttrs(a: Attr, b: Attr, c: Attr)
    ensures EncodeAttrs([a, b, c]) == [] + EncodeAttr(a) + EncodeAttr(b) + EncodeAttr(c)
  {
    hide EncodeAttr;
    EncodeAttrsCons([a, b, c]);
    assert [a, b, c][1..] == [b, c];
    EncodeAttrsCons([b, c]);
    assert [b, c][1..] == [c];
    SingleAttr(c);
  }

  method EncodeSignedRequest(txid: TransactionId, nonce: Bytes, signer: Signer, n: nat) returns (msg: Bytes)
    ensures msg == SignedRequest(txid, nonce, signer, n)
  {
    hide EncodeAttr, EncodeAttrs, Header, SigningMessage;
    var message := SigningMessage(txid, nonce, signer.spki);
    var signature := signer.sign(n, message);
    var attrs := WriteAttr([], ATTR_DIG_IDENTITY, [CREDENTIAL_VERSION] + signer.spki);
    attrs := WriteAttr(attrs, ATTR_NONCE, nonce);
    attrs := WriteAttr(attrs, ATTR_DIG_SIGNATURE, [CREDENTIAL_VERSION] + signature);
    ThreeAttrs(IdentityAttr(signer.spki), Attr(ATTR_NONCE, nonce), SignatureAttr(signature));
    msg := WriteHeader([], BINDING_REQUEST, |attrs| % 0x1_0000, txid);
    assert [] + Header(BINDING_REQUEST, |attrs| % 0x1_0000, txid) == Header(BINDING_REQUEST, |attrs| % 0x1_0000, txid);
    msg := msg + attrs;
  }

  lemma ClassifyMessage(txid: TransactionId, attrs: seq<Attr>)
    requires Encodable(attrs) && |EncodeAttrs(attrs)| < 0x1_0000
    ensures ClassifyRequest(Message(BINDING_REQUEST, txid, attrs)) ==
              match Classification(Decoding(attrs, false))
              case Err(e) => Err(e)
              case Ok(kind) => Ok((txid, kind))
  {
    hide Classification, EncodeAttrs, Message;
    MessageReadsBack(BINDING_REQUEST, txid, attrs, EncodeAttrs(attrs));
  }

  lemma IdentityClassification(spki: Bytes)
    requires IsValidSpkiDer(spki)
    ensures Classification(Decoding([IdentityAttr(spki)], false)) == Ok(Identity(spki))
  {
    var a := IdentityAttr(spki);
    assert a.value[1..] == spki;
    Counts1(a);
    assert a in [a];
    OnlyOne([a], a);
  }

  lemma Counts1(a: Attr)
    ensures forall t :: Count([a], t) == if a.attrType == t then 1 else 0
  {
  }

  lemma Counts3(a: Attr, b: Attr, c: Attr, t: u16)
    ensures Count([a, b, c], t) == (if a.attrType == t then 1 else 0) + (if b.attrType == t then 1 else 0)
                                   + if c.attrType == t then 1 else 0
  {
    assert [a, b, c] == [a] + ([b] + [c]);
    CountAround([a], b, [c], t);
    Counts1(a);
    Counts1(c);
  }

  lemma SignedClassification(spki: Bytes, nonce: Bytes, signature: Bytes)
    requires IsValidSpkiDer(spki) && IsValidSignatureDerLen(signature)
    ensures Classification(Decoding(SignedAttrs(spki, nonce, signature), false)) == Ok(Signed(spki, nonce, signature))
  {
    var a, b, c := IdentityAttr(spki), Attr(ATTR_NONCE, nonce), SignatureAttr(signature);
    var attrs := SignedAttrs(spki, nonce, signature);
    assert a.value[1..] == spki && c.value[1..] == signature;
    Counts3(a, b, c, ATTR_DIG_IDENTITY);
    Counts3(a, b, c, ATTR_NONCE);
    Counts3(a, b, c, ATTR_DIG_SIGNATURE);
    assert a in attrs && b in attrs && c in attrs;
    OnlyOne(attrs, a);
    OnlyOne(attrs, b);
    OnlyOne(attrs, c);
  }

  /** The value of an attribute with its padding: the next multiple of four. */
  function Aligned(n: nat): nat {
    n + Padding(n)
  }

  /** The exact size of the attributes of a signed request. */
  lemma SignedSize(spki: Bytes, nonce: Bytes, signature: Bytes)
    requires |spki| == P256_SPKI_LEN
    ensures |EncodeAttrs(SignedAttrs(spki, nonce, signature))| == 104 + Aligned(|nonce|) + Aligned(|signature| + 1)
  {
    hide EncodeAttr, EncodeAttrs, Padding;
    ThreeAttrs(IdentityAttr(spki), Attr(ATTR_NONCE, nonce), SignatureAttr(signature));
    PaddingIs(92);
  }

  /** An identity request is 116 bytes long and is taken for exactly that. */
  lemma IdentityRequestClassifies(txid: TransactionId, spki: Bytes)
    requires IsValidSpkiDer(spki)
    ensures ClassifyRequest(IdentityRequest(txid, spki)) == Ok((txid, Identity(spki)))
    ensures |IdentityRequest(txid, spki)| == 116
  {
    hide Classification, ClassifyRequest, EncodeAttrs, Message, IdentityAttr, IsValidSpkiDer;
    IdentitySize(txid, spki);
    IdentityClassification(spki);
    ClassifyMessage(txid, [IdentityAttr(spki)]);
  }

  lemma IdentitySize(txid: TransactionId, spki: Bytes)
    requires IsValidSpkiDer(spki)
    ensures Encodable([IdentityAttr(spki)]) && |EncodeAttrs([IdentityAttr(spki)])| == 96
    ensures |IdentityRequest(txid, spki)| == 116
  {
    hide EncodeAttr, EncodeAttrs, Header, Padding;
    SingleAttr(IdentityAttr(spki));
    PaddingIs(92);
  }

  /** A signed request is taken for exactly the key, nonce and signature that went into it. */
  lemma SignedRequestClassifies(txid: TransactionId, nonce: Bytes, signer: Signer, n: nat)
    requires IsValidSpkiDer(signer.spki) && IsValidSignatureDerLen(SignatureFor(txid, nonce, signer, n))
    requires |nonce| < 0xff00
    ensures ClassifyRequest(SignedRequest(txid, nonce, signer, n))
         == Ok((txid, Signed(signer.spki, nonce, SignatureFor(txid, nonce, signer, n))))
  {
    hide Classification, SigningMessage, EncodeAttrs, Message;
    var signature := SignatureFor(txid, nonce, signer, n);
    SignedSize(signer.spki, nonce, signature);
    SignedClassification(signer.spki, nonce, signature);
    ClassifyMessage(txid, SignedAttrs(signer.spki, nonce, signature));
  }

  // ----- how long a signed request is -----

  lemma SignedRequestSize(txid: TransactionId, nonce: Bytes, signer: Signer, n: nat)
    requires |signer.spki| == P256_SPKI_LEN
    ensures |SignedRequest(txid, nonce, signer, n)|
         == 124 + Aligned(|nonce|) + Aligned(|SignatureFor(txid, nonce, signer, n)| + 1)
  {
    hide EncodeAttrs, Header, SigningMessage, SignedAttrs, Aligned;
    SignedSize(signer.spki, nonce, SignatureFor(txid, nonce, signer, n));
  }

  /** With this nonce no key and no signature of a proper size make a request longer than promised. */
  ghost predicate KeepsSize(txid: TransactionId, nonce: Bytes) {
    forall signer: Signer, n: nat ::
      |signer.spki| == P256_SPKI_LEN && IsValidSignatureDerLen(SignatureFor(txid, nonce, signer, n))
      ==> |SignedRequest(txid, nonce, signer, n)| <= 228
  }

  lemma AlignedIs(n: nat)
    ensures Aligned(n) % 4 == 0 && n <= Aligned(n) <= n + 3
  {
    PaddingIs(n);
  }

  /**
   * A signed request is promised to have at most 228 bytes. It does exactly if the nonce, which is
   * echoed as it came, has at most 28.
   */
  lemma KeepsSizeIff(txid: TransactionId, nonce: Bytes)
    ensures KeepsSize(txid, nonce) <==> |nonce| <= 28
  {
    hide SignedRequest, Aligned, SigningMessage;
    AlignedIs(|nonce|);
    if |nonce| <= 28 {
      forall signer: Signer, n: nat
        | |signer.spki| == P256_SPKI_LEN && IsValidSignatureDerLen(SignatureFor(txid, nonce, signer, n))
        ensures |SignedRequest(txid, nonce, signer, n)| <= 228
      {
        SignedRequestSize(txid, nonce, signer, n);
        AlignedIs(|SignatureFor(txid, nonce, signer, n)| + 1);
      }
    } else {
      var signer := Signer(Zeros(P256_SPKI_LEN), (n, m) => Zeros(MAX_SIGNATURE_LEN));
      SignedRequestSize(txid, nonce, signer, 0);
      AlignedIs(MAX_SIGNATURE_LEN + 1);
      assert |SignedRequest(txid, nonce, signer, 0)| > 228;
    }
  }

  // ----- attribute order -----

  lemma {:induction false} SameCounts(s: seq<Attr>, t: seq<Attr>, attrType: u16)
    requires multiset(s) == multiset(t)
    ensures Count(s, attrType) == Count(t, attrType)
    decreases |s|
  {
    if s == [] {
      assert |multiset(t)| == 0;
    } else {
      var x := Last(s);
      assert s == Front(s) + [x];
      assert x in multiset(t);
      var i :| 0 <= i < |t| && t[i] == x;
      assert t == t[..i] + ([x] + t[i + 1..]);
      calc {
        multiset(Front(s));
        multiset(s) - multiset{x};
        multiset(t) - multiset{x};
        multiset(t[..i]) + multiset(t[i + 1..]);
        multiset(t[..i] + t[i + 1..]);
      }
      SameCounts(Front(s), t[..i] + t[i + 1..], attrType);
      CountAround(t[..i], x, t[i + 1..], attrType);
      CountConcat(t[..i], t[i + 1..], attrType);
    }
  }

  lemma SameOnlyValue(s: seq<Attr>, t: seq<Attr>, attrType: u16)
    requires multiset(s) == multiset(t) && Count(s, attrType) == 1
    ensures TheValue(s, attrType) == TheValue(t, attrType)
  {
    SameCounts(s, t, attrType);
    FirstIffCounted(s, attrType);
    var a := Attr(attrType, First(s, attrType).value);
    assert a in multiset(s);
    assert a in t;
    OnlyOne(t, a);
  }

  /**
   * Only the last place matters: whatever precedes the last attribute may come in any order. In
   * particular the identity may follow the nonce, which the format's description rules out.
   */
  lemma OrderDoesNotMatter(s: seq<Attr>, t: seq<Attr>, last: Attr, overrun: bool)
    requires multiset(s) == multiset(t)
    ensures Classification(Decoding(s + [last], overrun)) == Classification(Decoding(t + [last], overrun))
  {
    hide IsIdentityValue, IsSignatureValue, Count, First;
    var p, q := s + [last], t + [last];
    assert multiset(p) == multiset(q);
    SameCounts(p, q, ATTR_DIG_IDENTITY);
    SameCounts(p, q, ATTR_NONCE);
    SameCounts(p, q, ATTR_DIG_SIGNATURE);
    forall a ensures a in p <==> a in q {
      assert a in p <==> a in multiset(p);
      assert a in q <==> a in multiset(q);
    }
    if Count(p, ATTR_DIG_IDENTITY) == 1 {
      SameOnlyValue(p, q, ATTR_DIG_IDENTITY);
    }
    if Count(p, ATTR_NONCE) == 1 {
      SameOnlyValue(p, q, ATTR_NONCE);
    }
    if Count(p, ATTR_DIG_SIGNATURE) == 1 {
      SameOnlyValue(p, q, ATTR_DIG_SIGNATURE);
    }
  }

  /** The three attributes of a signed request, in some order. */
  lemma ThreeInSomeOrder(attrs: seq<Attr>, spki: Bytes, nonce: Bytes, signature: Bytes)
    requires multiset(attrs) == multiset(SignedAttrs(spki, nonce, signature))
    ensures |attrs| == 3
    ensures var a, b, c := IdentityAttr(spki), Attr(ATTR_NONCE, nonce), SignatureAttr(signature);
            attrs == [a, b, c] || attrs == [a, c, b] || attrs == [b, a, c]
            || attrs == [b, c, a] || attrs == [c, a, b] || attrs == [c, b, a]
  {
    var a, b, c := IdentityAttr(spki), Attr(ATTR_NONCE, nonce), SignatureAttr(signature);
    assert a != b && a != c && b != c;
    hide *;
    ThreeElements(attrs, a, b, c);
    assert attrs == [attrs[0], attrs[1], attrs[2]];
  }

  lemma ThreeElements(s: seq<Attr>, a: Attr, b: Attr, c: Attr)
    requires multiset(s) == multiset([a, b, c])
    ensures |s| == 3
    ensures forall i :: 0 <= i < 3 ==> s[i] == a || s[i] == b || s[i] == c
    ensures a in s && b in s && c in s
  {
    assert |s| == |multiset(s)|;
    forall i | 0 <= i < 3 ensures s[i] == a || s[i] == b || s[i] == c {
      assert s[i] in multiset(s);
    }
    assert a in multiset([a, b, c]) && b in multiset([a, b, c]) && c in multiset([a, b, c]);
  }

  lemma LastOfThree(attrs: seq<Attr>, a: Attr, b: Attr, c: Attr)
    requires multiset(attrs) == multiset([a, b, c]) && attrs != []
    ensures Last(attrs) == c ==> multiset(Front(attrs)) == multiset([a, b])
    ensures Last(attrs) == a || Last(attrs) == b || Last(attrs) == c
  {
    assert attrs == Front(attrs) + [Last(attrs)];
    assert Last(attrs) in multiset(attrs);
    if Last(attrs) == c {
      assert [a, b, c] == [a, b] + [c];
      SameFront(multiset(Front(attrs)), multiset([a, b]), c);
    }
  }

  lemma SameFront(m: multiset<Attr>, m': multiset<Attr>, c: Attr)
    requires m + multiset{c} == m' + multiset{c}
    ensures m == m'
  {
    assert m == m + multiset{c} - multiset{c};
    assert m' == m' + multiset{c} - multiset{c};
  }

  /** A signature that is not the last attribute makes a request malformed, whatever else it carries. */
  lemma SignatureMustBeLast(attrs: seq<Attr>, overrun: bool)
    requires Count(attrs, ATTR_DIG_SIGNATURE) >= 1 && Last(attrs).attrType != ATTR_DIG_SIGNATURE
    ensures Classification(Decoding(attrs, overrun)) == Err(Malformed)
  {
  }

  lemma AnyOrderClassification(attrs: seq<Attr>, spki: Bytes, nonce: Bytes, signature: Bytes)
    requires IsValidSpkiDer(spki) && IsValidSignatureDerLen(signature)
    requires multiset(attrs) == multiset(SignedAttrs(spki, nonce, signature)) && attrs != []
    ensures Classification(Decoding(attrs, false))
         == if Last(attrs) == SignatureAttr(signature) then Ok(Signed(spki, nonce, signature)) else Err(Malformed)
  {
    hide Classification, Count, IsValidSpkiDer;
    var a, b, c := IdentityAttr(spki), Attr(ATTR_NONCE, nonce), SignatureAttr(signature);
    LastOfThree(attrs, a, b, c);
    if Last(attrs) == c {
      hide IdentityAttr, SignatureAttr;
      SignedClassification(spki, nonce, signature);
      OrderDoesNotMatter(Front(attrs), [a, b], c, false);
      assert Front(attrs) + [c] == attrs && [a, b] + [c] == SignedAttrs(spki, nonce, signature);
    } else {
      SameCounts(attrs, [a, b, c], ATTR_DIG_SIGNATURE);
      Counts3(a, b, c, ATTR_DIG_SIGNATURE);
      SignatureMustBeLast(attrs, false);
    }
  }

  lemma AnyOrderSize(attrs: seq<Attr>, spki: Bytes, nonce: Bytes, signature: Bytes)
    requires multiset(attrs) == multiset(SignedAttrs(spki, nonce, signature))
    requires |spki| == P256_SPKI_LEN && |signature| <= MAX_SIGNATURE_LEN
    ensures |attrs| == 3 && |EncodeAttrs(attrs)| <= 183 + |nonce|
  {
    hide EncodeAttrs, EncodeAttr;
    ThreeInSomeOrder(attrs, spki, nonce, signature);
    ThreeAttrs(attrs[0], attrs[1], attrs[2]);
    SignedSize(spki, nonce, signature);
    ThreeAttrs(IdentityAttr(spki), Attr(ATTR_NONCE, nonce), SignatureAttr(signature));
    assert attrs == [attrs[0], attrs[1], attrs[2]];
  }

  /**
   * Of the six orders the three attributes can come in, a server accepts exactly the two with the
   * signature last, and takes both for the same request.
   */
  lemma TwoOrdersAccepted(txid: TransactionId, attrs: seq<Attr>, spki: Bytes, nonce: Bytes, signature: Bytes)
    requires IsValidSpkiDer(spki) && IsValidSignatureDerLen(signature) && |nonce| < 0xff00
    requires multiset(attrs) == multiset(SignedAttrs(spki, nonce, signature))
    ensures |attrs| == 3
    ensures ClassifyRequest(Message(BINDING_REQUEST, txid, attrs))
         == if Last(attrs) == SignatureAttr(signature) then Ok((txid, Signed(spki, nonce, signature)))
            else Err(Malformed)
  {
    hide Classification, ClassifyRequest, Message, EncodeAttrs;
    AnyOrderSize(attrs, spki, nonce, signature);
    AnyOrderClassification(attrs, spki, nonce, signature);
    forall i | 0 <= i < 3 ensures |attrs[i].value| < 0x1_0000 {
      assert attrs[i] in multiset(attrs);
    }
    ClassifyMessage(txid, attrs);
  }

  /** An attribute the server does not know changes nothing, as long as it is not the last one. */
  lemma UnknownIgnored(s: seq<Attr>, a: Attr, t: seq<Attr>, overrun: bool)
    requires t != []
    requires a.attrType != ATTR_DIG_IDENTITY && a.attrType != ATTR_NONCE && a.attrType != ATTR_DIG_SIGNATURE
    ensures Classification(Decoding(s + ([a] + t), overrun)) == Classification(Decoding(s + t, overrun))
  {
    hide IsIdentityValue, IsSignatureValue;
    var p, q := s + ([a] + t), s + t;
    SameWithout(s, a, t, ATTR_DIG_IDENTITY);
    SameWithout(s, a, t, ATTR_NONCE);
    SameWithout(s, a, t, ATTR_DIG_SIGNATURE);
    assert Last(p) == Last(q);
    assert forall x :: x in q ==> x in p;
    assert forall x :: x in p ==> x == a || x in q;
  }

  lemma SameWithout(s: seq<Attr>, a: Attr, t: seq<Attr>, attrType: u16)
    requires a.attrType != attrType
    ensures Count(s + ([a] + t), attrType) == Count(s + t, attrType)
    ensures TheValue(s + ([a] + t), attrType) == TheValue(s + t, attrType)
  {
    CountAround(s, a, t, attrType);
    CountConcat(s, t, attrType);
    FirstConcat(s, [a] + t, attrType);
    FirstConcat(s, t, attrType);
    assert ([a] + t)[1..] == t;
  }
}
