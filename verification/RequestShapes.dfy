/**
 * What a request is taken for, attribute by attribute and byte by byte: where each of the three
 * attributes stands, how often, and what its value must look like.
 */
module RequestShapes {
  import opened Prelude
  import opened Tlv
  import opened Codec
  import opened Wire
  import opened Request

  // ----- where attributes stand -----

  ghost predicate Absent(attrs: seq<Attr>, attrType: u16) {
    forall i :: 0 <= i < |attrs| ==> attrs[i].attrType != attrType
  }

  /** The `i`-th attribute is of this type, and no other is. */
  ghost predicate OnlyAt(attrs: seq<Attr>, attrType: u16, i: nat) {
    && i < |attrs| && attrs[i].attrType == attrType
    && forall j :: 0 <= j < |attrs| && j != i ==> attrs[j].attrType != attrType
  }

  lemma {:induction false} NoneIffAbsent(attrs: seq<Attr>, attrType: u16)
    ensures Count(attrs, attrType) == 0 <==> Absent(attrs, attrType)
  {
    if attrs != [] {
      var past := Front(attrs);
      NoneIffAbsent(past, attrType);
      assert forall i :: 0 <= i < |past| ==> past[i] == attrs[i];
      assert attrs[|past|] == Last(attrs);
    }
  }

  lemma {:induction false} OneIsSomewhere(attrs: seq<Attr>, attrType: u16) returns (i: nat)
    requires Count(attrs, attrType) == 1
    ensures OnlyAt(attrs, attrType, i)
  {
    var past := Front(attrs);
    assert forall j :: 0 <= j < |past| ==> past[j] == attrs[j];
    if Last(attrs).attrType == attrType {
      NoneIffAbsent(past, attrType);
      i := |past|;
    } else {
      i := OneIsSomewhere(past, attrType);
      assert past[i] == attrs[i];
    }
  }

  lemma {:induction false} SomewhereIsOne(attrs: seq<Attr>, attrType: u16, i: nat)
    requires OnlyAt(attrs, attrType, i)
    ensures Count(attrs, attrType) == 1 && TheValue(attrs, attrType) == attrs[i].value
  {
    SomewhereCounts(attrs, attrType, i);
    SomewhereIsFirst(attrs, attrType, i);
  }

  lemma {:induction false} SomewhereCounts(attrs: seq<Attr>, attrType: u16, i: nat)
    requires OnlyAt(attrs, attrType, i)
    ensures Count(attrs, attrType) == 1
  {
    var past := Front(attrs);
    assert forall j :: 0 <= j < |past| ==> past[j] == attrs[j];
    if i == |past| {
      assert Absent(past, attrType);
      NoneIffAbsent(past, attrType);
    } else {
      assert OnlyAt(past, attrType, i);
      SomewhereCounts(past, attrType, i);
    }
  }

  lemma {:induction false} SomewhereIsFirst(attrs: seq<Attr>, attrType: u16, i: nat)
    requires OnlyAt(attrs, attrType, i)
    ensures First(attrs, attrType) == Some(attrs[i].value)
  {
    if i > 0 {
      var rest := attrs[1..];
      assert forall j :: 0 <= j < |rest| ==> rest[j] == attrs[j + 1];
      SomewhereIsFirst(rest, attrType, i - 1);
    }
  }

  // ----- what values look like -----

  /** The version byte, and a 91-byte key in the encoding of an uncompressed P-256 point. */
  predicate HoldsKey(value: Bytes, spki: Bytes) {
    && |value| == 92 && value[0] == 1 && spki == value[1..]
    && spki[..26] == [0x30, 0x59, 0x30, 0x13, 0x06, 0x07, 0x2a, 0x86, 0x48, 0xce, 0x3d, 0x02, 0x01,
                      0x06, 0x08, 0x2a, 0x86, 0x48, 0xce, 0x3d, 0x03, 0x01, 0x07, 0x03, 0x42, 0x00]
    && spki[26] == 4
  }

  /** The version byte, and eight to 72 bytes. */
  predicate HoldsSignature(value: Bytes, signature: Bytes) {
    9 <= |value| <= 73 && value[0] == 1 && signature == value[1..]
  }

  lemma KeyShape(value: Bytes)
    ensures IsIdentityValue(value) <==> |value| > 0 && HoldsKey(value, value[1..])
  {
  }

  // ----- exactly what is classified as what -----

  ghost predicate AnIdentity(attrs: seq<Attr>, spki: Bytes) {
    exists i :: 0 <= i < |attrs| && OnlyAt(attrs, 0xD160, i) && HoldsKey(attrs[i].value, spki)
  }

  ghost predicate ANonce(attrs: seq<Attr>, nonce: Bytes) {
    exists i :: 0 <= i < |attrs| && OnlyAt(attrs, 0x0015, i) && attrs[i].value == nonce
  }

  ghost predicate AFinalSignature(attrs: seq<Attr>, signature: Bytes) {
    |attrs| > 0 && OnlyAt(attrs, 0xD161, |attrs| - 1) && HoldsSignature(attrs[|attrs| - 1].value, signature)
  }

  /** The three things a request can be. */
  ghost predicate IsBare(d: Decoding) {
    !d.overrun && Absent(d.attrs, 0xD160) && Absent(d.attrs, 0x0015) && Absent(d.attrs, 0xD161)
  }

  ghost predicate IsIdentity(d: Decoding, spki: Bytes) {
    !d.overrun && AnIdentity(d.attrs, spki) && Absent(d.attrs, 0x0015) && Absent(d.attrs, 0xD161)
  }

  ghost predicate IsSigned(d: Decoding, spki: Bytes, nonce: Bytes, signature: Bytes) {
    !d.overrun && AnIdentity(d.attrs, spki) && ANonce(d.attrs, nonce) && AFinalSignature(d.attrs, signature)
  }

  lemma IdentityIff(attrs: seq<Attr>, spki: Bytes)
    ensures AnIdentity(attrs, spki) <==> OneIdentity(attrs) && Tail(TheValue(attrs, ATTR_DIG_IDENTITY)) == spki
  {
    hide IsIdentityValue, HoldsKey, OnlyAt, Count, First;
    AtInRange(attrs, ATTR_DIG_IDENTITY);
    if Count(attrs, ATTR_DIG_IDENTITY) == 1 {
      var i := OneIsSomewhere(attrs, ATTR_DIG_IDENTITY);
      TheOnlyOne(attrs, ATTR_DIG_IDENTITY, i);
      SomewhereIsOne(attrs, ATTR_DIG_IDENTITY, i);
      KeyShape(attrs[i].value);
      KeyIsTail(attrs[i].value, spki);
    }
    if AnIdentity(attrs, spki) {
      var i :| 0 <= i < |attrs| && OnlyAt(attrs, 0xD160, i) && HoldsKey(attrs[i].value, spki);
      SomewhereIsOne(attrs, ATTR_DIG_IDENTITY, i);
    }
  }

  lemma AtInRange(attrs: seq<Attr>, attrType: u16)
    ensures forall i: nat :: OnlyAt(attrs, attrType, i) ==> i < |attrs|
  {
  }

  lemma KeyIsTail(value: Bytes, spki: Bytes)
    ensures HoldsKey(value, spki) <==> |value| > 0 && HoldsKey(value, value[1..]) && spki == value[1..]
  {
  }

  lemma TheOnlyOne(attrs: seq<Attr>, attrType: u16, i: nat)
    requires OnlyAt(attrs, attrType, i)
    ensures i < |attrs| && attrs[i] in attrs && attrs[i].attrType == attrType
    ensures forall a :: a in attrs && a.attrType == attrType ==> a == attrs[i]
    ensures forall j :: OnlyAt(attrs, attrType, j) ==> j == i
  {
  }

  lemma NonceIff(attrs: seq<Attr>, nonce: Bytes)
    ensures ANonce(attrs, nonce) <==> OneNonce(attrs) && TheValue(attrs, ATTR_NONCE) == nonce
  {
    hide OnlyAt, Count, First;
    AtInRange(attrs, ATTR_NONCE);
    if Count(attrs, ATTR_NONCE) == 1 {
      var i := OneIsSomewhere(attrs, ATTR_NONCE);
      TheOnlyOne(attrs, ATTR_NONCE, i);
      SomewhereIsOne(attrs, ATTR_NONCE, i);
    }
    if ANonce(attrs, nonce) {
      var i :| 0 <= i < |attrs| && OnlyAt(attrs, 0x0015, i) && attrs[i].value == nonce;
      SomewhereIsOne(attrs, ATTR_NONCE, i);
    }
  }

  lemma SignatureIff(attrs: seq<Attr>, signature: Bytes)
    ensures AFinalSignature(attrs, signature)
       <==> attrs != [] && OneFinalSignature(attrs) && Tail(TheValue(attrs, ATTR_DIG_SIGNATURE)) == signature
  {
    hide OnlyAt, Count, First;
    if attrs != [] && Count(attrs, ATTR_DIG_SIGNATURE) == 1 {
      var i := OneIsSomewhere(attrs, ATTR_DIG_SIGNATURE);
      SomewhereIsOne(attrs, ATTR_DIG_SIGNATURE, i);
      TheOnlyOne(attrs, ATTR_DIG_SIGNATURE, i);
      assert Last(attrs) in attrs;
      LastIsOnly(attrs, i);
    }
    if AFinalSignature(attrs, signature) {
      SomewhereIsOne(attrs, ATTR_DIG_SIGNATURE, |attrs| - 1);
      TheOnlyOne(attrs, ATTR_DIG_SIGNATURE, |attrs| - 1);
    }
  }

  lemma LastIsOnly(attrs: seq<Attr>, i: nat)
    requires OnlyAt(attrs, ATTR_DIG_SIGNATURE, i)
    ensures Last(attrs).attrType == ATTR_DIG_SIGNATURE <==> i == |attrs| - 1
  {
  }

  /** A signed request: one well-formed key, one nonce, one well-formed signature, which is last, and no overrun. */
  lemma SignedIff(d: Decoding, spki: Bytes, nonce: Bytes, signature: Bytes)
    ensures Classification(d) == Ok(Signed(spki, nonce, signature)) <==> IsSigned(d, spki, nonce, signature)
  {
    hide IsIdentityValue, IsSignatureValue, AnIdentity, ANonce, AFinalSignature, First, Count;
    IdentityIff(d.attrs, spki);
    NonceIff(d.attrs, nonce);
    SignatureIff(d.attrs, signature);
    NothingCounted();
  }

  lemma NothingCounted()
    ensures forall t :: Count([], t) == 0
    ensures forall signature :: !AFinalSignature([], signature)
  {
  }

  /** An identity request: one well-formed key and neither of the other two. */
  lemma IdentityOnlyIff(d: Decoding, spki: Bytes)
    ensures Classification(d) == Ok(Identity(spki)) <==> IsIdentity(d, spki)
  {
    hide OneFinalSignature, AnIdentity, TheValue, Tail, Absent;
    IdentityIff(d.attrs, spki);
    NoneIffAbsent(d.attrs, ATTR_NONCE);
    NoneIffAbsent(d.attrs, ATTR_DIG_SIGNATURE);
  }

  /** A bare request: none of the three. */
  lemma BareIff(d: Decoding)
    ensures Classification(d) == Ok(Bare) <==> IsBare(d)
  {
    hide TheValue, Tail, Absent;
    NoneIffAbsent(d.attrs, ATTR_DIG_IDENTITY);
    NoneIffAbsent(d.attrs, ATTR_NONCE);
    NoneIffAbsent(d.attrs, ATTR_DIG_SIGNATURE);
  }

  /** Everything else is malformed. */
  lemma MalformedIff(d: Decoding)
    ensures Classification(d) == Err(Malformed)
       <==> !IsBare(d) && (forall spki :: !IsIdentity(d, spki))
            && (forall spki, nonce, signature :: !IsSigned(d, spki, nonce, signature))
  {
    hide Classification, IsBare, IsIdentity, IsSigned;
    BareIff(d);
    forall spki ensures Classification(d) == Ok(Identity(spki)) <==> IsIdentity(d, spki) {
      IdentityOnlyIff(d, spki);
    }
    forall spki, nonce, signature
      ensures Classification(d) == Ok(Signed(spki, nonce, signature)) <==> IsSigned(d, spki, nonce, signature)
    {
      SignedIff(d, spki, nonce, signature);
    }
    match Classification(d)
    case Err(_) => NeverStun(d);
    case Ok(Bare) =>
    case Ok(Identity(spki)) => assert IsIdentity(d, spki);
    case Ok(Signed(spki, nonce, signature)) => assert IsSigned(d, spki, nonce, signature);
  }

  lemma NeverStun(d: Decoding)
    ensures Classification(d).Err? ==> Classification(d) == Err(Malformed)
  {
    hide Count, OneIdentity, OneNonce, OneFinalSignature, TheValue, Tail;
  }

  /** A key or a signature of the wrong shape anywhere spoils the request. */
  lemma FlawIsMalformed(datagram: Bytes, a: Attr)
    requires ParseBindingRequest(datagram).Ok? && a in Tlv.Decode(AreaOf(datagram)).attrs
    requires || (a.attrType == 0xD160 && forall spki :: !HoldsKey(a.value, spki))
             || (a.attrType == 0xD161 && forall signature :: !HoldsSignature(a.value, signature))
    ensures ClassifyRequest(datagram) == Err(Malformed)
  {
    hide Classification, DecodeFrom, HoldsKey, HoldsSignature;
    var d := Tlv.Decode(AreaOf(datagram));
    var i :| 0 <= i < |d.attrs| && d.attrs[i] == a;
    MalformedIff(d);
  }
}
