/**
 * The credential attributes of a Binding request: what a server takes an incoming request to be,
 * and how a client writes its identity and signed asks.
 */
module Request {
  import opened Prelude
  import opened Tlv
  import opened Codec
  import opened Wire

  datatype RequestKind =
    | Bare
    | Identity(spki: Bytes)
    | Signed(spki: Bytes, nonce: Bytes, signature: Bytes)

  // ----- what a request is, said about its attributes as a whole -----

  function Count(attrs: seq<Attr>, attrType: u16): nat {
    if attrs == [] then 0
    else Count(Front(attrs), attrType) + if Last(attrs).attrType == attrType then 1 else 0
  }

  predicate IsIdentityValue(v: Bytes) {
    |v| == 1 + P256_SPKI_LEN && v[0] == CREDENTIAL_VERSION && IsValidSpkiDer(v[1..])
  }

  predicate IsSignatureValue(v: Bytes) {
    |v| > 0 && v[0] == CREDENTIAL_VERSION && IsValidSignatureDerLen(v[1..])
  }

  /** Exactly one identity, and its value has the right shape. */
  predicate OneIdentity(attrs: seq<Attr>) {
    && Count(attrs, ATTR_DIG_IDENTITY) == 1
    && exists a :: a in attrs && a.attrType == ATTR_DIG_IDENTITY && IsIdentityValue(a.value)
  }

  predicate OneNonce(attrs: seq<Attr>) {
    Count(attrs, ATTR_NONCE) == 1
  }

  /** Exactly one signature, of the right shape, and nothing after it. */
  predicate OneFinalSignature(attrs: seq<Attr>) {
    && Count(attrs, ATTR_DIG_SIGNATURE) == 1
    && Last(attrs).attrType == ATTR_DIG_SIGNATURE && IsSignatureValue(Last(attrs).value)
  }

  /** The value of the only attribute of a type. */
  function TheValue(attrs: seq<Attr>, attrType: u16): Bytes {
    var v := First(attrs, attrType);
    if v.Some? then v.value else []
  }

  function Tail(v: Bytes): Bytes {
    if v == [] then [] else v[1..]
  }

  /** The classification, stated without any walk. */
  function Classification(d: Decoding): Result<RequestKind, CredentialError> {
    var ids, nonces, sigs :=
      Count(d.attrs, ATTR_DIG_IDENTITY), Count(d.attrs, ATTR_NONCE), Count(d.attrs, ATTR_DIG_SIGNATURE);
    var spki := Tail(TheValue(d.attrs, ATTR_DIG_IDENTITY));
    if d.overrun then Err(Malformed)
    else if ids == 0 && nonces == 0 && sigs == 0 then Ok(Bare)
    else if OneIdentity(d.attrs) && nonces == 0 && sigs == 0 then Ok(Identity(spki))
    else if OneIdentity(d.attrs) && OneNonce(d.attrs) && OneFinalSignature(d.attrs)
    then Ok(Signed(spki, TheValue(d.attrs, ATTR_NONCE), Tail(TheValue(d.attrs, ATTR_DIG_SIGNATURE))))
    else Err(Malformed)
  }

  function ClassifyRequest(datagram: Bytes): Result<(TransactionId, RequestKind), CredentialError> {
    match ParseBindingRequest(datagram)
    case Err(e) => Err(Stun(e))
    case Ok(txid) =>
      match Classification(Decode(AreaOf(datagram)))
      case Err(e) => Err(e)
      case Ok(kind) => Ok((txid, kind))
  }

  // ----- counting and finding -----

  lemma {:induction false} CountConcat(s: seq<Attr>, t: seq<Attr>, attrType: u16)
    ensures Count(s + t, attrType) == Count(s, attrType) + Count(t, attrType)
  {
    if t == [] {
      assert s + t == s;
    } else {
      CountConcat(s, Front(t), attrType);
      assert Front(s + t) == s + Front(t);
    }
  }

  lemma {:induction false} FirstConcat(s: seq<Attr>, t: seq<Attr>, attrType: u16)
    ensures First(s + t, attrType) == if First(s, attrType).Some? then First(s, attrType) else First(t, attrType)
  {
    if s == [] {
      assert s + t == t;
    } else {
      FirstConcat(s[1..], t, attrType);
      assert (s + t)[1..] == s[1..] + t;
    }
  }

  lemma {:induction false} FirstIffCounted(attrs: seq<Attr>, attrType: u16)
    ensures First(attrs, attrType).Some? <==> Count(attrs, attrType) > 0
    ensures First(attrs, attrType).Some? ==> Attr(attrType, First(attrs, attrType).value) in attrs
  {
    if attrs != [] {
      var past, a := Front(attrs), Last(attrs);
      FirstIffCounted(past, attrType);
      FirstConcat(past, [a], attrType);
      assert past + [a] == attrs;
      assert First([a], attrType) == if a.attrType == attrType then Some(a.value) else None;
    }
  }

  lemma {:induction false} OnlyOne(attrs: seq<Attr>, a: Attr)
    requires Count(attrs, a.attrType) == 1 && a in attrs
    ensures First(attrs, a.attrType) == Some(a.value)
  {
    var i :| 0 <= i < |attrs| && attrs[i] == a;
    var before, after := attrs[..i], attrs[i + 1..];
    assert attrs == before + ([a] + after);
    CountAround(before, a, after, a.attrType);
    FirstIffCounted(before, a.attrType);
    FirstConcat(before, [a] + after, a.attrType);
  }

  // ----- the walk -----

  /** What the walk has recorded after the attributes in `done`. */
  ghost predicate Recorded(done: seq<Attr>, identity: Option<Bytes>, nonce: Option<Bytes>, signature: Option<Bytes>) {
    && Count(done, ATTR_DIG_IDENTITY) == (if identity.Some? then 1 else 0)
    && Count(done, ATTR_NONCE) == (if nonce.Some? then 1 else 0)
    && Count(done, ATTR_DIG_SIGNATURE) == (if signature.Some? then 1 else 0)
    && (identity.Some? ==> OneIdentity(done) && identity.value == Tail(TheValue(done, ATTR_DIG_IDENTITY)))
    && (nonce.Some? ==> nonce.value == TheValue(done, ATTR_NONCE))
    && (signature.Some? ==> OneFinalSignature(done)
                            && signature.value == Tail(TheValue(done, ATTR_DIG_SIGNATURE)))
  }

  lemma OneMore(done: seq<Attr>, a: Attr, attrType: u16)
    ensures Count(done + [a], attrType) == Count(done, attrType) + if a.attrType == attrType then 1 else 0
    ensures Count(done, attrType) > 0 ==> TheValue(done + [a], attrType) == TheValue(done, attrType)
    ensures Count(done, attrType) == 0 && a.attrType == attrType ==> TheValue(done + [a], attrType) == a.value
  {
    assert Front(done + [a]) == done;
    FirstConcat(done, [a], attrType);
    FirstIffCounted(done, attrType);
    assert First([a], attrType) == if a.attrType == attrType then Some(a.value) else None;
  }

  lemma IdentityStays(done: seq<Attr>, a: Attr)
    requires OneIdentity(done) && a.attrType != ATTR_DIG_IDENTITY
    ensures OneIdentity(done + [a])
  {
  }

  lemma RecordIdentity(done: seq<Attr>, a: Attr, nonce: Option<Bytes>)
    requires Recorded(done, None, nonce, None) && a.attrType == ATTR_DIG_IDENTITY && IsIdentityValue(a.value)
    ensures Recorded(done + [a], Some(Tail(a.value)), nonce, None)
  {
    OneMore(done, a, ATTR_DIG_IDENTITY);
    OneMore(done, a, ATTR_NONCE);
    OneMore(done, a, ATTR_DIG_SIGNATURE);
    assert a in done + [a];
  }

  lemma RecordNonce(done: seq<Attr>, a: Attr, identity: Option<Bytes>)
    requires Recorded(done, identity, None, None) && a.attrType == ATTR_NONCE
    ensures Recorded(done + [a], identity, Some(a.value), None)
  {
    OneMore(done, a, ATTR_DIG_IDENTITY);
    OneMore(done, a, ATTR_NONCE);
    OneMore(done, a, ATTR_DIG_SIGNATURE);
    if identity.Some? {
      IdentityStays(done, a);
    }
  }

  lemma RecordSignature(done: seq<Attr>, a: Attr, identity: Option<Bytes>, nonce: Option<Bytes>)
    requires Recorded(done, identity, nonce, None) && a.attrType == ATTR_DIG_SIGNATURE && IsSignatureValue(a.value)
    ensures Recorded(done + [a], identity, nonce, Some(Tail(a.value)))
  {
    OneMore(done, a, ATTR_DIG_IDENTITY);
    OneMore(done, a, ATTR_NONCE);
    OneMore(done, a, ATTR_DIG_SIGNATURE);
    if identity.Some? {
      IdentityStays(done, a);
    }
  }

  lemma RecordUnknown(done: seq<Attr>, a: Attr, identity: Option<Bytes>, nonce: Option<Bytes>)
    requires Recorded(done, identity, nonce, None)
    requires a.attrType != ATTR_DIG_IDENTITY && a.attrType != ATTR_NONCE && a.attrType != ATTR_DIG_SIGNATURE
    ensures Recorded(done + [a], identity, nonce, None)
  {
    OneMore(done, a, ATTR_DIG_IDENTITY);
    OneMore(done, a, ATTR_NONCE);
    OneMore(done, a, ATTR_DIG_SIGNATURE);
    if identity.Some? {
      IdentityStays(done, a);
    }
  }

  /** Nothing may follow a signature, not even an attribute that does not fit. */
  lemma AfterSignature(done: seq<Attr>, rest: Decoding, identity: Option<Bytes>, nonce: Option<Bytes>, signature: Bytes)
    requires Recorded(done, identity, nonce, Some(signature)) && (rest.attrs != [] || rest.overrun)
    ensures Classification(Decoding(done + rest.attrs, rest.overrun)) == Err(Malformed)
  {
    if !rest.overrun {
      var attrs := done + rest.attrs;
      CountConcat(done, rest.attrs, ATTR_DIG_SIGNATURE);
      assert Last(attrs) == Last(rest.attrs);
    }
  }

  lemma CountAround(done: seq<Attr>, a: Attr, rest: seq<Attr>, attrType: u16)
    ensures Count(done + ([a] + rest), attrType)
         == Count(done, attrType) + (if a.attrType == attrType then 1 else 0) + Count(rest, attrType)
  {
    CountConcat(done, [a] + rest, attrType);
    CountConcat([a], rest, attrType);
    assert Front([a]) == [];
  }

  lemma SecondOfItsKind(done: seq<Attr>, a: Attr, rest: Decoding)
    requires a.attrType == ATTR_DIG_IDENTITY || a.attrType == ATTR_NONCE
    requires Count(done, a.attrType) == 1
    ensures Classification(Decoding(done + ([a] + rest.attrs), rest.overrun)) == Err(Malformed)
  {
    CountAround(done, a, rest.attrs, a.attrType);
  }

  lemma BadShape(done: seq<Attr>, a: Attr, rest: Decoding)
    requires (a.attrType == ATTR_DIG_IDENTITY && !IsIdentityValue(a.value))
          || (a.attrType == ATTR_DIG_SIGNATURE && !IsSignatureValue(a.value))
    ensures Classification(Decoding(done + ([a] + rest.attrs), rest.overrun)) == Err(Malformed)
  {
    var attrs := done + ([a] + rest.attrs);
    CountAround(done, a, rest.attrs, a.attrType);
    assert a == attrs[|done|];
    if Count(attrs, a.attrType) == 1 {
      OnlyOne(attrs, a);
      if OneIdentity(attrs) && a.attrType == ATTR_DIG_IDENTITY {
        var x :| x in attrs && x.attrType == ATTR_DIG_IDENTITY && IsIdentityValue(x.value);
        OnlyOne(attrs, x);
      }
      if OneFinalSignature(attrs) && a.attrType == ATTR_DIG_SIGNATURE {
        OnlyOne(attrs, Last(attrs));
      }
    }
  }

  /** The three-way match at the end of the walk. */
  function Combine(identity: Option<Bytes>, nonce: Option<Bytes>, signature: Option<Bytes>)
    : Result<RequestKind, CredentialError>
  {
    match (identity, nonce, signature)
    case (None, None, None) => Ok(Bare)
    case (Some(spki), None, None) => Ok(Identity(spki))
    case (Some(spki), Some(n), Some(sig)) => Ok(Signed(spki, n, sig))
    case _ => Err(Malformed)
  }

  lemma Concluded(done: seq<Attr>, identity: Option<Bytes>, nonce: Option<Bytes>, signature: Option<Bytes>)
    requires Recorded(done, identity, nonce, signature)
    ensures Classification(Decoding(done, false)) == Combine(identity, nonce, signature)
  {
  }

  /** At `off` the walk has seen `done` and has the rest of `whole` before it. */
  ghost predicate Reached(area: Bytes, off: nat, whole: Decoding, done: seq<Attr>) {
    var rest := DecodeFrom(area, off);
    whole == Decoding(done + rest.attrs, rest.overrun)
  }

  lemma ReachedStart(area: Bytes)
    ensures Reached(area, 0, Decode(area), []) && Recorded([], None, None, None)
  {
  }

  lemma ReachedNext(area: Bytes, off: nat, whole: Decoding, done: seq<Attr>)
    requires Reached(area, off, whole, done) && off + 4 <= |area| && !Overruns(area, off)
    ensures Reached(area, NextOffset(area, off), whole, done + [AttrAt(area, off)])
    ensures var after := DecodeFrom(area, NextOffset(area, off));
            whole == Decoding(done + ([AttrAt(area, off)] + after.attrs), after.overrun)
  {
  }

  lemma ReachedOverrun(area: Bytes, off: nat, whole: Decoding, done: seq<Attr>)
    requires Reached(area, off, whole, done) && off + 4 <= |area| && Overruns(area, off)
    ensures Classification(whole) == Err(Malformed)
  {
  }

  lemma ReachedAfterSignature(area: Bytes, off: nat, whole: Decoding, done: seq<Attr>,
                              identity: Option<Bytes>, nonce: Option<Bytes>, signature: Bytes)
    requires Reached(area, off, whole, done) && off + 4 <= |area|
    requires Recorded(done, identity, nonce, Some(signature))
    ensures Classification(whole) == Err(Malformed)
  {
    AfterSignature(done, DecodeFrom(area, off), identity, nonce, signature);
  }

  lemma ReachedEnd(area: Bytes, off: nat, whole: Decoding, done: seq<Attr>)
    requires Reached(area, off, whole, done) && off + 4 > |area|
    ensures whole == Decoding(done, false)
  {
  }

  /** One attribute of the walk, no signature having been seen: recorded, ignored, or reason to give up. */
  method RecordAttr(a: Attr, identity: Option<Bytes>, nonce: Option<Bytes>,
                    ghost done: seq<Attr>, ghost after: Decoding)
    returns (ok: bool, identity': Option<Bytes>, nonce': Option<Bytes>, signature': Option<Bytes>)
    requires Recorded(done, identity, nonce, None)
    ensures ok ==> Recorded(done + [a], identity', nonce', signature')
                   && (signature'.Some? <==> a.attrType == ATTR_DIG_SIGNATURE)
    ensures !ok ==> Classification(Decoding(done + ([a] + after.attrs), after.overrun)) == Err(Malformed)
  {
    hide Classification, IsIdentityValue, IsSignatureValue, OneIdentity, OneFinalSignature;
    identity', nonce', signature' := identity, nonce, None;
    if a.attrType == ATTR_DIG_IDENTITY {
      if identity.Some? {
        SecondOfItsKind(done, a, after);
        return false, None, None, None;
      }
      if !IsIdentityValue(a.value) {
        BadShape(done, a, after);
        return false, None, None, None;
      }
      RecordIdentity(done, a, nonce);
      identity' := Some(Tail(a.value));
    } else if a.attrType == ATTR_NONCE {
      if nonce.Some? {
        SecondOfItsKind(done, a, after);
        return false, None, None, None;
      }
      RecordNonce(done, a, identity);
      nonce' := Some(a.value);
    } else if a.attrType == ATTR_DIG_SIGNATURE {
      if !IsSignatureValue(a.value) {
        BadShape(done, a, after);
        return false, None, None, None;
      }
      RecordSignature(done, a, identity, nonce);
      signature' := Some(Tail(a.value));
    } else {
      RecordUnknown(done, a, identity, nonce);
    }
    ok := true;
  }

  method ClassifyAttrs(area: Bytes) returns (r: Result<RequestKind, CredentialError>)
    ensures r == Classification(Decode(area))
  {
    hide *;
    var identity: Option<Bytes> := None;
    var nonce: Option<Bytes> := None;
    var signature: Option<Bytes> := None;
    var signatureSeen := false;
    ghost var whole, done: seq<Attr> := Decode(area), [];
    ReachedStart(area);
    var off := 0;
    while off + 4 <= |area|
      invariant Reached(area, off, whole, done)
      invariant Recorded(done, identity, nonce, signature)
      invariant signatureSeen == signature.Some?
      decreases |area| - off
    {
      if signatureSeen {
        ReachedAfterSignature(area, off, whole, done, identity, nonce, signature.value);
        return Err(Malformed);
      }
      var attrType := FromBe16(area[off], area[off + 1]);
      var attrLen: nat := FromBe16(area[off + 2], area[off + 3]);
      var valStart := off + 4;
      var valEnd := valStart + attrLen;
      AttrParts(area, off);
      if valEnd > |area| {
        ReachedOverrun(area, off, whole, done);
        return Err(Malformed);
      }
      ReachedNext(area, off, whole, done);
      var a := Attr(attrType, area[valStart..valEnd]);
      var ok;
      ok, identity, nonce, signature := RecordAttr(a, identity, nonce, done, DecodeFrom(area, NextOffset(area, off)));
      if !ok {
        return Err(Malformed);
      }
      signatureSeen := attrType == ATTR_DIG_SIGNATURE;
      done := done + [a];
      off := valEnd + ((4 - (attrLen % 4)) % 4);
    }
    ReachedEnd(area, off, whole, done);
    Concluded(done, identity, nonce, signature);
    return Combine(identity, nonce, signature);
  }

  /** The bytes of a request, to what it asks. */
  method Classify(datagram: Bytes) returns (r: Result<(TransactionId, RequestKind), CredentialError>)
    ensures r == ClassifyRequest(datagram)
  {
    var txid := ParseBindingRequest(datagram);
    if txid.Err? {
      return Err(Stun(txid.error));
    }
    var msgLen: nat := FromBe16(datagram[2], datagram[3]);
    var kind := ClassifyAttrs(datagram[20..20 + msgLen]);
    if kind.Err? {
      return Err(kind.error);
    }
    return Ok((txid.value, kind.value));
  }
}
