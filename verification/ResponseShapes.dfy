/**
 * What a client makes of any response, attribute by attribute: which address a success response
 * says, what an error response says, and every way for either not to be one.
 */
module ResponseShapes {
  import opened Prelude
  import opened Scope
  import opened Tlv
  import opened Codec
  import opened Headers
  import opened Wire
  import opened Response

  // ----- success responses -----

  /** Exactly when a message is taken for a success response to `expected`, and what it says then. */
  lemma SuccessIff(msg: Bytes, expected: TransactionId, n: u16)
    requires |msg| >= 20 + n
    ensures Headed(msg, 0x0101, n, expected) ==>
              BindingResponse(msg, Some(expected)) == AddressIn(Decode(msg[20..20 + n]), expected, None)
  {
    hide AddressIn, DecodeFrom, Headed, FromBe16, FromBe32;
    HeadedIff(msg, 0x0101, n, expected);
  }

  /** Each way not to be one, in the order they are noticed. */
  lemma SuccessErrors(msg: Bytes, expected: TransactionId)
    ensures |msg| < 20 ==> BindingResponse(msg, Some(expected)) == Err(Truncated)
    ensures |msg| >= 20 && msg[4..8] != [0x21, 0x12, 0xA4, 0x42] ==>
              BindingResponse(msg, Some(expected)) == Err(BadMagicCookie)
    ensures forall t: u16, n: u16, txid: TransactionId :: Headed(msg, t, n, txid) ==>
              && (t != 0x0101 ==> BindingResponse(msg, Some(expected)) == Err(UnexpectedType(t)))
              && (t == 0x0101 && txid != expected ==>
                   BindingResponse(msg, Some(expected)) == Err(TransactionIdMismatch))
              && (t == 0x0101 && txid == expected && |msg| < 20 + n ==>
                   BindingResponse(msg, Some(expected)) == Err(Truncated))
  {
    hide AddressIn, DecodeFrom, Headed, FromBe16, FromBe32;
    if |msg| >= 20 {
      FourBytes(msg[4..8]);
    }
    forall t: u16, n: u16, txid: TransactionId | Headed(msg, t, n, txid)
      ensures |msg| >= 20 && TypeOf(msg) == t && LengthOf(msg) == n && CookieOf(msg) == MAGIC_COOKIE
              && TxidOf(msg) == txid
    {
      HeadedIff(msg, t, n, txid);
    }
  }

  /** The `i`-th attribute is the first with this property. */
  ghost predicate FirstWith(attrs: seq<Attr>, p: Attr -> bool, i: nat) {
    i < |attrs| && p(attrs[i]) && forall j :: 0 <= j < i ==> !p(attrs[j])
  }

  ghost predicate NoneWith(attrs: seq<Attr>, p: Attr -> bool) {
    forall j :: 0 <= j < |attrs| ==> !p(attrs[j])
  }

  /** A masked address attribute. */
  function IsMasked(): Attr -> bool {
    (a: Attr) => a.attrType == 0x0020
  }

  /** A plain address attribute whose value decodes. */
  function IsPlain(txid: TransactionId): Attr -> bool {
    (a: Attr) => a.attrType == 0x0001 && DecodeMappedAddress(a.value, txid, false).Ok?
  }

  lemma {:induction false} FirstMasked(attrs: seq<Attr>, i: nat)
    ensures FirstWith(attrs, IsMasked(), i) ==> First(attrs, ATTR_XOR_MAPPED_ADDRESS) == Some(attrs[i].value)
    ensures NoneWith(attrs, IsMasked()) ==> First(attrs, ATTR_XOR_MAPPED_ADDRESS) == None
    decreases |attrs|
  {
    if attrs != [] {
      var rest := attrs[1..];
      assert forall j :: 0 <= j < |rest| ==> rest[j] == attrs[j + 1];
      if i > 0 {
        FirstMasked(rest, i - 1);
      } else {
        FirstMasked(rest, 0);
      }
    }
  }

  lemma {:induction false} FirstPlain(attrs: seq<Attr>, txid: TransactionId, i: nat)
    ensures FirstWith(attrs, IsPlain(txid), i) ==>
              FirstDecodable(attrs, txid) == Some(DecodeMappedAddress(attrs[i].value, txid, false).value)
    ensures NoneWith(attrs, IsPlain(txid)) ==> FirstDecodable(attrs, txid) == None
    decreases |attrs|
  {
    hide DecodeMappedAddress;
    if attrs != [] {
      var rest := attrs[1..];
      assert forall j :: 0 <= j < |rest| ==> rest[j] == attrs[j + 1];
      if i > 0 {
        FirstPlain(rest, txid, i - 1);
      } else {
        FirstPlain(rest, txid, 0);
      }
    }
  }

  /**
   * The first masked address decides, whatever follows it; without one an overrun is an error;
   * without that the first plain address that decodes is the answer.
   */
  lemma AddressByPlace(d: Decoding, txid: TransactionId, i: nat)
    ensures FirstWith(d.attrs, IsMasked(), i) ==>
              AddressIn(d, txid, None) == DecodeMappedAddress(d.attrs[i].value, txid, true)
    ensures NoneWith(d.attrs, IsMasked()) && d.overrun ==> AddressIn(d, txid, None) == Err(Truncated)
    ensures NoneWith(d.attrs, IsMasked()) && !d.overrun && FirstWith(d.attrs, IsPlain(txid), i) ==>
              AddressIn(d, txid, None) == DecodeMappedAddress(d.attrs[i].value, txid, false)
    ensures NoneWith(d.attrs, IsMasked()) && !d.overrun && NoneWith(d.attrs, IsPlain(txid)) ==>
              AddressIn(d, txid, None) == Err(NoMappedAddress)
  {
    hide DecodeMappedAddress, First, FirstDecodable;
    FirstMasked(d.attrs, i);
    FirstPlain(d.attrs, txid, i);
  }

  // ----- error responses -----

  lemma ErrorIff(msg: Bytes, expected: TransactionId, n: u16)
    requires |msg| >= 20 + n
    ensures Headed(msg, 0x0111, n, expected) ==>
              ErrorIn(msg, expected) == Ok(ChallengeIn(Decode(msg[20..20 + n]).attrs))
  {
    hide ChallengeIn, DecodeFrom, Headed, FromBe16, FromBe32;
    HeadedIff(msg, 0x0111, n, expected);
  }

  lemma ErrorErrors(msg: Bytes, expected: TransactionId)
    ensures |msg| < 20 ==> ErrorIn(msg, expected) == Err(Truncated)
    ensures |msg| >= 20 && msg[4..8] != [0x21, 0x12, 0xA4, 0x42] ==> ErrorIn(msg, expected) == Err(BadMagicCookie)
    ensures forall t: u16, n: u16, txid: TransactionId :: Headed(msg, t, n, txid) ==>
              && (t != 0x0111 ==> ErrorIn(msg, expected) == Err(UnexpectedType(t)))
              && (t == 0x0111 && txid != expected ==> ErrorIn(msg, expected) == Err(TransactionIdMismatch))
              && (t == 0x0111 && txid == expected && |msg| < 20 + n ==> ErrorIn(msg, expected) == Err(Truncated))
  {
    hide ChallengeIn, DecodeFrom, Headed, FromBe16, FromBe32;
    if |msg| >= 20 {
      FourBytes(msg[4..8]);
    }
    forall t: u16, n: u16, txid: TransactionId | Headed(msg, t, n, txid)
      ensures |msg| >= 20 && TypeOf(msg) == t && LengthOf(msg) == n && CookieOf(msg) == MAGIC_COOKIE
              && TxidOf(msg) == txid
    {
      HeadedIff(msg, t, n, txid);
    }
  }

  /** The `i`-th attribute is the last with this property. */
  ghost predicate LastWith(attrs: seq<Attr>, p: Attr -> bool, i: nat) {
    i < |attrs| && p(attrs[i]) && forall j :: i < j < |attrs| ==> !p(attrs[j])
  }

  function IsCode(): Attr -> bool {
    (a: Attr) => a.attrType == 0x0009 && |a.value| >= 4
  }

  function IsRealm(): Attr -> bool {
    (a: Attr) => a.attrType == 0x0014 && IsUtf8(a.value)
  }

  function IsNonce(): Attr -> bool {
    (a: Attr) => a.attrType == 0x0015
  }

  lemma {:induction false} LastCode(attrs: seq<Attr>, i: nat)
    ensures LastWith(attrs, IsCode(), i) ==>
              var hundreds: nat, rest: nat := attrs[i].value[2], attrs[i].value[3];
              CodeOf(attrs) == 100 * hundreds + rest
    ensures NoneWith(attrs, IsCode()) ==> CodeOf(attrs) == 0
    decreases |attrs|
  {
    if attrs != [] {
      var past := Front(attrs);
      assert forall j :: 0 <= j < |past| ==> past[j] == attrs[j];
      LastCode(past, i);
    }
  }

  lemma {:induction false} LastRealm(attrs: seq<Attr>, i: nat)
    ensures LastWith(attrs, IsRealm(), i) ==> RealmOf(attrs) == Some(attrs[i].value)
    ensures NoneWith(attrs, IsRealm()) ==> RealmOf(attrs) == None
    decreases |attrs|
  {
    hide IsUtf8;
    if attrs != [] {
      var past := Front(attrs);
      assert forall j :: 0 <= j < |past| ==> past[j] == attrs[j];
      LastRealm(past, i);
    }
  }

  lemma {:induction false} LastNonce(attrs: seq<Attr>, i: nat)
    ensures LastWith(attrs, IsNonce(), i) ==> NonceOf(attrs) == Some(attrs[i].value)
    ensures NoneWith(attrs, IsNonce()) ==> NonceOf(attrs) == None
    decreases |attrs|
  {
    if attrs != [] {
      var past := Front(attrs);
      assert forall j :: 0 <= j < |past| ==> past[j] == attrs[j];
      LastNonce(past, i);
    }
  }

  /** The last of each kind counts: code as class times a hundred plus number, realm if it is text, nonce. */
  lemma ChallengeByPlace(attrs: seq<Attr>, i: nat, j: nat, k: nat)
    ensures LastWith(attrs, IsCode(), i) ==>
              var hundreds: nat, rest: nat := attrs[i].value[2], attrs[i].value[3];
              ChallengeIn(attrs).code == 100 * hundreds + rest
    ensures NoneWith(attrs, IsCode()) ==> ChallengeIn(attrs).code == 0
    ensures LastWith(attrs, IsRealm(), j) ==> ChallengeIn(attrs).realm == Some(attrs[j].value)
    ensures NoneWith(attrs, IsRealm()) ==> ChallengeIn(attrs).realm == None
    ensures LastWith(attrs, IsNonce(), k) ==> ChallengeIn(attrs).nonce == Some(attrs[k].value)
    ensures NoneWith(attrs, IsNonce()) ==> ChallengeIn(attrs).nonce == None
  {
    hide CodeOf, RealmOf, NonceOf;
    LastCode(attrs, i);
    LastRealm(attrs, j);
    LastNonce(attrs, k);
  }

  /** Every code there is, from 300 to 699, is read back from its class and number. */
  lemma CodesReadBack(txid: TransactionId, code: u16, reason: Bytes)
    requires 300 <= code <= 699 && |reason| < 0xff00
    ensures var value := [0, 0, code / 100, code % 100] + reason;
            ErrorIn(Message(BINDING_ERROR, txid, [Attr(0x0009, value)]), txid) == Ok(Challenge(code, None, None))
  {
    hide EncodeAttrs, Message, DecodeFrom, ChallengeIn, FromBe16, FromBe32;
    var value := [0, 0, code / 100, code % 100] + reason;
    var attrs := [Attr(0x0009, value)];
    OneAttrSize(attrs[0]);
    MessageReadsBack(BINDING_ERROR, txid, attrs, EncodeAttrs(attrs));
    ChallengeByPlace(attrs, 0, 0, 0);
    assert value[2] == code / 100 && value[3] == code % 100;
  }

  lemma OneAttrSize(a: Attr)
    requires |a.value| < 0xff10
    ensures |EncodeAttrs([a])| < 0x1_0000
  {
    SingleAttr(a);
  }
}
