/**
 * What a signed request signs, and how it is verified. ECDSA itself is a parameter: a signer is
 * whatever turns messages into bytes, a verifier whatever accepts or rejects.
 */
module Signature {
  import opened Prelude
  import opened Codec
  import opened Wire
  import opened Request

  /** `sign(n, m)` is the signature the `n`-th use of the key gives over `m`; it may differ each time. */
  datatype Signer = Signer(spki: Bytes, sign: (nat, Bytes) -> Bytes)

  /** Takes a public point, a message and a signature. */
  type Verifier = (Bytes, Bytes, Bytes) -> bool

  datatype VerifiedIdentity = VerifiedIdentity(spki: Bytes)

  function SigningMessage(txid: TransactionId, nonce: Bytes, spki: Bytes): Bytes {
    SigDomainTag() + [CREDENTIAL_VERSION] + txid + Be16(|nonce| % 0x1_0000) + nonce + spki
  }

  /** The uncompressed point inside a well-formed SPKI. */
  function PointOf(spki: Bytes): Bytes
    requires IsValidSpkiDer(spki)
  {
    spki[26..P256_SPKI_LEN]
  }

  function VerifySignedRequest(verify: Verifier, txid: TransactionId, kind: RequestKind)
    : Result<VerifiedIdentity, CredentialError>
  {
    if !kind.Signed? then Err(Malformed)
    else if !IsValidSpkiDer(kind.spki) then Err(Malformed)
    else if !verify(PointOf(kind.spki), SigningMessage(txid, kind.nonce, kind.spki), kind.signature)
    then Err(BadSignature)
    else Ok(VerifiedIdentity(kind.spki))
  }

  /** A signature made over one request's fields covers no other request's fields. */
  lemma SigningMessageInjective(txid: TransactionId, nonce: Bytes, spki: Bytes,
                                txid': TransactionId, nonce': Bytes, spki': Bytes)
    requires |spki| == |spki'| == P256_SPKI_LEN
    requires SigningMessage(txid, nonce, spki) == SigningMessage(txid', nonce', spki')
    ensures txid == txid' && nonce == nonce' && spki == spki'
  {
    var m, m' := SigningMessage(txid, nonce, spki), SigningMessage(txid', nonce', spki');
    assert |m| == 26 + |nonce| + P256_SPKI_LEN && |m'| == 26 + |nonce'| + P256_SPKI_LEN;
    SigningMessageParts(txid, nonce, spki);
    SigningMessageParts(txid', nonce', spki');
  }

  lemma SigningMessageParts(txid: TransactionId, nonce: Bytes, spki: Bytes)
    ensures var m := SigningMessage(txid, nonce, spki);
            && |m| == 26 + |nonce| + |spki|
            && m[..11] == SigDomainTag()
            && m[12..24] == txid && m[26..26 + |nonce|] == nonce && m[26 + |nonce|..] == spki
  {
  }
}
