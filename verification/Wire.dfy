/** Constants and shape checks of the credential attributes, and the key material they describe. */
module Wire {
  import opened Prelude
  import opened Codec

  const ATTR_DIG_IDENTITY: u16 := 0xD160
  const ATTR_DIG_SIGNATURE: u16 := 0xD161
  const ATTR_ERROR_CODE: u16 := 0x0009
  const ATTR_REALM: u16 := 0x0014
  const ATTR_NONCE: u16 := 0x0015
  const BINDING_ERROR: u16 := 0x0111
  const CREDENTIAL_VERSION: u8 := 0x01
  const P256_SPKI_LEN: nat := 91
  const P256_SPKI_PREFIX: Bytes := [
    0x30, 0x59, 0x30, 0x13, 0x06, 0x07, 0x2a, 0x86, 0x48, 0xce, 0x3d, 0x02, 0x01, 0x06, 0x08, 0x2a,
    0x86, 0x48, 0xce, 0x3d, 0x03, 0x01, 0x07, 0x03, 0x42, 0x00
  ]
  const MAX_SIGNATURE_LEN: nat := 72
  const MIN_SIGNATURE_ATTR_LEN: nat := 9
  const ERR_BAD_REQUEST: u16 := 400
  const ERR_UNAUTHENTICATED: u16 := 401
  const ERR_STALE_NONCE: u16 := 438

  datatype CredentialError = Stun(error: StunError) | Malformed | BadSignature

  predicate IsValidSpkiDer(spki: Bytes) {
    |spki| == P256_SPKI_LEN && spki[..26] == P256_SPKI_PREFIX && spki[26] == 0x04
  }

  predicate IsValidSignatureDerLen(signature: Bytes) {
    MIN_SIGNATURE_ATTR_LEN <= |signature| + 1 <= 1 + MAX_SIGNATURE_LEN
  }

  /** `"dig-stun"`, `"dig:stun:v1"` and `"dig:stun:nonce:v1"` as bytes. */
  function Realm(): (r: Bytes)
    ensures |r| == 8
  {
    Ascii("dig-stun")
  }

  function SigDomainTag(): (r: Bytes)
    ensures |r| == 11
  {
    Ascii("dig:stun:v1")
  }

  function NonceDomainTag(): (r: Bytes)
    ensures |r| == 17
  {
    Ascii("dig:stun:nonce:v1")
  }
}
