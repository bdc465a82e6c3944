/** The Binding message, both directions: header, address attribute, response and request parsers. */
module Codec {
  import opened Prelude
  import opened Scope
  import Bits
  import opened Tlv

  const MAGIC_COOKIE: u32 := 0x2112_A442
  const COOKIE_BE: Bytes := [0x21, 0x12, 0xA4, 0x42]
  const COOKIE_TOP: u16 := 0x2112
  const BINDING_REQUEST: u16 := 0x0001
  const BINDING_SUCCESS: u16 := 0x0101
  const ATTR_XOR_MAPPED_ADDRESS: u16 := 0x0020
  const ATTR_MAPPED_ADDRESS: u16 := 0x0001
  const FAMILY_IPV4: u8 := 0x01
  const FAMILY_IPV6: u8 := 0x02

  type TransactionId = t: Bytes | |t| == 12 witness [0, 0, 0, 0, 0, 0, 0, 0, 0, 0, 0, 0]

  datatype StunError =
    | Truncated
    | BadMagicCookie
    | TransactionIdMismatch
    | NoMappedAddress
    | UnexpectedType(msgType: u16)
    | Io(reason: string)
    | Timeout

  lemma CookieBytes()
    ensures Be32(MAGIC_COOKIE) == COOKIE_BE
  {
  }

  // ----- the header -----

  function Header(msgType: u16, attrsLen: u16, txid: TransactionId): (r: Bytes)
    ensures |r| == 20
  {
    Be16(msgType) + Be16(attrsLen) + Be32(MAGIC_COOKIE) + txid
  }

  method WriteHeader(msg: Bytes, msgType: u16, attrsLen: u16, txid: TransactionId) returns (r: Bytes)
    ensures r == msg + Header(msgType, attrsLen, txid)
  {
    r := msg + Be16(msgType);
    r := r + Be16(attrsLen);
    r := r + Be32(MAGIC_COOKIE);
    r := r + txid;
  }

  /** A header and the attributes it announces; the announced length keeps 16 bits. */
  function Message(msgType: u16, txid: TransactionId, attrs: seq<Attr>): (r: Bytes)
    ensures |r| == 20 + |EncodeAttrs(attrs)|
  {
    Header(msgType, |EncodeAttrs(attrs)| % 0x1_0000, txid) + EncodeAttrs(attrs)
  }

  function TypeOf(msg: Bytes): u16
    requires |msg| >= 20
  {
    FromBe16(msg[0], msg[1])
  }

  function LengthOf(msg: Bytes): u16
    requires |msg| >= 20
  {
    FromBe16(msg[2], msg[3])
  }

  function CookieOf(msg: Bytes): u32
    requires |msg| >= 20
  {
    FromBe32(msg[4..8])
  }

  function TxidOf(msg: Bytes): TransactionId
    requires |msg| >= 20
  {
    msg[8..20]
  }

  /** The attribute area the header announces. */
  function AreaOf(msg: Bytes): Bytes
    requires |msg| >= 20 && |msg| >= 20 + LengthOf(msg)
  {
    msg[20..20 + LengthOf(msg)]
  }

  /** `msg` announces `msgType`, `txid` and exactly the attribute area `area`. */
  ghost predicate Frames(msg: Bytes, msgType: u16, txid: TransactionId, area: Bytes) {
    && |msg| == 20 + |area| && LengthOf(msg) == |area|
    && TypeOf(msg) == msgType && CookieOf(msg) == MAGIC_COOKIE && TxidOf(msg) == txid
    && AreaOf(msg) == area
  }

  lemma HeaderFrames(msgType: u16, txid: TransactionId, area: Bytes)
    requires |area| < 0x1_0000
    ensures Frames(Header(msgType, |area|, txid) + area, msgType, txid, area)
  {
  }

  /** A message written out is read back field by field, and its area decodes to its attributes. */
  lemma MessageReadsBack(msgType: u16, txid: TransactionId, attrs: seq<Attr>, area: Bytes)
    requires Encodable(attrs) && area == EncodeAttrs(attrs) && |area| < 0x1_0000
    ensures Frames(Message(msgType, txid, attrs), msgType, txid, area)
    ensures Decode(area) == Decoding(attrs, false)
  {
    assert Message(msgType, txid, attrs) == Header(msgType, |area|, txid) + area;
    HeaderFrames(msgType, txid, area);
    DecodeInvertsEncode(attrs);
  }

  // ----- addresses -----

  function MaskKey(txid: TransactionId): (r: Bytes)
    ensures |r| == 16
  {
    COOKIE_BE + txid
  }

  /** The value of an address attribute: reserved, family, port, address. */
  function XorMappedValue(txid: TransactionId, a: SocketAddr): (r: Bytes)
    ensures |r| == if a.ip.V4? then 8 else 20
  {
    var port := Be16(Bits.Xor16(a.port, COOKIE_TOP));
    match a.ip
    case V4(o) => [0, FAMILY_IPV4] + port + Bits.Masked(o, COOKIE_BE)
    case V6(o) => [0, FAMILY_IPV6] + port + Bits.Masked(o, MaskKey(txid))
  }

  function DecodeMappedAddress(value: Bytes, txid: TransactionId, xor: bool): Result<SocketAddr, StunError> {
    if |value| < 4 then Err(Truncated)
    else
      var rawPort := FromBe16(value[2], value[3]);
      var port := if xor then Bits.Xor16(rawPort, COOKIE_TOP) else rawPort;
      if value[1] == FAMILY_IPV4 then
        if |value| < 8 then Err(Truncated)
        else Ok(SocketAddr(V4(if xor then Bits.Masked(value[4..8], COOKIE_BE) else value[4..8]), port))
      else if value[1] == FAMILY_IPV6 then
        if |value| < 20 then Err(Truncated)
        else Ok(SocketAddr(V6(if xor then Bits.Masked(value[4..20], MaskKey(txid)) else value[4..20]), port))
      else Err(UnexpectedType(value[1]))
  }

  lemma MappedAddressRoundTrip(txid: TransactionId, a: SocketAddr)
    ensures DecodeMappedAddress(XorMappedValue(txid, a), txid, true) == Ok(a)
  {
    hide Bits.Masked, Bits.Xor16, Be16, FromBe16;
    var value := XorMappedValue(txid, a);
    var port := Bits.Xor16(a.port, COOKIE_TOP);
    Bits.Xor16Twice(a.port, COOKIE_TOP);
    Be16RoundTrip(port);
    match a.ip
    case V4(o) =>
      assert value[4..8] == Bits.Masked(o, COOKIE_BE);
      Bits.MaskedTwice(o, COOKIE_BE);
    case V6(o) =>
      assert value[4..20] == Bits.Masked(o, MaskKey(txid));
      Bits.MaskedTwice(o, MaskKey(txid));
  }

  /** The octets of the source's address arrays are masked where they lie. */
  method DecodeMapped(value: Bytes, txid: TransactionId, xor: bool) returns (r: Result<SocketAddr, StunError>)
    ensures r == DecodeMappedAddress(value, txid, xor)
  {
    if |value| < 4 {
      return Err(Truncated);
    }
    var family := value[1];
    var rawPort := FromBe16(value[2], value[3]);
    var port := if xor then Bits.Xor16(rawPort, COOKIE_TOP) else rawPort;
    if family == FAMILY_IPV4 {
      if |value| < 8 {
        return Err(Truncated);
      }
      var octets := new u8[4](i requires 0 <= i < 4 => value[4 + i]);
      assert octets[..] == value[4..8];
      if xor {
        Bits.MaskInPlace(octets, COOKIE_BE);
      }
      return Ok(SocketAddr(V4(octets[..]), port));
    } else if family == FAMILY_IPV6 {
      if |value| < 20 {
        return Err(Truncated);
      }
      var octets := new u8[16](i requires 0 <= i < 16 => value[4 + i]);
      assert octets[..] == value[4..20];
      if xor {
        Bits.MaskInPlace(octets, MaskKey(txid));
      }
      return Ok(SocketAddr(V6(octets[..]), port));
    } else {
      return Err(UnexpectedType(family));
    }
  }

  // ----- success responses -----

  function BindingSuccess(txid: TransactionId, reflexive: SocketAddr): Bytes {
    Message(BINDING_SUCCESS, txid, [Attr(ATTR_XOR_MAPPED_ADDRESS, XorMappedValue(txid, Fold(reflexive)))])
  }

  method EncodeMappedValue(txid: TransactionId, folded: SocketAddr) returns (value: Bytes)
    ensures value == XorMappedValue(txid, folded)
  {
    var xorPort := Bits.Xor16(folded.port, COOKIE_TOP);
    value := [0];
    match folded.ip {
      case V4(o) =>
        value := value + [FAMILY_IPV4] + Be16(xorPort);
        var octets := new u8[4](i requires 0 <= i < 4 => o[i]);
        assert octets[..] == o;
        Bits.MaskInPlace(octets, COOKIE_BE);
        value := value + octets[..];
      case V6(o) =>
        value := value + [FAMILY_IPV6] + Be16(xorPort);
        var octets := new u8[16](i requires 0 <= i < 16 => o[i]);
        assert octets[..] == o;
        Bits.MaskInPlace(octets, MaskKey(txid));
        value := value + octets[..];
    }
  }

  method EncodeBindingSuccess(txid: TransactionId, reflexive: SocketAddr) returns (msg: Bytes)
    ensures msg == BindingSuccess(txid, reflexive)
  {
    var folded := SocketAddr(FoldIp(reflexive.ip), reflexive.port);
    var value := EncodeMappedValue(txid, folded);
    var attr := Be16(ATTR_XOR_MAPPED_ADDRESS) + Be16(|value|) + value;
    AlignedAttr(Attr(ATTR_XOR_MAPPED_ADDRESS, value));
    CookieBytes();
    msg := Be16(BINDING_SUCCESS) + Be16(|attr|) + COOKIE_BE + txid + attr;
  }

  /** Values of 8 or 20 bytes need no padding. */
  lemma AlignedAttr(a: Attr)
    requires |a.value| == 8 || |a.value| == 20
    ensures EncodeAttrs([a]) == Be16(a.attrType) + Be16(|a.value|) + a.value
  {
    PaddingIs(|a.value|);
  }

  lemma SingleAttr(a: Attr)
    ensures EncodeAttrs([a]) == EncodeAttr(a)
  {
  }

  // ----- parsing responses -----

  /** The value of the first attribute of a type. */
  function First(attrs: seq<Attr>, attrType: u16): Option<Bytes> {
    if attrs == [] then None
    else if attrs[0].attrType == attrType then Some(attrs[0].value)
    else First(attrs[1..], attrType)
  }

  /** The first legacy address attribute that decodes at all. */
  function FirstDecodable(attrs: seq<Attr>, txid: TransactionId): Option<SocketAddr> {
    if attrs == [] then None
    else if attrs[0].attrType == ATTR_MAPPED_ADDRESS && DecodeMappedAddress(attrs[0].value, txid, false).Ok?
    then Some(DecodeMappedAddress(attrs[0].value, txid, false).value)
    else FirstDecodable(attrs[1..], txid)
  }

  /** What a decoded area says: the masked address wins, then an overrun, then the fallback. */
  function AddressIn(d: Decoding, txid: TransactionId, fallback: Option<SocketAddr>): Result<SocketAddr, StunError> {
    match First(d.attrs, ATTR_XOR_MAPPED_ADDRESS)
    case Some(value) => DecodeMappedAddress(value, txid, true)
    case None =>
      if d.overrun then Err(Truncated)
      else
        match if fallback.Some? then fallback else FirstDecodable(d.attrs, txid)
        case Some(a) => Ok(a)
        case None => Err(NoMappedAddress)
  }

  /** The fallback after an attribute: kept if there is one, else taken if it decodes. */
  function NextFallback(a: Attr, txid: TransactionId, fallback: Option<SocketAddr>): Option<SocketAddr> {
    if a.attrType == ATTR_MAPPED_ADDRESS && fallback.None? && DecodeMappedAddress(a.value, txid, false).Ok?
    then Some(DecodeMappedAddress(a.value, txid, false).value)
    else fallback
  }

  lemma AddressStep(area: Bytes, off: nat, txid: TransactionId, fallback: Option<SocketAddr>)
    requires off + 4 <= |area| && !Overruns(area, off)
    ensures AddressIn(DecodeFrom(area, off), txid, fallback)
         == if TypeAt(area, off) == ATTR_XOR_MAPPED_ADDRESS
            then DecodeMappedAddress(AttrAt(area, off).value, txid, true)
            else AddressIn(DecodeFrom(area, NextOffset(area, off)), txid,
                           NextFallback(AttrAt(area, off), txid, fallback))
  {
  }

  method Remember(a: Attr, txid: TransactionId, fallback: Option<SocketAddr>) returns (r: Option<SocketAddr>)
    ensures r == NextFallback(a, txid, fallback)
  {
    r := fallback;
    if a.attrType == ATTR_MAPPED_ADDRESS && fallback.None? {
      var decoded := DecodeMapped(a.value, txid, false);
      if decoded.Ok? {
        r := Some(decoded.value);
      }
    }
  }

  lemma AddressStops(area: Bytes, off: nat, txid: TransactionId, fallback: Option<SocketAddr>)
    requires off + 4 > |area| || Overruns(area, off)
    ensures AddressIn(DecodeFrom(area, off), txid, fallback)
         == if off + 4 <= |area| then Err(Truncated)
            else if fallback.Some? then Ok(fallback.value) else Err(NoMappedAddress)
  {
  }

  function BindingResponse(msg: Bytes, expected: Option<TransactionId>): Result<SocketAddr, StunError> {
    if |msg| < 20 then Err(Truncated)
    else if CookieOf(msg) != MAGIC_COOKIE then Err(BadMagicCookie)
    else if TypeOf(msg) != BINDING_SUCCESS then Err(UnexpectedType(TypeOf(msg)))
    else if expected.Some? && expected.value != TxidOf(msg) then Err(TransactionIdMismatch)
    else if |msg| < 20 + LengthOf(msg) then Err(Truncated)
    else AddressIn(Decode(AreaOf(msg)), TxidOf(msg), None)
  }

  method ParseBindingResponse(msg: Bytes, expected: Option<TransactionId>) returns (r: Result<SocketAddr, StunError>)
    ensures r == BindingResponse(msg, expected)
  {
    if |msg| < 20 {
      return Err(Truncated);
    }
    var msgType := FromBe16(msg[0], msg[1]);
    var msgLen: nat := FromBe16(msg[2], msg[3]);
    if FromBe32(msg[4..8]) != MAGIC_COOKIE {
      return Err(BadMagicCookie);
    }
    if msgType != BINDING_SUCCESS {
      return Err(UnexpectedType(msgType));
    }
    var txid: TransactionId := msg[8..20];
    if expected.Some? && txid != expected.value {
      return Err(TransactionIdMismatch);
    }
    if |msg| < 20 + msgLen {
      return Err(Truncated);
    }
    r := WalkResponse(msg[20..20 + msgLen], txid);
  }

  method WalkResponse(area: Bytes, txid: TransactionId) returns (r: Result<SocketAddr, StunError>)
    ensures r == AddressIn(Decode(area), txid, None)
  {
    hide AddressIn, DecodeFrom, DecodeMappedAddress, NextFallback, FromBe16, AttrAt, NextOffset, Overruns, Padding;
    var fallback: Option<SocketAddr> := None;
    var off := 0;
    while off + 4 <= |area|
      invariant AddressIn(Decode(area), txid, None) == AddressIn(DecodeFrom(area, off), txid, fallback)
      decreases |area| - off
    {
      AttrParts(area, off);
      var attrType := FromBe16(area[off], area[off + 1]);
      var attrLen: nat := FromBe16(area[off + 2], area[off + 3]);
      var valStart := off + 4;
      var valEnd := valStart + attrLen;
      if valEnd > |area| {
        AddressStops(area, off, txid, fallback);
        return Err(Truncated);
      }
      var value := area[valStart..valEnd];
      AddressStep(area, off, txid, fallback);
      if attrType == ATTR_XOR_MAPPED_ADDRESS {
        r := DecodeMapped(value, txid, true);
        return;
      }
      fallback := Remember(Attr(attrType, value), txid, fallback);
      off := valEnd + ((4 - (attrLen % 4)) % 4);
    }
    AddressStops(area, off, txid, fallback);
    return if fallback.Some? then Ok(fallback.value) else Err(NoMappedAddress);
  }

  /** Answering and parsing are inverse up to folding; any other transaction id is a mismatch. */
  lemma SuccessRoundTrip(txid: TransactionId, a: SocketAddr, expected: Option<TransactionId>)
    ensures BindingResponse(BindingSuccess(txid, a), expected)
         == if expected.Some? && expected.value != txid then Err(TransactionIdMismatch) else Ok(Fold(a))
  {
    var value := XorMappedValue(txid, Fold(a));
    var attrs := [Attr(ATTR_XOR_MAPPED_ADDRESS, value)];
    AlignedAttr(attrs[0]);
    MessageReadsBack(BINDING_SUCCESS, txid, attrs, EncodeAttrs(attrs));
    MappedAddressRoundTrip(txid, Fold(a));
  }

  /** A native address comes back as it was, port included. */
  lemma NativeRoundTrip(txid: TransactionId, a: SocketAddr)
    requires IsNative(a.ip)
    ensures BindingResponse(BindingSuccess(txid, a), Some(txid)) == Ok(a)
  {
    hide BindingResponse, BindingSuccess, IsNative, FoldIp;
    SuccessRoundTrip(txid, a, Some(txid));
    FoldsToItselfIff(a.ip);
  }

  /** An IPv4 address in either of its IPv6 spellings comes back as the IPv4 address. */
  lemma DisguisedRoundTrip(txid: TransactionId, o: Octets4, port: u16)
    ensures BindingResponse(BindingSuccess(txid, SocketAddr(V6(MappedForm(o)), port)), Some(txid))
         == Ok(SocketAddr(V4(o), port))
    ensures BindingResponse(BindingSuccess(txid, SocketAddr(V6(CompatibleForm(o)), port)), Some(txid))
         == Ok(SocketAddr(V4(o), port))
  {
    hide BindingResponse, BindingSuccess, FoldIp, MappedForm, CompatibleForm;
    SuccessRoundTrip(txid, SocketAddr(V6(MappedForm(o)), port), Some(txid));
    SuccessRoundTrip(txid, SocketAddr(V6(CompatibleForm(o)), port), Some(txid));
    FoldsToIff(V6(MappedForm(o)), o);
    FoldsToIff(V6(CompatibleForm(o)), o);
  }

  /** The scope guard sees the same verdict before and after the trip. */
  lemma GuardSurvivesRoundTrip(txid: TransactionId, a: SocketAddr)
    ensures BindingResponse(BindingSuccess(txid, a), Some(txid)).Ok?
    ensures ScopeOf(BindingResponse(BindingSuccess(txid, a), Some(txid)).value) == ScopeOf(a)
  {
    SuccessRoundTrip(txid, a, Some(txid));
    FoldKeepsScope(a);
  }

  // ----- parsing requests -----

  function ParseBindingRequest(datagram: Bytes): Result<TransactionId, StunError> {
    if |datagram| < 20 then Err(Truncated)
    else if CookieOf(datagram) != MAGIC_COOKIE then Err(BadMagicCookie)
    else if TypeOf(datagram) != BINDING_REQUEST then Err(UnexpectedType(TypeOf(datagram)))
    else if |datagram| < 20 + LengthOf(datagram) then Err(Truncated)
    else Ok(TxidOf(datagram))
  }
}
