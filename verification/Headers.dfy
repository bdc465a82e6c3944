/** The twenty bytes every message begins with, and what makes a datagram a Binding request at all. */
module Headers {
  import opened Prelude
  import opened Tlv
  import opened Codec

  /** The first twenty bytes: type, length, cookie, transaction id. */
  ghost predicate Headed(msg: Bytes, msgType: nat, length: nat, txid: TransactionId) {
    && |msg| >= 20
    && msg[..2] == [msgType / 0x100 % 0x100, msgType % 0x100] && msg[2..4] == [length / 0x100 % 0x100, length % 0x100]
    && msg[4..8] == [0x21, 0x12, 0xA4, 0x42] && msg[8..20] == txid
  }

  lemma HeadedIff(msg: Bytes, msgType: u16, length: u16, txid: TransactionId)
    ensures Headed(msg, msgType, length, txid)
       <==> |msg| >= 20 && TypeOf(msg) == msgType && LengthOf(msg) == length && CookieOf(msg) == MAGIC_COOKIE
            && TxidOf(msg) == txid
  {
    if |msg| >= 20 {
      TwoBytes(msg[0], msg[1], msgType);
      TwoBytes(msg[2], msg[3], length);
      FourBytes(msg[4..8]);
      assert msg[..2] == [msg[0], msg[1]] && msg[2..4] == [msg[2], msg[3]];
    }
  }

  lemma TwoBytes(hi: u8, lo: u8, n: u16)
    ensures FromBe16(hi, lo) == n <==> [hi, lo] == [n / 0x100 % 0x100, n % 0x100]
  {
    assert [n / 0x100 % 0x100, n % 0x100][0] == n / 0x100 % 0x100;
    assert [hi, lo][0] == hi && [hi, lo][1] == lo;
  }

  lemma FourBytes(s: Bytes)
    requires |s| == 4
    ensures FromBe32(s) == MAGIC_COOKIE <==> s == [0x21, 0x12, 0xA4, 0x42]
  {
    var cookie: Bytes := [0x21, 0x12, 0xA4, 0x42];
    assert cookie[0] == 0x21 && cookie[1] == 0x12 && cookie[2] == 0xA4 && cookie[3] == 0x42;
    assert FromBe32(cookie) == MAGIC_COOKIE;
  }

  /** Exactly when a datagram is a Binding request under an id. */
  lemma RequestIff(datagram: Bytes, txid: TransactionId)
    ensures ParseBindingRequest(datagram) == Ok(txid)
       <==> exists n: u16 :: Headed(datagram, 0x0001, n, txid) && |datagram| >= 20 + n
  {
    hide Headed, FromBe16, FromBe32;
    if |datagram| >= 20 {
      HeadedIff(datagram, 0x0001, LengthOf(datagram), txid);
    }
    forall n: u16 | Headed(datagram, 0x0001, n, txid)
      ensures |datagram| >= 20 && TypeOf(datagram) == 0x0001 && LengthOf(datagram) == n
              && CookieOf(datagram) == MAGIC_COOKIE && TxidOf(datagram) == txid
    {
      HeadedIff(datagram, 0x0001, n, txid);
    }
  }

  /** Each way not to be one, in the order they are noticed. */
  lemma RequestErrors(datagram: Bytes)
    ensures |datagram| < 20 ==> ParseBindingRequest(datagram) == Err(Truncated)
    ensures |datagram| >= 20 && datagram[4..8] != [0x21, 0x12, 0xA4, 0x42] ==>
              ParseBindingRequest(datagram) == Err(BadMagicCookie)
    ensures forall t: u16, n: u16, txid: TransactionId :: Headed(datagram, t, n, txid) ==>
              && (t != 0x0001 ==> ParseBindingRequest(datagram) == Err(UnexpectedType(t)))
              && (t == 0x0001 && |datagram| < 20 + n ==> ParseBindingRequest(datagram) == Err(Truncated))
  {
    hide Headed, FromBe16, FromBe32;
    if |datagram| >= 20 {
      FourBytes(datagram[4..8]);
    }
    forall t: u16, n: u16, txid: TransactionId | Headed(datagram, t, n, txid)
      ensures |datagram| >= 20 && TypeOf(datagram) == t && LengthOf(datagram) == n
              && CookieOf(datagram) == MAGIC_COOKIE && TxidOf(datagram) == txid
    {
      HeadedIff(datagram, t, n, txid);
    }
  }
}
