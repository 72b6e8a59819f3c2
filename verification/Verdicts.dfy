/**
 What rad_decode finds when it checks a packet that rad_send produced (radius.c).
 */
module Verdicts {
  import opened Octets
  import opened Wire
  import opened Packet
  import opened Attributes
  import opened Send
  import opened Signature
  import opened Agreement
  import opened Transmit

  /** Lists whose packet rad_decode can walk over. */
  predicate Checkable(c: Context, vps: seq<Pair>)
  {
    Signable(c, vps) && AllFit(c, vps) && AllNumberable(c, vps)
  }

  /** The receiver meets the Message-Authenticators of a sent packet where rad_send put them. */
  lemma MacsOfSent(cr: Crypto, c: Context, code: byte, id: byte, original: Option<Digest>, vps: seq<Pair>)
    requires Checkable(c, vps)
    ensures var sent := Sent(cr, c, code, id, original, vps);
            Walkable(sent) && MacsOf(sent) == Offsets(Attrs(c, vps), HEADER_LEN)
  {
    var m := FinalMac(cr, c, code, id, original, vps);
    NumberableMacs(c, vps);
    SentBody(cr, c, code, id, original, vps);
    ItemsOfFlat(SetLastMac(Attrs(c, vps), m));
    StampedReadsBack(c, m, vps);
    MacsOnWire(c, vps);
    OffsetsSetLastMac(Attrs(c, vps), m, HEADER_LEN);
  }

  /** How many there are, and that the only one is the one rad_send recorded. */
  lemma MacsCounted(c: Context, vps: seq<Pair>)
    requires AllFit(c, vps) && PlainMacs(vps)
    ensures |Offsets(Attrs(c, vps), HEADER_LEN)| == MacCount(vps)
    ensures MacCount(vps) == 1 ==> Offsets(Attrs(c, vps), HEADER_LEN) == [MacOffset(c, vps, HEADER_LEN, 0)]
  {
    OffsetsCount(c, vps, HEADER_LEN);
    MacOffsetIsLast(c, vps, HEADER_LEN, 0);
  }

  lemma FirstMacInside(sent: seq<byte>, attrs: seq<Attr>, m: Digest)
    requires HEADER_LEN <= |sent| && sent[HEADER_LEN..] == Flat(SetLastMac(attrs, m))
    requires MacsFull(attrs) && |Offsets(attrs, HEADER_LEN)| > 1
    ensures HasMac(attrs)
    ensures var at := Offsets(attrs, HEADER_LEN)[0];
            MacInside(sent, at) && sent[at + 2..at + 18] == FirstMac(attrs).body
  {
    FirstMacStays(attrs, m, HEADER_LEN);
    FullStays(attrs, m);
    OffsetsSetLastMac(attrs, m, HEADER_LEN);
    OffsetsInside(SetLastMac(attrs, m), HEADER_LEN);
    FirstMacAt(sent, HEADER_LEN, SetLastMac(attrs, m));
  }

  /** Of several Message-Authenticators the first one is sent as zeros. */
  lemma FirstMacIsBlank(cr: Crypto, c: Context, code: byte, id: byte, original: Option<Digest>, vps: seq<Pair>)
    requires Checkable(c, vps) && MacCount(vps) > 1
    ensures var sent := Sent(cr, c, code, id, original, vps);
            && Walkable(sent) && MacsOf(sent) != []
            && var at := MacsOf(sent)[0]; MacInside(sent, at) && sent[at + 2..at + 18] == Zeros(16)
  {
    MacsOfSent(cr, c, code, id, original, vps);
    NumberableMacs(c, vps);
    MacsCounted(c, vps);
    MacsOnWire(c, vps);
    SentBody(cr, c, code, id, original, vps);
    FirstMacInside(Sent(cr, c, code, id, original, vps), Attrs(c, vps), FinalMac(cr, c, code, id, original, vps));
    FirstMacOf(c, vps);
  }

  lemma {:induction false} FullStays(attrs: seq<Attr>, m: Digest)
    requires MacsFull(attrs)
    ensures MacsFull(SetLastMac(attrs, m))
  {
    if attrs != [] {
      FullStays(attrs[1..], m);
      var r := SetLastMac(attrs, m);
      if attrs[0].typ == MESSAGE_AUTHENTICATOR && !HasMac(attrs[1..]) {
        assert r[1..] == attrs[1..];
      } else {
        assert r[1..] == SetLastMac(attrs[1..], m);
      }
    }
  }

  lemma {:induction false} FirstMacOf(c: Context, vps: seq<Pair>)
    requires AllFit(c, vps) && PlainMacs(vps) && HasMac(Attrs(c, vps))
    ensures FirstMac(Attrs(c, vps)).body == c.mac
  {
    if OnWire(vps[0]) {
      ToAttrIs(c, vps[0]);
      assert Attrs(c, vps)[0] == ToAttr(c, vps[0]) && Attrs(c, vps)[1..] == Attrs(c, vps[1..]);
      if IsMac(vps[0]) {
        PayloadOfMac(c, vps[0]);
      } else {
        FirstMacOf(c, vps[1..]);
      }
    } else {
      FirstMacOf(c, vps[1..]);
    }
  }

  predicate AllTrue(checks: seq<bool>)
  {
    forall i :: 0 <= i < |checks| ==> checks[i]
  }

  /** Every check the receiver makes on what rad_send produced succeeds. */
  predicate ChecksPass(cr: Crypto, c: Context, code: byte, id: byte, original: Option<Digest>, vps: seq<Pair>)
    requires Signable(c, vps)
  {
    var sent := Sent(cr, c, code, id, original, vps);
    && Walkable(sent)
    && AllTrue(VerdictsAt(cr, code, original, c.secret, sent, MacsOf(sent)))
    && AuthenticatorPasses(cr.md5, code, sent, original, c.secret)
  }

  /** The packets whose checks are meant to succeed: at most one Message-Authenticator, in a packet
      where both ends compute it over the same text, and a reply that is checked against the vector of
      the request it answers. */
  predicate Verifiable(code: byte, vector: Digest, original: Option<Digest>, macs: nat)
  {
    && (macs == 0 || (macs == 1 && MacCovered(code, original)))
    && (AnswersRequest(code) ==> original == Some(vector))
  }

  /** By the codes: 2, 3 and 11 with their request, 1 and 12 without, for a Message-Authenticator; 2, 3 and 5
      for the Response Authenticator. */
  lemma VerifiableMeans(code: byte, vector: Digest, original: Option<Digest>, macs: nat)
    ensures Verifiable(code, vector, original, macs)
            <==> && (macs == 0 || (macs == 1 && (code in {1, 12} || (code in {2, 3, 11} && original.Some?))))
                 && (code in {2, 3, 5} ==> original == Some(vector))
  {
  }

  lemma ReceiverAgrees(cr: Crypto, c: Context, code: byte, id: byte, original: Option<Digest>, vps: seq<Pair>)
    requires Checkable(c, vps) && Verifiable(code, c.vector, original, MacCount(vps))
    ensures ChecksPass(cr, c, code, id, original, vps)
  {
    MacsOfSent(cr, c, code, id, original, vps);
    NumberableMacs(c, vps);
    MacsCounted(c, vps);
    MacInsideSerialised(c, code, id, vps);
    var data, at := Serialised(c, code, id, vps), MacOffset(c, vps, HEADER_LEN, 0);
    if MacCount(vps) == 1 {
      MacVerifies(cr, code, c.vector, original, c.secret, data, at);
    }
    if AnswersRequest(code) {
      ReplyVerifies(cr, code, c.vector, c.secret, data, at);
    } else if code == ACCOUNTING_REQUEST {
      AcctVerifies(cr, c.vector, original, c.secret, data);
    }
  }

  lemma AcctVerifies(cr: Crypto, vector: Digest, original: Option<Digest>, secret: seq<byte>, data: seq<byte>)
    requires HEADER_LEN <= |data| && VectorOf(data) == Zeros(16)
    ensures AcctSigned(cr, vector, original, secret, data, 0)
  {
    AcctVerifiesExactly(cr.hmac, vector, original, secret, data, 0);
    assert Crypto(cr.md5, cr.hmac) == cr;
  }

  /** The checks succeed when both ends use these digests, for hiding passwords too. */
  predicate ChecksPassWith(cr: Crypto, c: Context, code: byte, id: byte, original: Option<Digest>, vps: seq<Pair>)
  {
    Checkable(With(c, cr.md5), vps) && ChecksPass(cr, With(c, cr.md5), code, id, original, vps)
  }

  /** Two Message-Authenticators never verify under a keyed digest that is not zero. */
  lemma SecondMacFails(cr: Crypto, c: Context, code: byte, id: byte, original: Option<Digest>, vps: seq<Pair>)
    requires Checkable(c, vps) && MacCount(vps) > 1
    requires forall k, x :: cr.hmac(k, x) != Zeros(16)
    ensures !ChecksPass(cr, c, code, id, original, vps)
  {
    FirstMacIsBlank(cr, c, code, id, original, vps);
    var sent := Sent(cr, c, code, id, original, vps);
    assert !VerdictsAt(cr, code, original, c.secret, sent, MacsOf(sent))[0];
  }

  /** One Message-Authenticator that the receiver computes over another text fails under some digests. */
  lemma OneMacFails(c: Context, code: byte, id: byte, original: Option<Digest>, vps: seq<Pair>) returns (cr: Crypto)
    requires forall md5: Hash :: Checkable(With(c, md5), vps)
    requires MacCount(vps) == 1 && !MacCovered(code, original)
    ensures !ChecksPassWith(cr, c, code, id, original, vps)
  {
    var w: Digest := if FirstVector(code, c.vector) == Zeros(16) then [1] + Zeros(15) else Zeros(16);
    assert ([1] + Zeros(15))[0] != Zeros(16)[0];
    var md5: Hash := x => w;
    var c' := With(c, md5);
    assert Checkable(c', vps);
    MacInsideSerialised(c', code, id, vps);
    var data, at := Serialised(c', code, id, vps), MacOffset(c', vps, HEADER_LEN, 0);
    var hmac := MacCounterexample(md5, w, code, c.vector, original, c.secret, data, at);
    cr := Crypto(md5, hmac);
    MacsOfSent(cr, c', code, id, original, vps);
    NumberableMacs(c', vps);
    MacsCounted(c', vps);
    var sent := Sent(cr, c', code, id, original, vps);
    assert VerdictsAt(cr, code, original, c.secret, sent, MacsOf(sent))[0]
           == MacAgrees(cr, code, c.vector, original, c.secret, data, at);
  }

  /** A reply checked against another vector fails under a digest that tells the two vectors apart. */
  lemma ReplyFails(hmac: (seq<byte>, seq<byte>) -> Digest, c: Context, code: byte, id: byte, original: Option<Digest>,
                   vps: seq<Pair>)
    requires Checkable(c, vps) && c.md5 == Telling(c.vector)
    requires AnswersRequest(code) && original != Some(c.vector)
    ensures !ChecksPass(Crypto(c.md5, hmac), c, code, id, original, vps)
  {
    MacInsideSerialised(c, code, id, vps);
    ReplyCounterexample(hmac, code, c.vector, original, c.secret, Serialised(c, code, id, vps),
                        MacOffset(c, vps, HEADER_LEN, 0));
  }

  /** Every check the receiver makes succeeds, whatever the digest and the keyed digest are, exactly on
      the verifiable packets. */
  lemma ReceiverAgreesExactly(c: Context, code: byte, id: byte, original: Option<Digest>, vps: seq<Pair>)
    requires forall md5: Hash :: Checkable(With(c, md5), vps)
    ensures (forall cr: Crypto :: ChecksPassWith(cr, c, code, id, original, vps))
            <==> Verifiable(code, c.vector, original, MacCount(vps))
  {
    if Verifiable(code, c.vector, original, MacCount(vps)) {
      forall cr: Crypto ensures ChecksPassWith(cr, c, code, id, original, vps) {
        assert Checkable(With(c, cr.md5), vps);
        ReceiverAgrees(cr, With(c, cr.md5), code, id, original, vps);
      }
    } else {
      var cr := SomeCheckFails(c, code, id, original, vps);
    }
  }

  lemma SomeCheckFails(c: Context, code: byte, id: byte, original: Option<Digest>, vps: seq<Pair>) returns (cr: Crypto)
    requires forall md5: Hash :: Checkable(With(c, md5), vps)
    requires !Verifiable(code, c.vector, original, MacCount(vps))
    ensures !ChecksPassWith(cr, c, code, id, original, vps)
  {
    var one: Digest := [1] + Zeros(15);
    assert one[0] != Zeros(16)[0];
    if MacCount(vps) > 1 {
      cr := Crypto(x => one, (k, x) => one);
      assert Checkable(With(c, cr.md5), vps);
      SecondMacFails(cr, With(c, cr.md5), code, id, original, vps);
    } else if MacCount(vps) == 1 && !MacCovered(code, original) {
      cr := OneMacFails(c, code, id, original, vps);
    } else {
      cr := Crypto(Telling(c.vector), (k, x) => one);
      assert Checkable(With(c, cr.md5), vps);
      ReplyFails(cr.hmac, With(c, cr.md5), code, id, original, vps);
    }
  }
}
