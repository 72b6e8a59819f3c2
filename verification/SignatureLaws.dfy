/**
 What signing and checking do to single octets, by the packet codes of section 3 of RFC 2865 and section 3
 of RFC 2866 (radius.c): 1 Access-Request, 2 Access-Accept, 3 Access-Reject, 4 Accounting-Request,
 5 Accounting-Response, 11 Access-Challenge, 12 Status-Server, 40 Disconnect-Request.
 */
module SignatureLaws {
  import opened Octets
  import opened Signature
  import opened Agreement

  // ---------------------------------------------------------------- the sender

  /** The text under a Message-Authenticator, octet by octet: its value is blank, and in codes 2, 3 and 11
      the request's authenticator stands in octets 4 to 19. */
  lemma MacTextOctets(code: int, original: Option<Digest>, data: seq<byte>, at: nat, i: nat)
    requires 20 <= at && at + 18 <= |data| && i < |data|
    ensures var t := MacText(code, original, data, at);
            && |t| == |data|
            && t[i] == if at + 2 <= i < at + 18 then 0
                       else if 4 <= i < 20 && code in {2, 3, 11} && original.Some? then original.value[i - 4]
                       else data[i]
  {
  }

  /** A packet without Message-Authenticator is signed in octets 4 to 19 only, and not at all in codes 1
      and 12. */
  lemma SignPlain(cr: Crypto, code: int, vector: Digest, original: Option<Digest>, secret: seq<byte>, data: seq<byte>)
    requires 20 <= |data|
    ensures Sign(cr, code, vector, original, secret, data, 0)
         == if code == 1 || code == 12 then data else data[..4] + cr.md5(data + secret) + data[20..]
  {
  }

  /** The packet with a Message-Authenticator `m` at `at` and the sender's vector. */
  function Filled(data: seq<byte>, vector: Digest, at: nat, m: Digest): (r: seq<byte>)
    requires 20 <= at && at + 18 <= |data|
    ensures |r| == |data|
  {
    data[..4] + vector + data[20..at + 2] + m + data[at + 18..]
  }

  lemma FilledIsForm(data: seq<byte>, vector: Digest, at: nat, m: Digest)
    requires 20 <= at && at + 18 <= |data|
    ensures Form(data, vector, at, m) == Filled(data, vector, at, m)
  {
  }

  lemma FilledVector(data: seq<byte>, vector: Digest, v: Digest, at: nat, m: Digest)
    requires 20 <= at && at + 18 <= |data|
    ensures WithVector(Filled(data, vector, at, m), v) == Filled(data, v, at, m)
  {
  }

  /** With one, the keyed digest of that text fills it, and outside codes 1 and 12 the digest over the whole
      packet with the sender's vector, and the secret, stands in octets 4 to 19. */
  lemma SignFilled(cr: Crypto, code: int, vector: Digest, original: Option<Digest>, secret: seq<byte>,
                   data: seq<byte>, at: nat)
    requires 20 <= at && at + 18 <= |data|
    ensures var m := cr.hmac(secret, MacText(code, original, data, at));
            Sign(cr, code, vector, original, secret, data, at)
            == Filled(data, if code == 1 || code == 12 then vector
                            else cr.md5(Filled(data, vector, at, m) + secret), at, m)
  {
    SignForm(cr, code, vector, original, secret, data, at);
    var m := cr.hmac(secret, MacText(code, original, data, at));
    FilledIsForm(data, vector, at, m);
    FilledIsForm(data, if code == 1 || code == 12 then vector else cr.md5(Filled(data, vector, at, m) + secret), at, m);
  }

  /** The vector rad_send starts from is blank in codes 4 and 40. */
  lemma FirstVectorIs(code: int, vector: Digest)
    ensures FirstVector(code, vector) == if code == 4 || code == 40 then Zeros(16) else vector
  {
  }

  /** Whatever the code, unless it is 1 or 12, a reply that was sent with the vector of its request has a
      Response Authenticator that checks. */
  lemma ReplyAuthenticator(cr: Crypto, code: int, v: Digest, secret: seq<byte>, data: seq<byte>, at: nat)
    requires code != 1 && code != 12
    requires 20 <= |data| && (at != 0 ==> MacInside(data, at)) && VectorOf(data) == v
    ensures ReplyVerdict(cr.md5, Sign(cr, code, v, Some(v), secret, data, at), Some(v), secret) == 0
  {
    ReplyVerifies(cr, code, v, secret, data, at);
  }

  // ---------------------------------------------------------------- the receiver

  /** The packet with another vector in octets 4 to 19. */
  function Revectored(data: seq<byte>, v: Digest): (r: seq<byte>)
    requires 20 <= |data|
    ensures |r| == |data|
  {
    data[..4] + v + data[20..]
  }

  /** Which packets pass, by code and octets. */
  lemma AuthenticatorExactly(md5: Hash, code: int, data: seq<byte>, original: Option<Digest>, secret: seq<byte>)
    requires 20 <= |data|
    ensures code == 4 ==>
              (AuthenticatorPasses(md5, code, data, original, secret)
               <==> data[4..20] == Zeros(16) || md5(Revectored(data, Zeros(16)) + secret) == data[4..20])
    ensures code in {2, 3, 5} ==>
              (AuthenticatorPasses(md5, code, data, original, secret)
               <==> original.Some? && md5(Revectored(data, original.value) + secret) == data[4..20])
    ensures code !in {2, 3, 4, 5} ==> AuthenticatorPasses(md5, code, data, original, secret)
  {
    assert WithVector(data, Zeros(16)) == Revectored(data, Zeros(16));
    if original.Some? {
      assert WithVector(data, original.value) == Revectored(data, original.value);
    }
  }

  /** The numbers behind that: 0 is right, 1 blank, 2 wrong, 3 without a request. */
  lemma VerdictsAre(md5: Hash, data: seq<byte>, original: Digest, secret: seq<byte>)
    requires 20 <= |data|
    ensures AcctVerdict(md5, data, secret)
         == if data[4..20] == Zeros(16) then 1
            else if md5(Revectored(data, Zeros(16)) + secret) == data[4..20] then 0 else 2
    ensures ReplyVerdict(md5, data, Some(original), secret)
         == if md5(Revectored(data, original) + secret) == data[4..20] then 0 else 2
    ensures ReplyVerdict(md5, data, None, secret) == 3
  {
    assert WithVector(data, Zeros(16)) == Revectored(data, Zeros(16));
    assert WithVector(data, original) == Revectored(data, original);
  }

  /** An Accounting-Request passes under every digest exactly if its authenticator is blank. */
  lemma AcctPassesExactly(data: seq<byte>, original: Option<Digest>, secret: seq<byte>)
    requires 20 <= |data|
    ensures (forall md5: Hash :: AuthenticatorPasses(md5, 4, data, original, secret)) <==> data[4..20] == Zeros(16)
  {
    if data[4..20] != Zeros(16) {
      var md5: Hash := x => Zeros(16);
      AuthenticatorExactly(md5, 4, data, original, secret);
      assert !AuthenticatorPasses(md5, 4, data, original, secret);
    } else {
      forall md5: Hash ensures AuthenticatorPasses(md5, 4, data, original, secret) {
        AuthenticatorExactly(md5, 4, data, original, secret);
      }
    }
  }

  /** A digest that differs from the authenticator in a single octet, at any place, is refused: in an
      Accounting-Request that is not blank ... */
  lemma AcctOctetOff(md5: Hash, data: seq<byte>, original: Option<Digest>, secret: seq<byte>, i: nat, b: byte)
    requires 20 <= |data| && data[4..20] != Zeros(16) && i < 16 && b != data[4 + i]
    requires md5(Revectored(data, Zeros(16)) + secret) == data[4..20][i := b]
    ensures !AuthenticatorPasses(md5, 4, data, original, secret)
  {
    AuthenticatorExactly(md5, 4, data, original, secret);
    assert data[4..20][i := b][i] != data[4..20][i];
  }

  /** ... and in an Accept, a Reject and an Accounting-Response. */
  lemma ReplyOctetOff(md5: Hash, code: int, data: seq<byte>, original: Digest, secret: seq<byte>, i: nat, b: byte)
    requires code in {2, 3, 5} && 20 <= |data| && i < 16 && b != data[4 + i]
    requires md5(Revectored(data, original) + secret) == data[4..20][i := b]
    ensures !AuthenticatorPasses(md5, code, data, Some(original), secret)
  {
    AuthenticatorExactly(md5, code, data, Some(original), secret);
    assert data[4..20][i := b][i] != data[4..20][i];
  }

  /** A Message-Authenticator that differs from the keyed digest in a single octet is found wrong. */
  lemma MacOctetOff(cr: Crypto, code: int, original: Option<Digest>, secret: seq<byte>, data: seq<byte>, at: nat,
                    i: nat, b: byte)
    requires 20 <= at && at + 18 <= |data| && i < 16 && b != data[at + 2 + i]
    requires cr.hmac(secret, MacText(code, original, data, at)) == data[at + 2..at + 18][i := b]
    ensures !MacOk(cr, code, original, secret, data, at)
  {
    assert data[at + 2..at + 18][i := b][i] != data[at + 2..at + 18][i];
  }
}
