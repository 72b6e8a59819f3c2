/**
 Sender and receiver agree on signatures: what rad_send puts into a packet is what rad_decode
 expects at the other end, and exactly when it is not.
 */
module Agreement {
  import opened Octets
  import opened Wire
  import opened Packet
  import opened Signature

  // ---------------------------------------------------------------- what is authenticated

  /** The signed packet is the serialised one with a new Message-Authenticator and a new vector. */
  lemma SignForm(cr: Crypto, code: int, vector: Digest, original: Option<Digest>, secret: seq<byte>, data: seq<byte>,
                 at: nat)
    requires HEADER_LEN <= |data| && at != 0 && MacInside(data, at)
    ensures var text := Form(data, TextVector(code, original, VectorOf(data)), at, Zeros(16));
            var m := cr.hmac(secret, text);
            && MacText(code, original, data, at) == text
            && WithMac(cr, code, vector, original, secret, data, at) == Form(data, vector, at, m)
            && Sign(cr, code, vector, original, secret, data, at)
               == Form(data, if Unsigned(code) then vector else cr.md5(Form(data, vector, at, m) + secret), at, m)
  {
    AsForm(data, at);
    var v := TextVector(code, original, VectorOf(data));
    MacTextForm(code, original, data, VectorOf(data), at, data[at + 2..at + 18]);
    var text := Form(data, v, at, Zeros(16));
    assert MacText(code, original, data, at) == text;
    var m := cr.hmac(secret, text);
    FormWithMac(data, v, at, Zeros(16), m);
    FormWithVector(data, v, at, m, vector);
    if !Unsigned(code) {
      FormWithVector(data, vector, at, m, cr.md5(Form(data, vector, at, m) + secret));
    }
  }

  /** The receiver authenticates the text the sender authenticated exactly when the reply covers the
      request's vector and both ends know it, or signing left the vector of the packet as it was. */
  lemma SameMacText(cr: Crypto, code: int, vector: Digest, original: Option<Digest>, secret: seq<byte>,
                    data: seq<byte>, at: nat)
    requires HEADER_LEN <= |data| && at != 0 && MacInside(data, at)
    ensures var signed := Sign(cr, code, vector, original, secret, data, at);
            MacText(code, original, signed, at) == MacText(code, original, data, at) <==>
              (CoversRequest(code) && original.Some?) || VectorOf(signed) == VectorOf(data)
  {
    SignForm(cr, code, vector, original, secret, data, at);
    var text := Form(data, TextVector(code, original, VectorOf(data)), at, Zeros(16));
    var m := cr.hmac(secret, text);
    var w := if Unsigned(code) then vector else cr.md5(Form(data, vector, at, m) + secret);
    VectorOfForm(data, w, at, m);
    MacTextForm(code, original, data, w, at, m);
    VectorOfForm(data, TextVector(code, original, w), at, Zeros(16));
    VectorOfForm(data, TextVector(code, original, VectorOf(data)), at, Zeros(16));
  }

  /** The two fields of a signed packet. */
  lemma SignedFields(cr: Crypto, code: int, vector: Digest, original: Option<Digest>, secret: seq<byte>,
                     data: seq<byte>, at: nat)
    requires HEADER_LEN <= |data| && at != 0 && MacInside(data, at)
    ensures var signed := Sign(cr, code, vector, original, secret, data, at);
            var m := cr.hmac(secret, MacText(code, original, data, at));
            && signed[at + 2..at + 18] == m
            && VectorOf(signed) == if Unsigned(code) then vector else cr.md5(Form(data, vector, at, m) + secret)
  {
    SignForm(cr, code, vector, original, secret, data, at);
    var m := cr.hmac(secret, MacText(code, original, data, at));
    VectorOfForm(data, if Unsigned(code) then vector else cr.md5(Form(data, vector, at, m) + secret), at, m);
  }

  /** The receiver finds the Message-Authenticator of a signed packet right. */
  predicate MacAgrees(cr: Crypto, code: int, vector: Digest, original: Option<Digest>, secret: seq<byte>,
                      data: seq<byte>, at: nat)
    requires HEADER_LEN <= |data| && at != 0 && MacInside(data, at)
  {
    MacOk(cr, code, original, secret, Sign(cr, code, vector, original, secret, data, at), at)
  }

  /** The codes whose Message-Authenticator both ends compute over the same text. */
  predicate MacCovered(code: int, original: Option<Digest>)
  {
    (CoversRequest(code) && original.Some?) || Unsigned(code)
  }

  lemma MacVerifies(cr: Crypto, code: int, vector: Digest, original: Option<Digest>, secret: seq<byte>,
                    data: seq<byte>, at: nat)
    requires HEADER_LEN <= |data| && at != 0 && MacInside(data, at) && VectorOf(data) == FirstVector(code, vector)
    requires MacCovered(code, original)
    ensures MacAgrees(cr, code, vector, original, secret, data, at)
  {
    SignedFields(cr, code, vector, original, secret, data, at);
    SameMacText(cr, code, vector, original, secret, data, at);
  }

  /** For the other codes, whenever the digest is not what the vector was, there is a keyed digest
      under which the check fails. */
  lemma MacCounterexample(md5: Hash, w: Digest, code: int, vector: Digest, original: Option<Digest>,
                          secret: seq<byte>, data: seq<byte>, at: nat)
    returns (hmac: (seq<byte>, seq<byte>) -> Digest)
    requires HEADER_LEN <= |data| && at != 0 && MacInside(data, at) && !MacCovered(code, original)
    requires w != VectorOf(data) && forall x :: md5(x) == w
    ensures !MacAgrees(Crypto(md5, hmac), code, vector, original, secret, data, at)
  {
    var one: Digest := [1] + Zeros(15);
    var text := MacText(code, original, data, at);
    hmac := (k, x) => if x == text then one else Zeros(16);
    var cr := Crypto(md5, hmac);
    SignedFields(cr, code, vector, original, secret, data, at);
    SameMacText(cr, code, vector, original, secret, data, at);
    assert one[0] != Zeros(16)[0];
  }

  /** The receiver finds the Message-Authenticator right under every digest and every keyed digest
      exactly for Access-Request and Status-Server, and for Accept, Reject and Challenge checked with
      their request. */
  lemma MacVerifiesExactly(code: int, vector: Digest, original: Option<Digest>, secret: seq<byte>, data: seq<byte>,
                           at: nat)
    requires HEADER_LEN <= |data| && at != 0 && MacInside(data, at) && VectorOf(data) == FirstVector(code, vector)
    ensures (forall cr: Crypto :: MacAgrees(cr, code, vector, original, secret, data, at))
            <==> MacCovered(code, original)
  {
    if MacCovered(code, original) {
      forall cr: Crypto ensures MacAgrees(cr, code, vector, original, secret, data, at) {
        MacVerifies(cr, code, vector, original, secret, data, at);
      }
    } else {
      var one: Digest := [1] + Zeros(15);
      assert one[0] != Zeros(16)[0];
      var w := if VectorOf(data) == one then Zeros(16) else one;
      var hmac := MacCounterexample(x => w, w, code, vector, original, secret, data, at);
    }
  }

  // ---------------------------------------------------------------- authenticators

  /** The packet the digest is computed over. */
  function Digested(cr: Crypto, code: int, vector: Digest, original: Option<Digest>, secret: seq<byte>,
                    data: seq<byte>, at: nat): (d: seq<byte>)
    requires HEADER_LEN <= |data| && (at != 0 ==> MacInside(data, at))
    ensures |d| == |data|
  {
    if at != 0 then WithMac(cr, code, vector, original, secret, data, at) else data
  }

  lemma VectorReplaced(data: seq<byte>, v: Digest, v': Digest)
    requires HEADER_LEN <= |data|
    ensures VectorOf(WithVector(data, v)) == v
    ensures WithVector(WithVector(data, v), v') == WithVector(data, v')
    ensures VectorOf(data) == v ==> WithVector(data, v) == data
  {
    SpliceAgain(data, VECTOR_AT, v, v');
    SpliceBack(data, VECTOR_AT, 16);
  }

  lemma DigestedVector(cr: Crypto, code: int, vector: Digest, original: Option<Digest>, secret: seq<byte>,
                       data: seq<byte>, at: nat)
    requires HEADER_LEN <= |data| && (at != 0 ==> MacInside(data, at))
    ensures VectorOf(Digested(cr, code, vector, original, secret, data, at))
         == if at != 0 then vector else VectorOf(data)
  {
    if at != 0 {
      SignForm(cr, code, vector, original, secret, data, at);
      VectorOfForm(data, vector, at, cr.hmac(secret, MacText(code, original, data, at)));
    }
  }

  /** The Response Authenticator of a signed packet whose vector was the request's vector is right, with or
      without a Message-Authenticator. */
  lemma ReplyVerifies(cr: Crypto, code: int, vector: Digest, secret: seq<byte>, data: seq<byte>, at: nat)
    requires !Unsigned(code)
    requires HEADER_LEN <= |data| && (at != 0 ==> MacInside(data, at)) && VectorOf(data) == vector
    ensures ReplyVerdict(cr.md5, Sign(cr, code, vector, Some(vector), secret, data, at), Some(vector), secret) == 0
  {
    var d := Digested(cr, code, vector, Some(vector), secret, data, at);
    DigestedVector(cr, code, vector, Some(vector), secret, data, at);
    VectorReplaced(d, cr.md5(d + secret), vector);
    VectorReplaced(d, vector, vector);
  }

  predicate AnswersRequest(code: int)
  {
    code == ACCESS_ACCEPT || code == ACCESS_REJECT || code == ACCOUNTING_RESPONSE
  }

  predicate ReplySigned(cr: Crypto, code: int, vector: Digest, original: Option<Digest>, secret: seq<byte>,
                        data: seq<byte>, at: nat)
    requires HEADER_LEN <= |data| && (at != 0 ==> MacInside(data, at))
  {
    ReplyVerdict(cr.md5, Sign(cr, code, vector, original, secret, data, at), original, secret) <= 1
  }

  /** The Response Authenticator is found right under every digest exactly when the reply is checked
      against the vector it was sent with. */
  lemma ReplyVerifiesExactly(hmac: (seq<byte>, seq<byte>) -> Digest, code: int, vector: Digest,
                             original: Option<Digest>, secret: seq<byte>, data: seq<byte>, at: nat)
    requires AnswersRequest(code)
    requires HEADER_LEN <= |data| && (at != 0 ==> MacInside(data, at)) && VectorOf(data) == vector
    ensures (forall md5: Hash :: ReplySigned(Crypto(md5, hmac), code, vector, original, secret, data, at))
            <==> original == Some(vector)
  {
    if original == Some(vector) {
      forall md5: Hash ensures ReplySigned(Crypto(md5, hmac), code, vector, original, secret, data, at) {
        ReplyVerifies(Crypto(md5, hmac), code, vector, secret, data, at);
      }
    } else {
      ReplyCounterexample(hmac, code, vector, original, secret, data, at);
    }
  }

  /** A digest function that looks at the vector of a packet only. */
  function Telling(vector: Digest): (md5: Hash)
  {
    x => if HEADER_LEN <= |x| && VectorOf(x) == vector then [1] + Zeros(15) else Zeros(16)
  }

  lemma Told(vector: Digest, data: seq<byte>, secret: seq<byte>)
    requires HEADER_LEN <= |data|
    ensures Telling(vector)(data + secret)[0] == if VectorOf(data) == vector then 1 else 0
  {
    assert VectorOf(data + secret) == VectorOf(data);
  }

  lemma ReplyCounterexample(hmac: (seq<byte>, seq<byte>) -> Digest, code: int, vector: Digest, original: Option<Digest>,
                            secret: seq<byte>, data: seq<byte>, at: nat)
    requires AnswersRequest(code)
    requires HEADER_LEN <= |data| && (at != 0 ==> MacInside(data, at)) && VectorOf(data) == vector
    requires original != Some(vector)
    ensures !ReplySigned(Crypto(Telling(vector), hmac), code, vector, original, secret, data, at)
  {
    var cr := Crypto(Telling(vector), hmac);
    var d := Digested(cr, code, vector, original, secret, data, at);
    DigestedVector(cr, code, vector, original, secret, data, at);
    Told(vector, d, secret);
    var one := cr.md5(d + secret);
    VectorReplaced(d, one, Zeros(16));
    if original.Some? {
      VectorReplaced(d, one, original.value);
      VectorReplaced(d, original.value, vector);
      Told(vector, WithVector(d, original.value), secret);
    }
  }

  /** The text calc_acctdigest digests is the text rad_send digested exactly when the packet has no
      Message-Authenticator or was sent from a packet with a blank vector. */
  lemma AcctSameText(cr: Crypto, vector: Digest, original: Option<Digest>, secret: seq<byte>, data: seq<byte>, at: nat)
    requires HEADER_LEN <= |data| && (at != 0 ==> MacInside(data, at)) && VectorOf(data) == Zeros(16)
    ensures var d := Digested(cr, ACCOUNTING_REQUEST, vector, original, secret, data, at);
            (WithVector(Sign(cr, ACCOUNTING_REQUEST, vector, original, secret, data, at), Zeros(16)) == d)
            <==> (at == 0 || vector == Zeros(16))
  {
    var d := Digested(cr, ACCOUNTING_REQUEST, vector, original, secret, data, at);
    DigestedVector(cr, ACCOUNTING_REQUEST, vector, original, secret, data, at);
    VectorReplaced(d, cr.md5(d + secret), Zeros(16));
    VectorReplaced(d, Zeros(16), Zeros(16));
  }

  /** An Accounting-Request verifies whatever the digest function is, exactly in that case: otherwise
      some digest function tells the two texts apart. */
  lemma AcctVerifiesExactly(hmac: (seq<byte>, seq<byte>) -> Digest, vector: Digest, original: Option<Digest>,
                            secret: seq<byte>, data: seq<byte>, at: nat)
    requires HEADER_LEN <= |data| && (at != 0 ==> MacInside(data, at)) && VectorOf(data) == Zeros(16)
    ensures (forall md5: Hash :: AcctSigned(Crypto(md5, hmac), vector, original, secret, data, at))
            <==> (at == 0 || vector == Zeros(16))
  {
    if at == 0 || vector == Zeros(16) {
      forall md5: Hash ensures AcctSigned(Crypto(md5, hmac), vector, original, secret, data, at) {
        var cr := Crypto(md5, hmac);
        AcctSameText(cr, vector, original, secret, data, at);
        var d := Digested(cr, ACCOUNTING_REQUEST, vector, original, secret, data, at);
        VectorReplaced(d, md5(d + secret), Zeros(16));
      }
    } else {
      AcctCounterexample(hmac, vector, original, secret, data, at);
    }
  }

  predicate AcctSigned(cr: Crypto, vector: Digest, original: Option<Digest>, secret: seq<byte>, data: seq<byte>,
                       at: nat)
    requires HEADER_LEN <= |data| && (at != 0 ==> MacInside(data, at))
  {
    AcctVerdict(cr.md5, Sign(cr, ACCOUNTING_REQUEST, vector, original, secret, data, at), secret) <= 1
  }

  lemma SameTail(a: seq<byte>, b: seq<byte>, tail: seq<byte>)
    requires |a| == |b|
    ensures a + tail == b + tail <==> a == b
  {
    assert (a + tail)[..|a|] == a && (b + tail)[..|b|] == b;
  }

  lemma AcctCounterexample(hmac: (seq<byte>, seq<byte>) -> Digest, vector: Digest, original: Option<Digest>,
                           secret: seq<byte>, data: seq<byte>, at: nat)
    requires HEADER_LEN <= |data| && at != 0 && MacInside(data, at) && VectorOf(data) == Zeros(16)
    requires vector != Zeros(16)
    ensures exists md5: Hash :: !AcctSigned(Crypto(md5, hmac), vector, original, secret, data, at)
  {
    var text := MacText(ACCOUNTING_REQUEST, original, data, at);
    var d := WithVector(Splice(text, at + 2, hmac(secret, text)), vector);
    var one: Digest := [1] + Zeros(15);
    var md5: Hash := x => if x == d + secret then one else Zeros(16);
    var cr := Crypto(md5, hmac);
    assert d == Digested(cr, ACCOUNTING_REQUEST, vector, original, secret, data, at);
    AcctSameText(cr, vector, original, secret, data, at);
    VectorReplaced(d, one, Zeros(16));
    var blank := WithVector(d, Zeros(16));
    assert blank != d;
    SameTail(blank, d, secret);
    assert one[0] != Zeros(16)[0];
    assert !AcctSigned(cr, vector, original, secret, data, at);
  }
}
