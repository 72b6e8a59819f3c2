/**
 Whether a list of pairs survives the way from rad_send through the wire and rad_decode (radius.c).
 The receiver uncovers passwords with the vector of its own request, or with the one in the packet.
 */
module Survival {
  import opened Octets
  import opened Wire
  import opened Packet
  import opened Password
  import opened Attributes
  import opened Send
  import opened Decode
  import opened Signature
  import opened Agreement
  import opened Transmit
  import opened Values

  /** What a receiver uncovers passwords with. */
  function ReceiverKeys(cr: Crypto, secret: seq<byte>, original: Option<Digest>, packet: Digest): (k: Keys)
  {
    Keys(cr.md5, secret, if original.Some? then original.value else packet)
  }

  /** The receiver's list, from the octets it got. */
  function ReceivedList(cr: Crypto, secret: seq<byte>, original: Option<Digest>, sent: seq<byte>,
                        undo: Undo, dict: Dictionary, peek: nat -> byte): (r: Option<seq<Pair>>)
    requires HEADER_LEN <= |sent| && Tiled(sent[HEADER_LEN..])
  {
    DecodeAll(ReceiverKeys(cr, secret, original, VectorOf(sent)), undo, dict, ExpandAll(Items(sent[HEADER_LEN..])),
              peek)
  }

  /** The vector of a sent packet: the sender's own, or a digest over more than secret and vector. */
  lemma VectorOfSent(cr: Crypto, c: Context, code: byte, id: byte, original: Option<Digest>, vps: seq<Pair>)
    requires Signable(c, vps)
    ensures HEADER_LEN <= |Sent(cr, c, code, id, original, vps)|
    ensures Unsigned(code) ==> VectorOf(Sent(cr, c, code, id, original, vps)) == c.vector
    ensures !Unsigned(code) ==>
              exists x :: |x| > 16 + |c.secret| && VectorOf(Sent(cr, c, code, id, original, vps)) == cr.md5(x)
  {
    MacInsideSerialised(c, code, id, vps);
    var data, at := Serialised(c, code, id, vps), MacOffset(c, vps, HEADER_LEN, 0);
    var d := Digested(cr, code, c.vector, original, c.secret, data, at);
    DigestedVector(cr, code, c.vector, original, c.secret, data, at);
    if !Unsigned(code) {
      VectorReplaced(d, cr.md5(d + c.secret), Zeros(16));
      assert |d + c.secret| > 16 + |c.secret|;
    }
  }

  /** A sent packet has the sender's own vector under every digest exactly in codes 1 and 12. */
  lemma KeepsVectorExactly(hmac: (seq<byte>, seq<byte>) -> Digest, c: Context, code: byte, id: byte,
                           original: Option<Digest>, vps: seq<Pair>)
    requires forall md5: Hash :: Signable(With(c, md5), vps)
    ensures (forall md5: Hash :: KeepsVector(Crypto(md5, hmac), c, code, id, original, vps))
            <==> code == 1 || code == 12
  {
    if code == 1 || code == 12 {
      forall md5: Hash ensures KeepsVector(Crypto(md5, hmac), c, code, id, original, vps) {
        assert Signable(With(c, md5), vps);
        VectorOfSent(Crypto(md5, hmac), With(c, md5), code, id, original, vps);
      }
    } else {
      var one: Digest := [1] + Zeros(15);
      assert one[0] != Zeros(16)[0];
      var w := if c.vector == one then Zeros(16) else one;
      var md5: Hash := x => w;
      assert Signable(With(c, md5), vps);
      VectorOfSent(Crypto(md5, hmac), With(c, md5), code, id, original, vps);
      assert !KeepsVector(Crypto(md5, hmac), c, code, id, original, vps);
    }
  }

  predicate KeepsVector(cr: Crypto, c: Context, code: byte, id: byte, original: Option<Digest>, vps: seq<Pair>)
  {
    && Signable(With(c, cr.md5), vps)
    && VectorOf(Sent(cr, With(c, cr.md5), code, id, original, vps)) == c.vector
  }

  /** Both ends use the same vector. */
  predicate SameVector(code: byte, original: Option<Digest>, vector: Digest)
  {
    original == Some(vector) || (original.None? && Unsigned(code))
  }

  /** The receiver ends up with the list the sender meant. */
  predicate Survives(cr: Crypto, c: Context, code: byte, id: byte, original: Option<Digest>, vps: seq<Pair>,
                     undo: Undo, dict: Dictionary, peek: nat -> byte)
    requires Signable(c, vps)
  {
    var sent := Sent(cr, c, code, id, original, vps);
    && Tiled(sent[HEADER_LEN..])
    && ReceivedList(cr, c.secret, original, sent, undo, dict, peek)
       == Some(Meant(c, FinalMac(cr, c, code, id, original, vps), vps))
  }

  lemma ReceivedIs(cr: Crypto, c: Context, code: byte, id: byte, original: Option<Digest>, vps: seq<Pair>,
                   undo: Undo, dict: Dictionary, peek: nat -> byte)
    requires Deliverable(c, code, vps)
    ensures var sent, m := Sent(cr, c, code, id, original, vps), FinalMac(cr, c, code, id, original, vps);
            var k := ReceiverKeys(cr, c.secret, original, VectorOf(sent));
            Survives(cr, c, code, id, original, vps, undo, dict, peek)
            <==> DecodeAll(k, undo, dict, Wired(c, Meant(c, m, vps)), peek) == Some(Meant(c, m, vps))
  {
    WireRoundTrip(cr, c, code, id, original, vps, 0);
    NumberableMacs(c, vps);
    ArrivedIsMeant(c, FinalMac(cr, c, code, id, original, vps), vps);
  }

  /** From one list of pairs, through the packet that rad_send builds and signs and the extraction
      rad_decode makes of it, to the receiver's list: where both ends use the same vector, or nothing is
      hidden with it, the two lists are the same exactly when every pair is representable. */
  lemma PairsSurviveExactly(cr: Crypto, c: Context, code: byte, id: byte, original: Option<Digest>, vps: seq<Pair>,
                            undo: Undo, dict: Dictionary, peek: nat -> byte)
    requires Deliverable(c, code, vps) && AllRegular(dict, vps) && cr.md5 == c.md5
    requires SameVector(code, original, c.vector) || !SendsHidden(vps)
    ensures Survives(cr, c, code, id, original, vps, undo, dict, peek)
            <==> AllRepresentable(c, Meant(c, FinalMac(cr, c, code, id, original, vps), vps), peek)
  {
    var m := FinalMac(cr, c, code, id, original, vps);
    ReceivedIs(cr, c, code, id, original, vps, undo, dict, peek);
    VectorOfSent(cr, c, code, id, original, vps);
    NumberableMacs(c, vps);
    MeantIs(c, m, dict, vps);
    var sent := Sent(cr, c, code, id, original, vps);
    ListRoundTrip(c, ReceiverKeys(cr, c.secret, original, VectorOf(sent)), undo, dict, Meant(c, m, vps), peek);
  }

  /** A receiver whose first digest begins with another octet does not get the sender's list. */
  lemma LostWith(cr: Crypto, c: Context, code: byte, id: byte, original: Option<Digest>, vps: seq<Pair>,
                 undo: Undo, dict: Dictionary, peek: nat -> byte, k: Keys)
    requires Deliverable(c, code, vps) && AllRegular(dict, vps) && SendsHidden(vps) && cr.md5 == c.md5
    requires k == ReceiverKeys(cr, c.secret, original, VectorOf(Sent(cr, c, code, id, original, vps)))
    requires c.md5(c.secret + k.vector)[0] != c.md5(c.secret + c.vector)[0]
    ensures !Survives(cr, c, code, id, original, vps, undo, dict, peek)
  {
    var m := FinalMac(cr, c, code, id, original, vps);
    ReceivedIs(cr, c, code, id, original, vps, undo, dict, peek);
    NumberableMacs(c, vps);
    MeantIs(c, m, dict, vps);
    ListDecodes(c, k, undo, dict, Meant(c, m, vps), peek);
    SomeLost(c, k, undo, dict, Meant(c, m, vps), peek);
  }

  /** A digest function that tells one text from every other. */
  function Apart(text: seq<byte>, vector: Digest): (md5: Hash)
    ensures md5(text)[0] == 1
    ensures forall x :: x != text ==> md5(x)[0] != 1 && md5(x) != vector
  {
    var one: Digest := [1] + Zeros(15);
    var two: Digest := [2] + Zeros(15);
    var w: Digest := if vector == Zeros(16) then two else Zeros(16);
    assert two[0] == 2 && one[0] == 1 && w[0] != 1 && w != vector;
    x => if x == text then one else w
  }

  /** Some digest function tells the two vectors apart and so loses a hidden pair. */
  lemma HiddenPairsAreLost(hmac: (seq<byte>, seq<byte>) -> Digest, c: Context, code: byte, id: byte,
                           original: Option<Digest>, vps: seq<Pair>, undo: Undo, dict: Dictionary, peek: nat -> byte)
    returns (md5: Hash)
    requires forall md5: Hash :: Deliverable(With(c, md5), code, vps)
    requires AllRegular(dict, vps) && SendsHidden(vps) && !SameVector(code, original, c.vector)
    ensures Deliverable(With(c, md5), code, vps)
    ensures !Survives(Crypto(md5, hmac), With(c, md5), code, id, original, vps, undo, dict, peek)
  {
    md5 := Apart(c.secret + c.vector, c.vector);
    var c', cr := With(c, md5), Crypto(md5, hmac);
    assert Deliverable(c', code, vps);
    var k := SeenApart(cr, c', code, id, original, vps);
    LostWith(cr, c', code, id, original, vps, undo, dict, peek, k);
  }

  /** With that digest function the receiver's vector is not the sender's. */
  lemma SeenApart(cr: Crypto, c: Context, code: byte, id: byte, original: Option<Digest>, vps: seq<Pair>)
    returns (k: Keys)
    requires Signable(c, vps) && !SameVector(code, original, c.vector)
    requires cr.md5 == c.md5 == Apart(c.secret + c.vector, c.vector)
    ensures HEADER_LEN <= |Sent(cr, c, code, id, original, vps)|
    ensures k == ReceiverKeys(cr, c.secret, original, VectorOf(Sent(cr, c, code, id, original, vps)))
    ensures c.md5(c.secret + k.vector)[0] != c.md5(c.secret + c.vector)[0]
  {
    VectorOfSent(cr, c, code, id, original, vps);
    k := ReceiverKeys(cr, c.secret, original, VectorOf(Sent(cr, c, code, id, original, vps)));
    assert k.vector != c.vector;
    SecretBefore(c.secret, k.vector, c.vector);
  }

  lemma SecretBefore(secret: seq<byte>, v: seq<byte>, v': seq<byte>)
    ensures secret + v == secret + v' <==> v == v'
  {
    assert (secret + v)[|secret|..] == v && (secret + v')[|secret|..] == v';
  }

  // ---------------------------------------------------------------- representable under every digest

  /** How many pairs travel. */
  function Travelling(vps: seq<Pair>): (n: nat)
  {
    if vps == [] then 0 else (if OnWire(vps[0]) then 1 else 0) + Travelling(vps[1..])
  }

  lemma {:induction false} MeantLength(c: Context, m: Digest, vps: seq<Pair>)
    ensures |Meant(c, m, vps)| == Travelling(vps)
  {
    if vps != [] {
      MeantLength(c, m, vps[1..]);
    }
  }

  /** What the type of the last Message-Authenticator must be for any digest to fit it. */
  predicate AnyDigestFits(p: Pair)
  {
    p.tag == 0 && (p.typ.Ipv6Addr? || (Plainish(p.typ) && !(p.typ.Text? && p.hasTag)))
  }

  /** No digest can spoil the pair, which is the last Message-Authenticator if `last`: a tagged text that
      is hidden has a tag, since its first octet may come out as one. */
  predicate Lasting(p: Pair, last: bool, next: byte)
  {
    if IsMac(p) then if last then AnyDigestFits(p) else Lasts(p.(value := Zeros(16)), next) else Lasts(p, next)
  }

  predicate Lasts(p: Pair, next: byte)
  {
    if Plainish(p.typ) then
      && Restorable(p)
      && (if p.typ.Text? && p.hasTag then p.tag == 0 ==> !Hides(p) && !TagValid((p.value + [next])[0]) else p.tag == 0)
    else if p.typ.Integer? then true
    else !p.typ.Unknown? && p.tag == 0 && Ipv6Shaped(p.typ, p.value)
  }

  predicate AllLasting(vps: seq<Pair>, peek: nat -> byte)
  {
    || vps == []
    || (&& (OnWire(vps[0]) ==> Lasting(vps[0], MacCount(vps[1..]) == 0, peek(Travelling(vps))))
        && AllLasting(vps[1..], peek))
  }

  /** The octet a digest begins with to make a valid tag of the first pair that is not lasting. */
  function Spoiler(vps: seq<Pair>, peek: nat -> byte): (b: byte)
    requires !AllLasting(vps, peek)
  {
    if OnWire(vps[0]) && !Lasting(vps[0], MacCount(vps[1..]) == 0, peek(Travelling(vps)))
    then if vps[0].value == [] then 0 else Xor(vps[0].value[0], 1)
    else Spoiler(vps[1..], peek)
  }

  /** Apart from what is hidden, the octets of a string are its value. */
  lemma PlainIsPrepared(c: Context, p: Pair)
    requires p.encrypt == Encryption(p) && PlainOrUserPassword(p) && !Hides(p) && (IsMac(p) ==> p.value == c.mac)
    ensures Prepared(c, p) == p.value
  {
    NothingHidden(c.md5, c.secret, c.vector);
  }

  lemma HiddenStart(c: Context, p: Pair)
    requires p.encrypt == Encryption(p) && Hides(p) && !IsMac(p)
    ensures Prepared(c, p) != [] && Prepared(c, p)[0] == Xor(p.value[0], c.md5(c.secret + c.vector)[0])
  {
    var plain := ZeroPad(if |p.value| > 128 then p.value[..128] else p.value);
    assert plain[0] == p.value[0];
    FirstOfChain(c.md5, c.secret, c.vector, plain);
  }

  /** One pair that is lasting is representable ... */
  lemma LastsRepresentable(c: Context, dict: Dictionary, p: Pair, next: byte)
    requires Canonical(dict, p) && PlainOrUserPassword(p) && (IsMac(p) ==> p.value == c.mac && !Hides(p))
    requires Lasts(p, next)
    ensures Representable(c, p, next)
  {
    if !Hides(p) {
      PlainIsPrepared(c, p);
    }
  }

  /** ... and one that is not is not, if the digest begins with the right octet. */
  lemma SpoiltPair(c: Context, dict: Dictionary, p: Pair, next: byte)
    requires Canonical(dict, p) && PlainOrUserPassword(p) && (IsMac(p) ==> p.value == c.mac && !Hides(p))
    requires !Lasts(p, next)
    requires Hides(p) ==> c.md5(c.secret + c.vector)[0] == Xor(p.value[0], 1)
    ensures !Representable(c, p, next)
  {
    if Hides(p) && !IsMac(p) {
      HiddenStart(c, p);
      XorCancelsLeft(p.value[0], 1);
      assert TagValid(1);
    } else {
      PlainIsPrepared(c, p);
    }
  }

  lemma XorCancelsLeft(a: byte, b: byte)
    ensures Xor(a, Xor(a, b)) == b
  {
    XorCommutes(a, b);
    XorCommutes(a, Xor(b, a));
    XorCancels(b, a);
  }

  /** What the list holds first, as it is meant. */
  ghost predicate FirstIsRegular(c: Context, dict: Dictionary, vps: seq<Pair>)
  {
    && vps != [] && OnWire(vps[0]) && c.mac == Zeros(16)
    && Canonical(dict, vps[0]) && PlainOrUserPassword(vps[0]) && (IsMac(vps[0]) ==> PlainMac(vps[0]))
  }

  lemma LastingStamped(c: Context, m: Digest, dict: Dictionary, vps: seq<Pair>, next: byte)
    requires FirstIsRegular(c, dict, vps) && Lasting(vps[0], MacCount(vps[1..]) == 0, next)
    ensures var p := Stamped(c, m, vps); Representable(Own(c, p), p, next)
  {
    var p := Stamped(c, m, vps);
    if !IsMac(p) || MacCount(vps[1..]) > 0 {
      LastsRepresentable(Own(c, p), dict, p, next);
    }
  }

  lemma SpoiltStamped(c: Context, m: Digest, dict: Dictionary, vps: seq<Pair>, next: byte)
    requires FirstIsRegular(c, dict, vps) && !Lasting(vps[0], MacCount(vps[1..]) == 0, next)
    requires m[0] == 1 && m[1] == 129
    requires Hides(vps[0]) ==> c.md5(c.secret + c.vector)[0] == Xor(vps[0].value[0], 1)
    ensures var p := Stamped(c, m, vps); !Representable(Own(c, p), p, next)
  {
    var p := Stamped(c, m, vps);
    if IsMac(p) && MacCount(vps[1..]) == 0 {
      PlainIsPrepared(Own(c, p), p);
    } else {
      SpoiltPair(Own(c, p), dict, p, next);
    }
  }

  lemma {:induction false} LastingMeant(c: Context, m: Digest, dict: Dictionary, vps: seq<Pair>, peek: nat -> byte)
    requires PlainMacs(vps) && AllRegular(dict, vps) && c.mac == Zeros(16) && AllLasting(vps, peek)
    ensures AllRepresentable(c, Meant(c, m, vps), peek)
  {
    if vps != [] {
      LastingMeant(c, m, dict, vps[1..], peek);
      if OnWire(vps[0]) {
        MeantLength(c, m, vps);
        LastingStamped(c, m, dict, vps, peek(Travelling(vps)));
        assert Meant(c, m, vps)[1..] == Meant(c, m, vps[1..]);
      }
    }
  }

  lemma {:induction false} SpoiltMeant(c: Context, m: Digest, dict: Dictionary, vps: seq<Pair>, peek: nat -> byte)
    requires PlainMacs(vps) && AllRegular(dict, vps) && c.mac == Zeros(16) && !AllLasting(vps, peek)
    requires m[0] == 1 && m[1] == 129 && c.md5(c.secret + c.vector)[0] == Spoiler(vps, peek)
    ensures !AllRepresentable(c, Meant(c, m, vps), peek)
  {
    if OnWire(vps[0]) {
      MeantLength(c, m, vps);
      assert Meant(c, m, vps)[0] == Stamped(c, m, vps) && Meant(c, m, vps)[1..] == Meant(c, m, vps[1..]);
      if !Lasting(vps[0], MacCount(vps[1..]) == 0, peek(Travelling(vps))) {
        SpoiltStamped(c, m, dict, vps, peek(Travelling(vps)));
      } else {
        SpoiltMeant(c, m, dict, vps[1..], peek);
      }
    } else {
      SpoiltMeant(c, m, dict, vps[1..], peek);
    }
  }

  // ---------------------------------------------------------------- surviving under every digest

  /** The list survives when both ends use these digests. */
  predicate SurvivesWith(cr: Crypto, c: Context, code: byte, id: byte, original: Option<Digest>, vps: seq<Pair>,
                         undo: Undo, dict: Dictionary, peek: nat -> byte)
  {
    var k := With(c, cr.md5);
    Deliverable(k, code, vps) && Survives(cr, k, code, id, original, vps, undo, dict, peek)
  }

  /** Where both ends use the same vector or nothing is hidden, lasting pairs survive ... */
  lemma LastingSurvives(cr: Crypto, c: Context, code: byte, id: byte, original: Option<Digest>, vps: seq<Pair>,
                        undo: Undo, dict: Dictionary, peek: nat -> byte)
    requires Deliverable(c, code, vps) && AllRegular(dict, vps) && cr.md5 == c.md5
    requires (SameVector(code, original, c.vector) || !SendsHidden(vps)) && AllLasting(vps, peek)
    ensures Survives(cr, c, code, id, original, vps, undo, dict, peek)
  {
    NumberableMacs(c, vps);
    LastingMeant(c, FinalMac(cr, c, code, id, original, vps), dict, vps, peek);
    PairsSurviveExactly(cr, c, code, id, original, vps, undo, dict, peek);
  }

  /** ... and others are lost under digests that make a valid tag, or no valid prefix, of what they hide. */
  function SpoilingDigests(vps: seq<Pair>, peek: nat -> byte): (cr: Crypto)
    requires !AllLasting(vps, peek)
  {
    Crypto(x => [Spoiler(vps, peek)] + Zeros(15), (k, x) => [1, 129] + Zeros(14))
  }

  lemma {:induction false} LastMacMatters(c: Context, m: Digest, m': Digest, vps: seq<Pair>)
    requires MacCount(vps) == 0
    ensures Meant(c, m, vps) == Meant(c, m', vps)
  {
    if vps != [] {
      LastMacMatters(c, m, m', vps[1..]);
    }
  }

  lemma SpoiltIsLost(c: Context, code: byte, id: byte, original: Option<Digest>, vps: seq<Pair>,
                     undo: Undo, dict: Dictionary, peek: nat -> byte)
    requires AllRegular(dict, vps) && !AllLasting(vps, peek)
    requires Deliverable(c, code, vps) && c.md5 == SpoilingDigests(vps, peek).md5
    requires SameVector(code, original, c.vector) || !SendsHidden(vps)
    ensures !Survives(SpoilingDigests(vps, peek), c, code, id, original, vps, undo, dict, peek)
  {
    var cr := SpoilingDigests(vps, peek);
    var m, one: Digest := FinalMac(cr, c, code, id, original, vps), [1, 129] + Zeros(14);
    NumberableMacs(c, vps);
    MacInsideSerialised(c, code, id, vps);
    SpoiltMeant(c, one, dict, vps, peek);
    if MacCount(vps) == 0 {
      LastMacMatters(c, m, one, vps);
    }
    PairsSurviveExactly(cr, c, code, id, original, vps, undo, dict, peek);
  }

  /** A list survives under every digest and keyed digest exactly when its pairs are lasting, and either
      both ends use the same vector -- a request that is not signed, or a reply read with the request it
      was sent for -- or no pair on the wire is hidden in the User-Password style. */
  lemma SurvivesUnderEveryDigest(c: Context, code: byte, id: byte, original: Option<Digest>, vps: seq<Pair>,
                                 undo: Undo, dict: Dictionary, peek: nat -> byte)
    requires forall md5: Hash :: Deliverable(With(c, md5), code, vps)
    requires AllRegular(dict, vps)
    ensures (forall cr: Crypto :: SurvivesWith(cr, c, code, id, original, vps, undo, dict, peek))
            <==> (SameVector(code, original, c.vector) || !SendsHidden(vps)) && AllLasting(vps, peek)
  {
    if !SameVector(code, original, c.vector) && SendsHidden(vps) {
      var hmac: (seq<byte>, seq<byte>) -> Digest := (k, x) => Zeros(16);
      var md5 := HiddenPairsAreLost(hmac, c, code, id, original, vps, undo, dict, peek);
      assert !SurvivesWith(Crypto(md5, hmac), c, code, id, original, vps, undo, dict, peek);
    } else if AllLasting(vps, peek) {
      forall cr: Crypto ensures SurvivesWith(cr, c, code, id, original, vps, undo, dict, peek) {
        assert Deliverable(With(c, cr.md5), code, vps);
        LastingSurvives(cr, With(c, cr.md5), code, id, original, vps, undo, dict, peek);
      }
    } else {
      var cr := SpoilingDigests(vps, peek);
      assert Deliverable(With(c, cr.md5), code, vps);
      SpoiltIsLost(With(c, cr.md5), code, id, original, vps, undo, dict, peek);
      assert !SurvivesWith(cr, c, code, id, original, vps, undo, dict, peek);
    }
  }

  /** The User-Password "A". */
  function Letter(): (p: Pair)
    ensures p.value == [65]
  {
    Pair(USER_PASSWORD, Text, [65], 0, false, 0, ENCRYPT_USER_PASSWORD)
  }

  /** A dictionary that knows nothing else. */
  function AllPasswords(attribute: word): (e: Option<Entry>)
  {
    Some(Entry(Text, false, ENCRYPT_USER_PASSWORD))
  }

  lemma LetterTravels(c: Context, code: byte)
    requires c.mac == Zeros(16) && 0 < code < 52
    ensures Deliverable(c, code, [Letter()])
  {
    var p := Letter();
    var hidden := Hidden(c.md5, c.secret, c.vector, [65]);
    assert |ZeroPad([65])| == 16;
    assert |hidden| == 16;
    assert Payload(c, p) == hidden;
    assert [p][1..] == [];
    assert CountAll(c, [p]) == Counted(c, p) == 18;
  }

  /** A failing input: an Accounting-Request (code 4) that carries a User-Password of one letter. */
  lemma AccountingPasswordLost(hmac: (seq<byte>, seq<byte>) -> Digest, c: Context, id: byte, undo: Undo,
                               peek: nat -> byte)
    returns (md5: Hash)
    requires c.mac == Zeros(16)
    ensures Deliverable(With(c, md5), ACCOUNTING_REQUEST, [Letter()])
    ensures !Survives(Crypto(md5, hmac), With(c, md5), ACCOUNTING_REQUEST, id, None, [Letter()], undo,
                      AllPasswords, peek)
  {
    forall md5: Hash ensures Deliverable(With(c, md5), ACCOUNTING_REQUEST, [Letter()]) {
      LetterTravels(With(c, md5), ACCOUNTING_REQUEST);
    }
    md5 := HiddenPairsAreLost(hmac, c, ACCOUNTING_REQUEST, id, None, [Letter()], undo,
                              AllPasswords, peek);
  }
}
